/** The options a batch read is constructed with, and the per-table state the
    batch engine keeps. */
module BatchTypes {
  import opened Wrappers

  /** Options that apply to every read directed to one table. */
  datatype TableOptions = TableOptions(
    ConsistentRead: Option<bool>,
    ExpressionAttributeNames: Option<map<string, string>>,
    ProjectionExpression: Option<string>)

  /** The options of a batch read: a default read consistency and options per
      table name. */
  datatype BatchGetOptions = BatchGetOptions(
    ConsistentRead: Option<bool>,
    PerTableOptions: Option<map<string, TableOptions>>)

  /** The state kept for one table: its read options and its backoff factor.
      The throttling tracker (held-back items and the backoff timer) belongs to
      the generic engine and is not part of this model. */
  datatype TableState = TableState(
    attributeNames: Option<map<string, string>>,
    backoffFactor: int,
    consistentRead: Option<bool>,
    name: string,
    projection: Option<string>)
}
