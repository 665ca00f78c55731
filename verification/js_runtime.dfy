/** The parts of JavaScript's runtime behaviour that the item identifier relies
    on: strings compared by UTF-16 code units (the comparison the default
    `Array.prototype.sort` uses), that sort itself, `Array.prototype.join`, and
    the decimal rendering of a byte. Strings are sequences of Unicode scalar
    values; JavaScript stores each one as one or two UTF-16 code units. */
module JsRuntime {

  type uint8 = x: int | 0 <= x < 0x100

  // ---------------------------------------------------------------------------
  // UTF-16 code units and the string order

  /** The UTF-16 code units of one character. */
  function CharCodeUnits(c: char): (r: seq<int>)
    ensures 1 <= |r| <= 2
    ensures (c as int) < 0x10000 <==> |r| == 1
    ensures forall i :: 0 <= i < |r| ==> 0 <= r[i] < 0x10000
  {
    var v := c as int;
    if v < 0x10000 then [v]
    else [0xD800 + (v - 0x10000) / 0x400, 0xDC00 + (v - 0x10000) % 0x400]
  }

  /** The UTF-16 code units of a string, as JavaScript stores it. */
  function CodeUnits(s: string): (r: seq<int>)
    ensures |s| <= |r| <= 2 * |s|
    ensures forall i :: 0 <= i < |r| ==> 0 <= r[i] < 0x10000
  {
    if s == [] then [] else CharCodeUnits(s[0]) + CodeUnits(s[1..])
  }

  /** Lexicographic order on code-unit sequences; a proper prefix comes first. */
  predicate LexLess(a: seq<int>, b: seq<int>)
  {
    if a == [] then b != []
    else if b == [] then false
    else if a[0] != b[0] then a[0] < b[0]
    else LexLess(a[1..], b[1..])
  }

  /** `a < b` on JavaScript strings: the comparison `Array.prototype.sort`
      applies when it is given no comparator. */
  predicate Less(a: string, b: string)
  {
    LexLess(CodeUnits(a), CodeUnits(b))
  }

  lemma {:induction false} LexLessIrreflexive(a: seq<int>)
    ensures !LexLess(a, a)
  {
    if a != [] {
      LexLessIrreflexive(a[1..]);
    }
  }

  lemma {:induction false} LexLessTransitive(a: seq<int>, b: seq<int>, c: seq<int>)
    requires LexLess(a, b) && LexLess(b, c)
    ensures LexLess(a, c)
  {
    if a != [] && b != [] && c != [] && a[0] == b[0] && b[0] == c[0] {
      LexLessTransitive(a[1..], b[1..], c[1..]);
    }
  }

  lemma {:induction false} LexLessTotal(a: seq<int>, b: seq<int>)
    requires a != b
    ensures LexLess(a, b) || LexLess(b, a)
  {
    if a != [] && b != [] && a[0] == b[0] {
      assert a == [a[0]] + a[1..] && b == [b[0]] + b[1..];
      LexLessTotal(a[1..], b[1..]);
    }
  }

  /** No character's code units are a proper prefix of another's: a high
      surrogate never stands alone, and a scalar value is never a surrogate. */
  lemma CharCodeUnitsPrefixFree(c: char, d: char, x: seq<int>, y: seq<int>)
    requires CharCodeUnits(c) + x == CharCodeUnits(d) + y
    ensures c == d && x == y
  {
    var u, w := CharCodeUnits(c), CharCodeUnits(d);
    assert (u + x)[0] == (w + y)[0];
    if |u| == 2 && |w| == 2 {
      assert (u + x)[1] == (w + y)[1];
    }
    assert c == d;
    assert x == (u + x)[|u|..];
  }

  /** Distinct strings have distinct code units. */
  lemma {:induction false} CodeUnitsInjective(a: string, b: string)
    requires CodeUnits(a) == CodeUnits(b)
    ensures a == b
  {
    if a != [] && b != [] {
      CharCodeUnitsPrefixFree(a[0], b[0], CodeUnits(a[1..]), CodeUnits(b[1..]));
      CodeUnitsInjective(a[1..], b[1..]);
      assert a == [a[0]] + a[1..] && b == [b[0]] + b[1..];
    }
  }

  /** `Less` is a strict total order on strings. */
  lemma LessIrreflexive(a: string)
    ensures !Less(a, a)
  {
    LexLessIrreflexive(CodeUnits(a));
  }

  lemma LessTransitive(a: string, b: string, c: string)
    requires Less(a, b) && Less(b, c)
    ensures Less(a, c)
  {
    LexLessTransitive(CodeUnits(a), CodeUnits(b), CodeUnits(c));
  }

  lemma LessTotal(a: string, b: string)
    requires a != b
    ensures Less(a, b) || Less(b, a)
  {
    if CodeUnits(a) == CodeUnits(b) {
      CodeUnitsInjective(a, b);
    }
    LexLessTotal(CodeUnits(a), CodeUnits(b));
  }

  // ---------------------------------------------------------------------------
  // Array.prototype.sort with the default comparator

  /** Every element is not less than any element before it. */
  ghost predicate Ordered(s: seq<string>)
  {
    forall i, j :: 0 <= i < j < |s| ==> !Less(s[j], s[i])
  }

  /** Every element is less than every element after it. */
  ghost predicate StrictlyIncreasing(s: seq<string>)
  {
    forall i, j :: 0 <= i < j < |s| ==> Less(s[i], s[j])
  }

  /** No element occurs twice. */
  ghost predicate Distinct<T>(s: seq<T>)
  {
    forall i, j :: 0 <= i < j < |s| ==> s[i] != s[j]
  }

  /** Places x before the first element that is not less than it. */
  function Insert(x: string, s: seq<string>): (r: seq<string>)
    requires Ordered(s)
    ensures |r| == |s| + 1
    ensures multiset(r) == multiset(s) + multiset{x}
    ensures Ordered(r)
  {
    if s == [] || !Less(s[0], x) then
      InsertFront(x, s);
      [x] + s
    else
      var r := [s[0]] + Insert(x, s[1..]);
      assert s == [s[0]] + s[1..];
      InsertAfter(x, s, r);
      r
  }

  lemma InsertFront(x: string, s: seq<string>)
    requires Ordered(s)
    requires s == [] || !Less(s[0], x)
    ensures Ordered([x] + s)
  {
    var r := [x] + s;
    forall i, j | 0 <= i < j < |r| ensures !Less(r[j], r[i]) {
      if i == 0 {
        if Less(s[j - 1], x) {
          if s[j - 1] == s[0] {
          } else {
            LessTotal(s[j - 1], s[0]);
            LessTransitive(s[0], s[j - 1], x);
          }
        }
      }
    }
  }

  lemma InsertAfter(x: string, s: seq<string>, r: seq<string>)
    requires Ordered(s) && s != [] && Less(s[0], x)
    requires |r| == |s| + 1 && r[0] == s[0]
    requires multiset(r[1..]) == multiset(s[1..]) + multiset{x} && Ordered(r[1..])
    ensures Ordered(r)
  {
    forall i, j | 0 <= i < j < |r| ensures !Less(r[j], r[i]) {
      if i == 0 {
        assert r[j] in multiset(r[1..]) by { assert r[j] == r[1..][j - 1]; }
        if r[j] == x {
          if Less(x, s[0]) {
            LessTransitive(x, s[0], x);
            LessIrreflexive(x);
          }
        } else {
          assert r[j] in multiset(s[1..]);
          var k :| 0 <= k < |s[1..]| && s[1..][k] == r[j];
          assert s[k + 1] == r[j];
        }
      } else {
        assert r[i] == r[1..][i - 1] && r[j] == r[1..][j - 1];
      }
    }
  }

  /** The default `Array.prototype.sort`: a permutation of s in ascending
      order. */
  function Sort(s: seq<string>): (r: seq<string>)
    ensures multiset(r) == multiset(s)
    ensures Ordered(r)
  {
    if s == [] then []
    else
      assert s == [s[0]] + s[1..];
      Insert(s[0], Sort(s[1..]))
  }

  /** Sorting a sequence without repetitions gives a strictly increasing one. */
  lemma OrderedDistinctIsStrict(s: seq<string>)
    requires Ordered(s) && Distinct(s)
    ensures StrictlyIncreasing(s)
  {
    forall i, j | 0 <= i < j < |s| ensures Less(s[i], s[j]) {
      LessTotal(s[i], s[j]);
    }
  }

  lemma DistinctMultiset(s: seq<string>, t: seq<string>)
    requires Distinct(s) && multiset(s) == multiset(t)
    ensures Distinct(t)
  {
    forall i, j | 0 <= i < j < |t| ensures t[i] != t[j] {
      if t[i] == t[j] {
        var v := t[i];
        assert multiset(t[..j]) + multiset(t[j..]) == multiset(t) by { assert t == t[..j] + t[j..]; }
        assert v in multiset(t[..j]) by { assert t[..j][i] == v; }
        assert v in multiset(t[j..]) by { assert t[j..][0] == v; }
        assert multiset(t)[v] >= 2;
        DistinctCount(s, v);
      }
    }
  }

  lemma {:induction false} DistinctCount(s: seq<string>, v: string)
    requires Distinct(s)
    ensures multiset(s)[v] <= 1
  {
    if s != [] {
      assert s == [s[0]] + s[1..];
      DistinctCount(s[1..], v);
      if s[0] == v {
        assert v !in s[1..];
      }
    }
  }

  lemma HeadIsMember<T>(s: seq<T>)
    ensures s != [] ==> s[0] in s
  {
  }

  /** Two strictly increasing sequences with the same elements are equal:
      sorting does not depend on the order the elements came in. */
  lemma {:induction false} StrictlyIncreasingUnique(s: seq<string>, t: seq<string>)
    requires StrictlyIncreasing(s) && StrictlyIncreasing(t)
    requires forall x :: x in s <==> x in t
    ensures s == t
  {
    if s != [] && t != [] {
      SameHead(s, t);
      SameTail(s, t);
      StrictlyIncreasingUnique(s[1..], t[1..]);
      assert s == [s[0]] + s[1..] && t == [t[0]] + t[1..];
    } else {
      HeadIsMember(s);
      HeadIsMember(t);
    }
  }

  /** Both start with the least of the common elements. */
  lemma SameHead(s: seq<string>, t: seq<string>)
    requires StrictlyIncreasing(s) && StrictlyIncreasing(t)
    requires forall x :: x in s <==> x in t
    requires s != [] && t != []
    ensures s[0] == t[0]
  {
    assert s[0] in t && t[0] in s;
    var i :| 0 <= i < |t| && t[i] == s[0];
    var j :| 0 <= j < |s| && s[j] == t[0];
    if s[0] != t[0] {
      assert i > 0 && j > 0;
      LessTransitive(s[0], t[0], s[0]);
      LessIrreflexive(s[0]);
    }
  }

  /** Once the common head is dropped, the rest have the same elements. */
  lemma SameTail(s: seq<string>, t: seq<string>)
    requires StrictlyIncreasing(s) && StrictlyIncreasing(t)
    requires forall x :: x in s <==> x in t
    requires s != [] && t != [] && s[0] == t[0]
    ensures forall x :: x in s[1..] <==> x in t[1..]
  {
    forall x ensures x in s[1..] ==> x in t[1..] {
      if x in s[1..] { AfterHead(s, t, x); }
    }
    forall x ensures x in t[1..] ==> x in s[1..] {
      if x in t[1..] { AfterHead(t, s, x); }
    }
  }

  lemma AfterHead(s: seq<string>, t: seq<string>, x: string)
    requires StrictlyIncreasing(s) && StrictlyIncreasing(t)
    requires forall y :: y in s <==> y in t
    requires s != [] && t != [] && s[0] == t[0]
    requires x in s[1..]
    ensures x in t[1..]
  {
    var k :| 0 <= k < |s[1..]| && s[1..][k] == x;
    assert s[k + 1] == x;
    assert Less(s[0], x);
    if x == s[0] { LessIrreflexive(x); }
    assert x in t;
    var m :| 0 <= m < |t| && t[m] == x;
    assert m > 0;
    assert t[1..][m - 1] == x;
  }

  /** Sorting two arrangements of the same distinct strings gives one and the
      same array. */
  lemma SortIgnoresOrder(s: seq<string>, t: seq<string>)
    requires Distinct(s) && multiset(s) == multiset(t)
    ensures Sort(s) == Sort(t)
  {
    DistinctMultiset(s, Sort(s));
    DistinctMultiset(s, t);
    DistinctMultiset(t, Sort(t));
    OrderedDistinctIsStrict(Sort(s));
    OrderedDistinctIsStrict(Sort(t));
    forall x ensures x in Sort(s) <==> x in Sort(t) {
      assert x in Sort(s) <==> x in multiset(Sort(s));
      assert x in Sort(t) <==> x in multiset(Sort(t));
    }
    StrictlyIncreasingUnique(Sort(s), Sort(t));
  }

  // ---------------------------------------------------------------------------
  // Array.prototype.join and the decimal rendering of a number

  /** `parts.join(sep)`: the parts with sep between consecutive ones. */
  function Join(parts: seq<string>, sep: string): (r: string)
    ensures parts != [] ==> parts[0] <= r
  {
    if parts == [] then ""
    else if |parts| == 1 then parts[0]
    else parts[0] + sep + Join(parts[1..], sep)
  }

  /** `s.split(sep)` for a one-character separator: the pieces between the
      occurrences of sep, in order; there is always at least one. */
  function Split(s: string, sep: char): (r: seq<string>)
    ensures r != []
  {
    if s == [] then [""]
    else if s[0] == sep then [""] + Split(s[1..], sep)
    else
      var rest := Split(s[1..], sep);
      [[s[0]] + rest[0]] + rest[1..]
  }

  /** A string without the separator is one piece. */
  lemma {:induction false} SplitWithoutSeparator(s: string, sep: char)
    requires sep !in s
    ensures Split(s, sep) == [s]
  {
    if s != [] {
      SplitWithoutSeparator(s[1..], sep);
      assert [s[0]] + s[1..] == s;
    }
  }

  /** The piece before the first separator comes off the front. */
  lemma {:induction false} SplitAtSeparator(p: string, sep: char, rest: string)
    requires sep !in p
    ensures Split(p + [sep] + rest, sep) == [p] + Split(rest, sep)
  {
    var s := p + [sep] + rest;
    if p == [] {
      assert s == [sep] + rest;
    } else {
      assert s[1..] == p[1..] + [sep] + rest;
      SplitAtSeparator(p[1..], sep, rest);
      assert [p[0]] + p[1..] == p;
    }
  }

  /** Splitting a join at its one-character separator gives back the parts,
      when no part contains the separator. */
  lemma {:induction false} SplitJoin(parts: seq<string>, sep: char)
    requires parts != []
    requires forall i :: 0 <= i < |parts| ==> sep !in parts[i]
    ensures Split(Join(parts, [sep]), sep) == parts
  {
    if |parts| == 1 {
      SplitWithoutSeparator(parts[0], sep);
    } else {
      SplitJoin(parts[1..], sep);
      SplitAtSeparator(parts[0], sep, Join(parts[1..], [sep]));
      assert [parts[0]] + parts[1..] == parts;
    }
  }

  function DigitChar(d: nat): (c: char)
    requires d < 10
    ensures '0' <= c <= '9' && (c as int) - ('0' as int) == d
  {
    (('0' as int) + d) as char
  }

  /** `String(n)` for a non-negative integer: its decimal digits. */
  function DecimalString(n: nat): (r: string)
    ensures r != []
    ensures forall i :: 0 <= i < |r| ==> '0' <= r[i] <= '9'
  {
    if n < 10 then [DigitChar(n)] else DecimalString(n / 10) + [DigitChar(n % 10)]
  }

  /** The number a string of decimal digits denotes. */
  function DecimalValue(s: string): nat
  {
    if s == [] then 0
    else
      var d := (s[|s| - 1] as int) - ('0' as int);
      DecimalValue(s[..|s| - 1]) * 10 + (if 0 <= d < 10 then d else 0)
  }

  /** Reading back the decimal rendering gives the number. */
  lemma {:induction false} DecimalRoundTrip(n: nat)
    ensures DecimalValue(DecimalString(n)) == n
  {
    var s := DecimalString(n);
    if n >= 10 {
      DecimalRoundTrip(n / 10);
      assert s[..|s| - 1] == DecimalString(n / 10);
    }
  }

  /** `Uint8Array.prototype.toString`: the decimal values of the bytes,
      joined by commas. */
  function BytesToString(bytes: seq<uint8>): string
  {
    Join(DecimalStrings(bytes), ",")
  }

  /** The decimal rendering of each byte. */
  function DecimalStrings(bytes: seq<uint8>): (r: seq<string>)
    ensures |r| == |bytes|
    ensures forall i :: 0 <= i < |bytes| ==> r[i] == DecimalString(bytes[i])
  {
    if bytes == [] then [] else [DecimalString(bytes[0])] + DecimalStrings(bytes[1..])
  }

  /** Distinct byte sequences are rendered as distinct strings: the string
      determines the bytes. */
  lemma BytesToStringInjective(a: seq<uint8>, b: seq<uint8>)
    requires BytesToString(a) == BytesToString(b)
    ensures a == b
  {
    if a != [] && b != [] {
      var pa, pb := DecimalStrings(a), DecimalStrings(b);
      SplitJoin(pa, ',');
      SplitJoin(pb, ',');
      assert [','] == ",";
      forall i | 0 <= i < |a| ensures a[i] == b[i] {
        DecimalRoundTrip(a[i]);
        DecimalRoundTrip(b[i]);
      }
    }
  }
}
