/** The string functions the name codec uses, and what they undo. */
module Strings {

  function Count(s: string, c: char): nat {
    if s == [] then 0 else (if s[0] == c then 1 else 0) + Count(s[1..], c)
  }

  /** The first n occurrences of c become d. */
  function Replace(s: string, c: char, d: char, n: nat): string {
    if s == [] || n == 0 then s
    else if s[0] == c then [d] + Replace(s[1..], c, d, n - 1)
    else [s[0]] + Replace(s[1..], c, d, n)
  }

  function ReplaceAll(s: string, c: char, d: char): (r: string)
    ensures |r| == |s| && forall i :: 0 <= i < |s| ==> r[i] == if s[i] == c then d else s[i]
  {
    if s == [] then [] else [if s[0] == c then d else s[0]] + ReplaceAll(s[1..], c, d)
  }

  predicate HasSuffix(s: string, t: string) {
    |t| <= |s| && s[|s| - |t|..] == t
  }

  /** The last position of c, or -1. */
  function LastIndex(s: string, c: char): (i: int)
    ensures -1 <= i < |s|
    ensures i >= 0 ==> s[i] == c
    ensures forall j :: i < j < |s| ==> s[j] != c
  {
    if s == [] then -1 else if s[|s| - 1] == c then |s| - 1 else LastIndex(s[..|s| - 1], c)
  }

  /** The first position of c followed by another c, or -1. */
  function FindDouble(s: string, c: char): (i: int)
    ensures -1 <= i < |s| - 1 || i == -1
    ensures i >= 0 ==> s[i] == c && s[i + 1] == c
  {
    if |s| < 2 then -1
    else if s[0] == c && s[1] == c then 0
    else var i := FindDouble(s[1..], c); if i < 0 then -1 else i + 1
  }

  function Split(s: string, c: char): (parts: seq<string>)
    ensures |parts| > 0
  {
    if s == [] then [""]
    else
      var rest := Split(s[1..], c);
      if s[0] == c then [""] + rest else [[s[0]] + rest[0]] + rest[1..]
  }

  function Join(parts: seq<string>, c: char): string {
    if parts == [] then "" else if |parts| == 1 then parts[0] else parts[0] + [c] + Join(parts[1..], c)
  }

  lemma Regroup(a: string, b: string, c: string)
    ensures a + b + c == a + (b + c)
  {}

  // ---------------------------------------------------------------- replacing

  lemma {:induction false} ReplaceSuffices(s: string, c: char, d: char, n: nat)
    requires Count(s, c) <= n && c != d
    ensures Replace(s, c, d, n) == ReplaceAll(s, c, d)
  {
    if s != [] {
      if n == 0 {
        NoCount(s, c);
      } else if s[0] == c {
        ReplaceSuffices(s[1..], c, d, n - 1);
      } else {
        ReplaceSuffices(s[1..], c, d, n);
      }
    }
  }

  lemma {:induction false} NoCount(s: string, c: char)
    ensures Count(s, c) == 0 <==> c !in s
  {
    if s != [] {
      NoCount(s[1..], c);
      assert s == [s[0]] + s[1..];
    }
  }

  lemma {:induction false} CountConcat(a: string, b: string, c: char)
    ensures Count(a + b, c) == Count(a, c) + Count(b, c)
  {
    if a == [] {
      assert a + b == b;
    } else {
      assert (a + b)[1..] == a[1..] + b;
      CountConcat(a[1..], b, c);
    }
  }

  lemma {:induction false} CountReplaced(s: string, c: char, d: char, e: char)
    requires e != c && e != d
    ensures Count(ReplaceAll(s, c, d), e) == Count(s, e)
  {
    if s != [] {
      CountReplaced(s[1..], c, d, e);
      assert ReplaceAll(s, c, d)[1..] == ReplaceAll(s[1..], c, d);
    }
  }

  /** Replacing back, when the replacement was not there before. */
  lemma ReplaceBack(s: string, c: char, d: char)
    requires d !in s
    ensures ReplaceAll(ReplaceAll(s, c, d), d, c) == s
  {}

  lemma ReplaceConcat(a: string, b: string, c: char, d: char)
    ensures ReplaceAll(a + b, c, d) == ReplaceAll(a, c, d) + ReplaceAll(b, c, d)
  {}

  lemma ReplaceAbsent(s: string, c: char, d: char)
    requires c !in s
    ensures ReplaceAll(s, c, d) == s
  {}

  // ---------------------------------------------------------------- splitting and joining

  lemma {:induction false} SplitFirst(p: string, rest: string, c: char)
    requires c !in p
    ensures Split(p + [c] + rest, c) == [p] + Split(rest, c)
    ensures Split(p, c) == [p]
  {
    if p == [] {
      assert p + [c] + rest == [c] + rest;
      assert ([c] + rest)[1..] == rest;
    } else {
      assert (p + [c] + rest)[1..] == p[1..] + [c] + rest;
      SplitFirst(p[1..], rest, c);
      assert [p[0]] + p[1..] == p;
    }
  }

  /** Parts without the separator survive. */
  ghost predicate Clean(parts: seq<string>, c: char) {
    forall p :: p in parts ==> c !in p && p != []
  }

  lemma {:induction false} SplitJoin(parts: seq<string>, c: char)
    requires parts != [] && Clean(parts, c)
    ensures Split(Join(parts, c), c) == parts
  {
    if |parts| == 1 {
      SplitFirst(parts[0], [], c);
      assert parts == [parts[0]];
    } else {
      SplitJoin(parts[1..], c);
      SplitFirst(parts[0], Join(parts[1..], c), c);
      assert parts == [parts[0]] + parts[1..];
    }
  }

  /** A joined text has one separator between parts, none doubled, none at either end. */
  lemma {:induction false} JoinShape(parts: seq<string>, c: char)
    requires parts != [] && Clean(parts, c)
    ensures var s := Join(parts, c);
            s != [] && s[0] != c && s[|s| - 1] != c && Count(s, c) == |parts| - 1 && FindDouble(s, c) == -1
  {
    var p := parts[0];
    assert p in parts;
    NoCount(p, c);
    NoDouble(p, c);
    if |parts| > 1 {
      var rest := Join(parts[1..], c);
      JoinShape(parts[1..], c);
      assert p + [c] + rest == p + ([c] + rest);
      CountConcat(p, [c] + rest, c);
      assert ([c] + rest)[1..] == rest;
      NoDoubleAcross(p, rest, c);
    }
  }

  lemma {:induction false} NoDouble(p: string, c: char)
    requires c !in p
    ensures FindDouble(p, c) == -1
  {
    if p != [] { NoDouble(p[1..], c); }
  }

  lemma {:induction false} NoDoubleAcross(p: string, rest: string, c: char)
    requires c !in p && rest != [] && rest[0] != c && FindDouble(rest, c) == -1
    ensures FindDouble(p + [c] + rest, c) == -1
  {
    if p == [] {
      assert p + [c] + rest == [c] + rest;
      assert ([c] + rest)[1..] == rest;
    } else {
      assert (p + [c] + rest)[1..] == p[1..] + [c] + rest;
      NoDoubleAcross(p[1..], rest, c);
    }
  }

  /** The double is found behind a text without one. */
  lemma {:induction false} FindAcross(a: string, b: string, c: char)
    requires FindDouble(a, c) == -1 && (a != [] ==> a[|a| - 1] != c)
    ensures FindDouble(a + [c, c] + b, c) == |a|
  {
    var s := a + [c, c] + b;
    if a == [] {
      assert s[0] == c && s[1] == c;
    } else {
      assert s[1..] == a[1..] + [c, c] + b;
      if |a| > 1 {
        assert a[1..][|a| - 2] == a[|a| - 1];
        assert s[0] == a[0] && s[1] == a[1];
      } else {
        assert s[0] == a[0];
      }
      FindAcross(a[1..], b, c);
    }
  }

  lemma {:induction false} LastIndexAcross(a: string, b: string, c: char)
    requires c !in b
    ensures LastIndex(a + [c] + b, c) == |a|
  {
    var s := a + [c] + b;
    if b == [] {
      assert s == a + [c];
    } else {
      assert s[|s| - 1] == b[|b| - 1];
      assert s[..|s| - 1] == a + [c] + b[..|b| - 1];
      LastIndexAcross(a, b[..|b| - 1], c);
    }
  }
}
