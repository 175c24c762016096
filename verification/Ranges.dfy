/** Address ranges as values.

    An address is an integer; a range list is what `IPRanges.ranges` holds. `Flat` is the
    meaning of a list: its addresses in list order. The functions below are the algorithms of
    the range library in recursive form; `IPRanges.dfy` runs them as the library does, in place
    and with loops. */
module Ranges {
  import opened SetSizes

  datatype Range = Range(lo: int, hi: int)

  /** The addresses lo, lo + 1, .., hi. */
  function Span(lo: int, hi: int): (s: seq<int>)
    ensures |s| == if lo <= hi then hi - lo + 1 else 0
    ensures forall i :: 0 <= i < |s| ==> s[i] == lo + i
    decreases hi - lo
  {
    if lo > hi then [] else [lo] + Span(lo + 1, hi)
  }

  function Flat(rs: seq<Range>): seq<int> {
    if rs == [] then [] else Span(rs[0].lo, rs[0].hi) + Flat(rs[1..])
  }

  predicate In(rs: seq<Range>, a: int) {
    rs != [] && (rs[0].lo <= a <= rs[0].hi || In(rs[1..], a))
  }

  /** Every range runs upwards; the order and any overlap are free. */
  predicate Proper(rs: seq<Range>) {
    rs == [] || (rs[0].lo <= rs[0].hi && Proper(rs[1..]))
  }

  /** Ordered, disjoint and with a gap between neighbours: the library's merged form. */
  predicate Merged(rs: seq<Range>) {
    rs == [] ||
    (rs[0].lo <= rs[0].hi && (|rs| > 1 ==> rs[0].hi + 1 < rs[1].lo) && Merged(rs[1..]))
  }

  predicate Increasing(s: seq<int>) {
    forall i, j :: 0 <= i < j < |s| ==> s[i] < s[j]
  }

  function Size(rs: seq<Range>): int {
    if rs == [] then 0 else rs[0].hi - rs[0].lo + 1 + Size(rs[1..])
  }

  // ---------------------------------------------------------------- meaning

  lemma {:induction false} FlatIn(rs: seq<Range>, a: int)
    ensures a in Flat(rs) <==> In(rs, a)
  {
    if rs != [] {
      var s := Span(rs[0].lo, rs[0].hi);
      FlatIn(rs[1..], a);
      if rs[0].lo <= a <= rs[0].hi {
        assert s[a - rs[0].lo] == a;
      }
    }
  }

  lemma FlatInAll(rs: seq<Range>)
    ensures forall a :: a in Flat(rs) <==> In(rs, a)
  {
    forall a ensures a in Flat(rs) <==> In(rs, a) { FlatIn(rs, a); }
  }

  lemma {:induction false} InConcat(a: seq<Range>, b: seq<Range>, x: int)
    ensures In(a + b, x) <==> In(a, x) || In(b, x)
  {
    if a == [] {
      assert a + b == b;
    } else {
      assert (a + b)[1..] == a[1..] + b;
      InConcat(a[1..], b, x);
    }
  }

  lemma {:induction false} MergedProper(rs: seq<Range>)
    requires Merged(rs)
    ensures Proper(rs)
  {
    if rs != [] { MergedProper(rs[1..]); }
  }

  lemma {:induction false} ProperConcat(a: seq<Range>, b: seq<Range>)
    requires Proper(a) && Proper(b)
    ensures Proper(a + b)
  {
    if a == [] {
      assert a + b == b;
    } else {
      assert (a + b)[1..] == a[1..] + b;
      ProperConcat(a[1..], b);
    }
  }

  lemma {:induction false} MergedBelow(rs: seq<Range>, a: int)
    requires Merged(rs) && In(rs, a)
    ensures rs[0].lo <= a
  {
    if !(rs[0].lo <= a <= rs[0].hi) { MergedBelow(rs[1..], a); }
  }

  /** The size the library adds up range by range counts the addresses. */
  lemma {:induction false} SizeIsFlat(rs: seq<Range>)
    requires Proper(rs)
    ensures Size(rs) == |Flat(rs)|
  {
    if rs != [] { SizeIsFlat(rs[1..]); }
  }

  /** A merged list enumerates its addresses upwards, each once. */
  lemma {:induction false} MergedIncreasing(rs: seq<Range>)
    requires Merged(rs)
    ensures Increasing(Flat(rs))
  {
    if rs != [] {
      var s, t := Span(rs[0].lo, rs[0].hi), Flat(rs[1..]);
      MergedIncreasing(rs[1..]);
      forall i, j | 0 <= i < j < |s + t| ensures (s + t)[i] < (s + t)[j] {
        if i < |s| <= j {
          FlatIn(rs[1..], t[j - |s|]);
          MergedBelow(rs[1..], t[j - |s|]);
        }
      }
    }
  }

  lemma {:induction false} SpreadOut(f: seq<int>, i: int, j: int)
    requires Increasing(f) && 0 <= i <= j < |f|
    ensures f[j] - f[i] >= j - i
    decreases j
  {
    if i < j { SpreadOut(f, i, j - 1); }
  }

  lemma HasFirst(s: seq<int>)
    ensures s != [] ==> s[0] in s
  {}

  /** The merged form is canonical: same addresses, same list. */
  lemma {:induction false} MergedCanonical(a: seq<Range>, b: seq<Range>)
    requires Merged(a) && Merged(b)
    requires forall x :: In(a, x) <==> In(b, x)
    ensures a == b
  {
    if a == [] {
      if b != [] { assert In(b, b[0].lo); }
    } else {
      assert In(a, a[0].lo) && In(b, a[0].lo);
      MergedBelow(b, a[0].lo);
      assert In(b, b[0].lo) && In(a, b[0].lo);
      MergedBelow(a, b[0].lo);
      MergedHead(a, b);
      MergedHead(b, a);
      forall x ensures In(a[1..], x) <==> In(b[1..], x) {
        assert In(a, x) <==> In(b, x);
        if In(a[1..], x) { MergedBelow(a[1..], x); }
        if In(b[1..], x) { MergedBelow(b[1..], x); }
      }
      MergedCanonical(a[1..], b[1..]);
    }
  }

  lemma MergedHead(a: seq<Range>, b: seq<Range>)
    requires Merged(a) && Merged(b) && a != [] && b != [] && a[0].lo == b[0].lo
    requires forall x :: In(a, x) <==> In(b, x)
    ensures a[0].hi <= b[0].hi
  {
    if b[0].hi < a[0].hi {
      var x := b[0].hi + 1;
      assert In(a, x);
      assert In(b, x);
      if In(b[1..], x) { MergedBelow(b[1..], x); }
    }
  }

  /** Increasing sequences are as long as the set of their elements. */
  lemma {:induction false} IncreasingCard(s: seq<int>)
    requires Increasing(s)
    ensures |set a | a in s| == |s|
  {
    if s != [] {
      IncreasingCard(s[1..]);
      assert (set a | a in s) == {s[0]} + set a | a in s[1..];
    }
  }

  /** The addresses of a merged list as a set. */
  lemma AsSet(rs: seq<Range>) returns (s: set<int>)
    requires Merged(rs)
    ensures |s| == |Flat(rs)|
    ensures forall a :: a in s <==> In(rs, a)
  {
    MergedIncreasing(rs);
    IncreasingCard(Flat(rs));
    FlatInAll(rs);
    s := set a | a in Flat(rs);
  }

  /** Sizes of unions and differences of merged lists. */
  lemma UnionSize(u: seq<Range>, a: seq<Range>, b: seq<Range>)
    requires Merged(u) && Merged(a) && Merged(b)
    requires forall x :: In(u, x) <==> In(a, x) || In(b, x)
    requires forall x :: In(a, x) ==> !In(b, x)
    ensures |Flat(u)| == |Flat(a)| + |Flat(b)|
  {
    var su := AsSet(u);
    var sa := AsSet(a);
    var sb := AsSet(b);
    CardDisjoint(su, sa, sb);
  }

  // ---------------------------------------------------------------- merge

  predicate SortedByLo(rs: seq<Range>) {
    rs == [] || ((|rs| > 1 ==> rs[0].lo <= rs[1].lo) && SortedByLo(rs[1..]))
  }

  function Insert(r: Range, rs: seq<Range>): seq<Range> {
    if rs == [] || r.lo <= rs[0].lo then [r] + rs else [rs[0]] + Insert(r, rs[1..])
  }

  function SortByLo(rs: seq<Range>): seq<Range> {
    if rs == [] then [] else Insert(rs[0], SortByLo(rs[1..]))
  }

  lemma {:induction false} InsertSorts(r: Range, rs: seq<Range>, x: int)
    requires SortedByLo(rs) && Proper(rs) && r.lo <= r.hi
    ensures SortedByLo(Insert(r, rs)) && Proper(Insert(r, rs))
    ensures In(Insert(r, rs), x) <==> r.lo <= x <= r.hi || In(rs, x)
  {
    if rs == [] || r.lo <= rs[0].lo {
      assert ([r] + rs)[1..] == rs;
    } else {
      InsertSorts(r, rs[1..], x);
      var t := Insert(r, rs[1..]);
      assert ([rs[0]] + t)[1..] == t;
      assert t[0].lo >= rs[0].lo;
    }
  }

  lemma {:induction false} SortByLoSorts(rs: seq<Range>, x: int)
    requires Proper(rs)
    ensures SortedByLo(SortByLo(rs)) && Proper(SortByLo(rs))
    ensures In(SortByLo(rs), x) <==> In(rs, x)
  {
    if rs != [] {
      SortByLoSorts(rs[1..], x);
      InsertSorts(rs[0], SortByLo(rs[1..]), x);
    }
  }

  /** Fold a sorted list into merged form; `cur` is the range still open. */
  function Fold(cur: Range, rs: seq<Range>): seq<Range>
    decreases |rs|
  {
    if rs == [] then [cur]
    else if cur.hi + 1 == rs[0].lo then Fold(Range(cur.lo, rs[0].hi), rs[1..])
    else if cur.hi < rs[0].lo then [cur] + Fold(rs[0], rs[1..])
    else if cur.hi < rs[0].hi then Fold(Range(cur.lo, rs[0].hi), rs[1..])
    else Fold(cur, rs[1..])
  }

  lemma {:induction false} FoldMerges(cur: Range, rs: seq<Range>, x: int)
    requires cur.lo <= cur.hi && Proper(rs) && SortedByLo([cur] + rs)
    ensures Merged(Fold(cur, rs)) && Fold(cur, rs) != [] && Fold(cur, rs)[0].lo == cur.lo
    ensures In(Fold(cur, rs), x) <==> cur.lo <= x <= cur.hi || In(rs, x)
    decreases |rs|
  {
    assert ([cur] + rs)[1..] == rs;
    if rs != [] {
      var next :=
        if cur.hi + 1 == rs[0].lo then Range(cur.lo, rs[0].hi)
        else if cur.hi < rs[0].lo then rs[0]
        else if cur.hi < rs[0].hi then Range(cur.lo, rs[0].hi)
        else cur;
      assert SortedByLo([next] + rs[1..]) by {
        assert ([next] + rs[1..])[1..] == rs[1..];
        if |rs| > 1 { assert rs[0].lo <= rs[1].lo; }
      }
      FoldMerges(next, rs[1..], x);
      var t := Fold(next, rs[1..]);
      assert ([cur] + t)[1..] == t;
    }
  }

  function Merge(rs: seq<Range>): seq<Range> {
    if |rs| <= 1 then rs
    else var s := SortByLo(rs); if s == [] then [] else Fold(s[0], s[1..])
  }

  lemma MergeMerges(rs: seq<Range>)
    requires Proper(rs)
    ensures Merged(Merge(rs))
    ensures forall x :: In(Merge(rs), x) <==> In(rs, x)
  {
    if |rs| > 1 {
      var s := SortByLo(rs);
      forall x ensures Merged(Merge(rs)) && (In(Merge(rs), x) <==> In(rs, x)) {
        SortByLoSorts(rs, x);
        assert [s[0]] + s[1..] == s;
        FoldMerges(s[0], s[1..], x);
      }
      assert Merged(Merge(rs)) by {
        SortByLoSorts(rs, 0);
        assert [s[0]] + s[1..] == s;
        FoldMerges(s[0], s[1..], 0);
      }
    } else if |rs| == 1 {
      assert rs[1..] == [];
    }
  }

  // ---------------------------------------------------------------- difference

  /** What is left of `a` in front of `b` when the two ranges meet. */
  function Before(a: Range, b: Range): seq<Range> {
    if a.lo < b.lo then [Range(a.lo, b.lo - 1)] else []
  }

  function Diff(a: seq<Range>, b: seq<Range>): seq<Range>
    decreases |a| + |b|
  {
    if a == [] then []
    else if b == [] then a
    else if a[0].hi < b[0].lo then [a[0]] + Diff(a[1..], b)
    else if a[0].lo > b[0].hi then Diff(a, b[1..])
    else if a[0].hi <= b[0].hi then Before(a[0], b[0]) + Diff(a[1..], b)
    else Before(a[0], b[0]) + Diff([Range(b[0].hi + 1, a[0].hi)] + a[1..], b[1..])
  }

  lemma {:induction false} DiffRemoves(a: seq<Range>, b: seq<Range>, x: int)
    requires Merged(a) && Merged(b)
    ensures Merged(Diff(a, b))
    ensures In(Diff(a, b), x) <==> In(a, x) && !In(b, x)
    ensures Diff(a, b) != [] ==> a != [] && a[0].lo <= Diff(a, b)[0].lo
    decreases |a| + |b|
  {
    if a == [] || b == [] {
    } else if a[0].hi < b[0].lo {
      DiffRemoves(a[1..], b, x);
      var t := Diff(a[1..], b);
      assert ([a[0]] + t)[1..] == t;
      if In(b, x) { MergedBelow(b, x); }
    } else if a[0].lo > b[0].hi {
      DiffRemoves(a, b[1..], x);
      if In(a, x) { MergedBelow(a, x); }
    } else if a[0].hi <= b[0].hi {
      DiffRemoves(a[1..], b, x);
      DiffStep(a, b, Diff(a[1..], b), x);
    } else {
      var a' := [Range(b[0].hi + 1, a[0].hi)] + a[1..];
      assert a'[1..] == a[1..];
      DiffRemoves(a', b[1..], x);
      DiffStep(a, b, Diff(a', b[1..]), x);
      if In(a[1..], x) { MergedBelow(a[1..], x); }
      if In(b[1..], x) { MergedBelow(b[1..], x); }
    }
  }

  /** Prefixing what lies before the first range of `b`. */
  lemma DiffStep(a: seq<Range>, b: seq<Range>, t: seq<Range>, x: int)
    requires Merged(a) && Merged(b) && a != [] && b != [] && Merged(t)
    requires a[0].lo <= b[0].hi && b[0].lo <= a[0].hi
    requires t != [] ==> b[0].lo < t[0].lo && a[0].lo <= t[0].lo
    ensures Merged(Before(a[0], b[0]) + t)
    ensures In(Before(a[0], b[0]) + t, x) <==> a[0].lo <= x < b[0].lo || In(t, x)
    ensures a[0].lo <= x < b[0].lo ==> !In(b, x)
    ensures In(a[1..], x) ==> a[0].hi + 1 < x
    ensures In(b[1..], x) ==> b[0].hi + 1 < x
  {
    if In(b, x) { MergedBelow(b, x); }
    if In(a[1..], x) { MergedBelow(a[1..], x); }
    if In(b[1..], x) { MergedBelow(b[1..], x); }
    if a[0].lo < b[0].lo {
      assert (Before(a[0], b[0]) + t)[1..] == t;
    } else {
      assert Before(a[0], b[0]) + t == t;
    }
  }

  // ---------------------------------------------------------------- intersection

  function Meet(a: Range, b: Range): seq<Range> {
    var lo := if a.lo > b.lo then a.lo else b.lo;
    var hi := if a.hi < b.hi then a.hi else b.hi;
    if lo <= hi then [Range(lo, hi)] else []
  }

  function Intersect(a: seq<Range>, b: seq<Range>): seq<Range>
    decreases |a| + |b|
  {
    if a == [] || b == [] then []
    else Meet(a[0], b[0]) + (if a[0].hi < b[0].hi then Intersect(a[1..], b) else Intersect(a, b[1..]))
  }

  lemma {:induction false} IntersectMeets(a: seq<Range>, b: seq<Range>, x: int)
    requires Merged(a) && Merged(b)
    ensures Merged(Intersect(a, b))
    ensures In(Intersect(a, b), x) <==> In(a, x) && In(b, x)
    ensures Intersect(a, b) != [] ==>
              a != [] && b != [] && a[0].lo <= Intersect(a, b)[0].lo && b[0].lo <= Intersect(a, b)[0].lo
    decreases |a| + |b|
  {
    if a != [] && b != [] {
      if a[0].hi < b[0].hi {
        IntersectMeets(a[1..], b, x);
        MeetStep(a, b, Intersect(a[1..], b), x);
      } else {
        IntersectMeets(a, b[1..], x);
        MeetStep(b, a, Intersect(a, b[1..]), x);
      }
    }
  }

  /** The range that ends first has met all it can meet. */
  lemma MeetStep(a: seq<Range>, b: seq<Range>, t: seq<Range>, x: int)
    requires Merged(a) && Merged(b) && a != [] && b != [] && Merged(t)
    requires a[0].hi <= b[0].hi
    requires t != [] ==> |a| > 1 && a[1].lo <= t[0].lo && b[0].lo <= t[0].lo
    ensures Merged(Meet(a[0], b[0]) + t) && Meet(a[0], b[0]) == Meet(b[0], a[0])
    ensures In(Meet(a[0], b[0]) + t, x) <==> (a[0].lo <= x <= a[0].hi && b[0].lo <= x) || In(t, x)
    ensures Meet(a[0], b[0]) + t != [] ==>
              a[0].lo <= (Meet(a[0], b[0]) + t)[0].lo && b[0].lo <= (Meet(a[0], b[0]) + t)[0].lo
    ensures In(b, x) && x <= a[0].hi ==> b[0].lo <= x
    ensures x <= a[0].hi && b[0].lo <= x ==> In(b, x)
  {
    if In(b, x) { MergedBelow(b, x); }
    if Meet(a[0], b[0]) == [] {
      assert Meet(a[0], b[0]) + t == t;
    } else {
      assert (Meet(a[0], b[0]) + t)[1..] == t;
    }
  }

  // ---------------------------------------------------------------- slices

  /** Positions s .. e of the enumeration; s may have become negative on the way. */
  function Cut(rs: seq<Range>, s: int, e: int): seq<Range> {
    if rs == [] then []
    else
      var size := rs[0].hi - rs[0].lo + 1;
      if s >= size then Cut(rs[1..], s - size, e - size)
      else if s >= 0 then
        if e < size then [Range(rs[0].lo + s, rs[0].lo + e)]
        else [Range(rs[0].lo + s, rs[0].hi)] + Cut(rs[1..], s - size, e - size)
      else if e >= size then [rs[0]] + Cut(rs[1..], s, e - size)
      else [Range(rs[0].lo, rs[0].lo + e)]
  }

  function Clamp(i: int, n: int): int {
    if i < 0 then 0 else if i > n then n else i
  }

  lemma {:induction false} CutMerged(rs: seq<Range>, s: int, e: int)
    requires Merged(rs) && s <= e && 0 <= e
    ensures Merged(Cut(rs, s, e))
    ensures Cut(rs, s, e) != [] ==> rs != [] && rs[0].lo <= Cut(rs, s, e)[0].lo
  {
    if rs != [] {
      var size := rs[0].hi - rs[0].lo + 1;
      var from := if s >= 0 then s else 0;
      if s >= size {
        CutMerged(rs[1..], s - size, e - size);
      } else if e < size {
        FlatOne(Range(rs[0].lo + from, rs[0].lo + e));
      } else {
        var t := Cut(rs[1..], if s >= 0 then s - size else s, e - size);
        CutMerged(rs[1..], if s >= 0 then s - size else s, e - size);
        CutJoin(Range(rs[0].lo + from, rs[0].hi), t);
      }
    }
  }

  /** What `Cut` takes out of an enumeration. */
  function Window(f: seq<int>, s: int, e: int): seq<int>
    requires s <= e
  {
    f[Clamp(s, |f|)..Clamp(e + 1, |f|)]
  }

  lemma {:induction false} CutIsWindow(rs: seq<Range>, s: int, e: int)
    requires Merged(rs) && s <= e && 0 <= e
    ensures Flat(Cut(rs, s, e)) == Window(Flat(rs), s, e)
  {
    if rs != [] {
      var size := rs[0].hi - rs[0].lo + 1;
      var span, rest := Span(rs[0].lo, rs[0].hi), Flat(rs[1..]);
      if s >= size {
        CutIsWindow(rs[1..], s - size, e - size);
        WindowBehind(span, rest, s, e);
      } else if e < size {
        CutInside(rs[0], rs[1..], s, e);
        assert [rs[0]] + rs[1..] == rs;
      } else {
        var s' := if s >= 0 then s - size else s;
        CutIsWindow(rs[1..], s', e - size);
        CutHead(rs, s, e);
        WindowAcross(span, rest, s, s', e);
      }
    }
  }

  lemma CutInside(r: Range, rs: seq<Range>, s: int, e: int)
    requires r.lo <= r.hi && s <= e && 0 <= e < r.hi - r.lo + 1
    ensures Flat(Cut([r] + rs, s, e)) == Window(Flat([r] + rs), s, e)
  {
    var from := if s >= 0 then s else 0;
    var one := Range(r.lo + from, r.lo + e);
    assert Cut([r] + rs, s, e) == [one];
    FlatOne(one);
    assert ([r] + rs)[1..] == rs;
    WindowInside(Span(r.lo, r.hi), Flat(rs), s, e);
    assert Span(r.lo + from, r.lo + e) == Span(r.lo, r.hi)[from..e + 1];
  }

  lemma CutHead(rs: seq<Range>, s: int, e: int)
    requires Merged(rs) && rs != [] && s < rs[0].hi - rs[0].lo + 1 <= e
    ensures var size := rs[0].hi - rs[0].lo + 1;
            Flat(Cut(rs, s, e)) ==
            Span(rs[0].lo, rs[0].hi)[Clamp(s, size)..] + Flat(Cut(rs[1..], if s >= 0 then s - size else s, e - size))
  {
    var size := rs[0].hi - rs[0].lo + 1;
    var head := Range(rs[0].lo + Clamp(s, size), rs[0].hi);
    var t := Cut(rs[1..], if s >= 0 then s - size else s, e - size);
    assert Cut(rs, s, e) == [head] + t;
    assert ([head] + t)[1..] == t;
    assert Span(head.lo, head.hi) == Span(rs[0].lo, rs[0].hi)[Clamp(s, size)..];
  }

  lemma WindowBehind(a: seq<int>, b: seq<int>, s: int, e: int)
    requires |a| <= s <= e
    ensures Window(a + b, s, e) == Window(b, s - |a|, e - |a|)
  {}

  lemma WindowInside(a: seq<int>, b: seq<int>, s: int, e: int)
    requires s <= e < |a|
    ensures Window(a + b, s, e) == Window(a, s, e)
  {}

  lemma WindowAcross(a: seq<int>, b: seq<int>, s: int, s': int, e: int)
    requires s < |a| <= e && s' < 0
    ensures Window(a + b, s, e) == a[Clamp(s, |a|)..] + Window(b, s', e - |a|)
  {}

  lemma FlatOne(r: Range)
    requires r.lo <= r.hi
    ensures Merged([r]) && Flat([r]) == Span(r.lo, r.hi)
  {
    assert [r][1..] == [];
    assert Flat([r][1..]) == [];
  }

  lemma CutJoin(r: Range, t: seq<Range>)
    requires r.lo <= r.hi && Merged(t) && (t != [] ==> r.hi + 1 < t[0].lo)
    ensures Merged([r] + t) && Flat([r] + t) == Span(r.lo, r.hi) + Flat(t)
  {
    assert ([r] + t)[1..] == t;
  }

  /** A merged list of consecutive addresses is a single range. */
  lemma ConsecutiveIsOne(rs: seq<Range>)
    requires Merged(rs) && Flat(rs) != []
    requires forall i :: 0 <= i < |Flat(rs)| ==> Flat(rs)[i] == Flat(rs)[0] + i
    ensures rs == [Range(Flat(rs)[0], Flat(rs)[0] + |Flat(rs)| - 1)]
  {
    var span := Span(rs[0].lo, rs[0].hi);
    assert Flat(rs)[0] == span[0];
    if |rs| == 1 {
      assert rs[1..] == [];
    } else {
      TwoRangesGap(rs);
      assert false;
    }
  }

  lemma TwoRangesGap(rs: seq<Range>)
    requires Merged(rs) && |rs| > 1
    ensures exists i :: 0 <= i < |Flat(rs)| && Flat(rs)[i] != Flat(rs)[0] + i
  {
    var n := rs[0].hi - rs[0].lo + 1;
    assert Flat(rs[1..])[0] == Span(rs[1].lo, rs[1].hi)[0];
    assert Flat(rs)[n] == rs[1].lo;
  }
}
