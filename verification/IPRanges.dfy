/** The mutable range object and its iterators.

    The operations of `IPRanges` change their receiver and hand it back; only `DeepCopy`,
    `Slice` and the early exits of `Intersect` make a new object. */
module RangeObjects {
  import opened Wrappers
  import opened Ranges

  class IPRanges {
    var version: Family
    var ranges: seq<Range>

    constructor (version: Family, ranges: seq<Range>)
      ensures this.version == version && this.ranges == ranges
    {
      this.version := version;
      this.ranges := ranges;
    }

    /** Reading back a stored list: an empty one has lost its family. */
    constructor Parse(version: Family, ranges: seq<Range>)
      ensures this.ranges == ranges
      ensures this.version == if ranges == [] then Unknown else version
    {
      this.version := if ranges == [] then Unknown else version;
      this.ranges := ranges;
    }

    method DeepCopy() returns (r: IPRanges)
      ensures fresh(r) && r.version == version && r.ranges == ranges
    {
      r := new IPRanges(version, ranges);
    }

    method Count() returns (n: int)
      requires Proper(ranges)
      ensures n == |Flat(ranges)|
    {
      n := 0;
      for i := 0 to |ranges|
        invariant n + Size(ranges[i..]) == Size(ranges)
      {
        assert ranges[i..][0] == ranges[i] && ranges[i..][1..] == ranges[i + 1..];
        n := n + (ranges[i].hi - ranges[i].lo + 1);
      }
      SizeIsFlat(ranges);
    }

    /** Sorts by start and folds overlapping or adjacent ranges together. */
    method Merge()
      requires Proper(ranges)
      modifies this
      ensures version == old(version) && Merged(ranges) && (ranges == [] <==> old(ranges) == [])
      ensures forall x :: In(ranges, x) <==> old(In(ranges, x))
    {
      MergeMerges(ranges);
      MergedProper(Ranges.Merge(ranges));
      SameEmptiness(ranges, Ranges.Merge(ranges));
      if |ranges| <= 1 {
        return;
      }
      ranges := FoldSorted(SortByLo(ranges));
    }

    /** Adds the addresses of `rs`, unless the families differ. */
    method Union(rs: IPRanges) returns (r: IPRanges)
      requires Proper(ranges) && Proper(rs.ranges)
      modifies this
      ensures r == this && version == old(version) && Merged(ranges)
      ensures forall x :: In(ranges, x) <==>
                          old(In(ranges, x)) || (old(version == rs.version) && old(In(rs.ranges, x)))
    {
      if version == rs.version {
        ghost var a, b := ranges, rs.ranges;
        ProperConcat(a, b);
        ranges := ranges + rs.ranges;
        forall x ensures In(a + b, x) <==> In(a, x) || In(b, x) { InConcat(a, b, x); }
      }
      Merge();
      r := this;
    }

    /** Removes the addresses of `rs`, unless the families differ. */
    method Diff(rs: IPRanges) returns (r: IPRanges)
      requires Proper(ranges) && Proper(rs.ranges)
      modifies this
      ensures r == this && version == old(version) && Merged(ranges)
      ensures forall x :: In(ranges, x) <==>
                          old(In(ranges, x)) && !(old(version == rs.version) && old(In(rs.ranges, x)))
    {
      if version != rs.version || |ranges| == 0 || |rs.ranges| == 0 {
        Merge();
        return this;
      }
      var other := rs.DeepCopy();
      Merge();
      other.Merge();
      forall x ensures In(Ranges.Diff(ranges, other.ranges), x) <==> In(ranges, x) && !In(other.ranges, x) {
        DiffRemoves(ranges, other.ranges, x);
      }
      DiffRemoves(ranges, other.ranges, 0);
      ranges := DiffSorted(ranges, other.ranges);
      r := this;
    }

    /** Keeps the addresses also in `rs`. The early exits leave the receiver alone. */
    method Intersect(rs: IPRanges) returns (r: IPRanges)
      requires Proper(ranges) && Proper(rs.ranges)
      modifies this
      ensures (r == this || fresh(r)) && r.version == old(version) && Merged(r.ranges)
      ensures forall x :: In(r.ranges, x) <==>
                          old(In(ranges, x)) && old(version == rs.version) && old(In(rs.ranges, x))
    {
      if version != rs.version || |ranges| == 0 || |rs.ranges| == 0 {
        r := new IPRanges(version, []);
        return;
      }
      var other := rs.DeepCopy();
      Merge();
      other.Merge();
      forall x ensures In(Ranges.Intersect(ranges, other.ranges), x) <==> In(ranges, x) && In(other.ranges, x) {
        IntersectMeets(ranges, other.ranges, x);
      }
      IntersectMeets(ranges, other.ranges, 0);
      ranges := IntersectSorted(ranges, other.ranges);
      r := this;
    }

    /** The addresses at positions start .. end of the enumeration; negative bounds count
        from the back. */
    method Slice(start: int, end: int) returns (r: IPRanges)
      requires Merged(ranges)
      ensures fresh(r) && r.version == version && Merged(r.ranges)
      ensures var n := |Flat(ranges)|;
              var s := if start < 0 then Clamp(start + n, n) else start;
              var e := if end < 0 then end + n else end;
              Flat(r.ranges) == if e < 0 || s > e then [] else Flat(ranges)[Clamp(s, n)..Clamp(e + 1, n)]
    {
      MergedProper(ranges);
      var size := Count();
      r := new IPRanges(version, []);
      if size == 0 {
        return;
      }
      var s, e := start, end;
      if s < 0 {
        s := s + size;
        if s < 0 { s := 0; }
      }
      if e < 0 {
        e := e + size;
        if e < 0 { return; }
      }
      if s > e {
        return;
      }
      r.ranges := Positions(ranges, s, e);
    }
  }

  /** The folding loop of `Merge`. */
  method FoldSorted(sorted: seq<Range>) returns (merged: seq<Range>)
    ensures merged == if sorted == [] then [] else Fold(sorted[0], sorted[1..])
  {
    merged := [];
    for i := 0 to |sorted|
      invariant merged == [] <==> i == 0
      invariant i > 0 ==>
                  merged[..|merged| - 1] + Fold(merged[|merged| - 1], sorted[i..]) == Fold(sorted[0], sorted[1..])
    {
      var r := sorted[i];
      if merged == [] {
        merged := [r];
      } else {
        var cur := |merged| - 1;
        ghost var front := merged[..cur];
        assert sorted[i..][0] == r && sorted[i..][1..] == sorted[i + 1..];
        if merged[cur].hi + 1 == r.lo {
          merged := merged[cur := Range(merged[cur].lo, r.hi)];
        } else if merged[cur].hi < r.lo {
          FoldAppend(front, merged[cur], r, sorted[i + 1..]);
          merged := merged + [r];
        } else if merged[cur].hi < r.hi {
          merged := merged[cur := Range(merged[cur].lo, r.hi)];
        }
      }
    }
    if sorted != [] {
      assert merged[..|merged| - 1] + [merged[|merged| - 1]] == merged;
    }
  }

  /** The sweep of `Diff` over two merged lists. */
  method DiffSorted(a: seq<Range>, tmr: seq<Range>) returns (out: seq<Range>)
    requires Merged(a) && Merged(tmr) && a != [] && tmr != []
    ensures out == Ranges.Diff(a, tmr)
  {
    var omr := a;
    var n1, n2 := |omr|, |tmr|;
    ghost var d := Ranges.Diff(a, tmr);
    out := [];
    var i, j := 0, 0;
    while i < n1 && j < n2
      invariant |omr| == n1 && Sweep(out, omr, i, tmr, j, d)
      decreases n1 + n2 - i - j
    {
      out, omr, i, j := SweepOne(out, omr, i, tmr, j, d);
    }
    SweepEnd(out, omr, i, tmr, j, d);
    if j == n2 && tmr[j - 1].hi < omr[i].hi {
      out := out + [omr[i]];
    }
    if i + 1 < n1 {
      out := out + omr[i + 1..];
    }
  }

  /** One comparison: emits what is settled and moves on in the list whose range ends first. */
  method SweepOne(was: seq<Range>, ranges: seq<Range>, at: int, tmr: seq<Range>, other: int, ghost d: seq<Range>)
    returns (out: seq<Range>, omr: seq<Range>, i: int, j: int)
    requires Sweep(was, ranges, at, tmr, other, d) && at < |ranges| && other < |tmr|
    ensures |omr| == |ranges| && Sweep(out, omr, i, tmr, j, d) && i + j == at + other + 1
  {
    omr, i, j := ranges, at, other;
    Drop1(omr, i);
    Drop1(tmr, j);
    var o, t := omr[i], tmr[j];
    var piece := CompareRanges(was, d, o, omr[i + 1..], t, tmr[j + 1..]);
    out := was + piece;
    if o.hi < t.lo {
      SweepRange(was, omr, i, tmr, j, d, out);
      i := i + 1;
    } else if o.lo > t.hi {
      SweepOther(was, omr, i, tmr, j, d, out, o);
      j := j + 1;
    } else if o.hi <= t.hi {
      SweepRange(was, omr, i, tmr, j, d, out);
      i := i + 1;
    } else {
      SweepOther(was, omr, i, tmr, j, d, out, Range(t.hi + 1, o.hi));
      omr := omr[i := Range(t.hi + 1, o.hi)];
      j := j + 1;
    }
  }

  /** Where the sweep stands: what is out and what is left make up the difference. */
  ghost predicate Sweep(out: seq<Range>, omr: seq<Range>, i: int, tmr: seq<Range>, j: int, d: seq<Range>) {
    && 0 <= i <= |omr| && 0 <= j <= |tmr| && (i < |omr| || j < |tmr|)
    && Merged(omr[i..]) && (i < |omr| && j > 0 ==> tmr[j - 1].hi < omr[i].hi)
    && out + Ranges.Diff(omr[i..], tmr[j..]) == d
  }

  lemma SweepRange(out: seq<Range>, omr: seq<Range>, i: int, tmr: seq<Range>, j: int, d: seq<Range>, out': seq<Range>)
    requires Sweep(out, omr, i, tmr, j, d) && i < |omr| && j < |tmr|
    requires out' + Ranges.Diff(omr[i + 1..], tmr[j..]) == d
    ensures Sweep(out', omr, i + 1, tmr, j, d)
  {
    Drop1(omr, i);
    if i + 1 < |omr| { Drop1(omr, i + 1); }
  }

  lemma SweepOther(out: seq<Range>, omr: seq<Range>, i: int, tmr: seq<Range>, j: int, d: seq<Range>, out': seq<Range>,
                   o: Range)
    requires Sweep(out, omr, i, tmr, j, d) && i < |omr| && j < |tmr|
    requires tmr[j].hi < o.hi == omr[i].hi && o.lo <= o.hi
    requires out' + Ranges.Diff([o] + omr[i + 1..], tmr[j + 1..]) == d
    ensures Sweep(out', omr[i := o], i, tmr, j + 1, d)
    ensures o == omr[i] ==> omr[i := o] == omr
  {
    Drop1(omr, i);
    Drop1(omr[i := o], i);
    assert omr[i := o][i + 1..] == omr[i + 1..];
    assert ([o] + omr[i + 1..])[1..] == omr[i + 1..];
    if i + 1 < |omr| { Drop1(omr, i + 1); }
  }

  lemma SweepEnd(out: seq<Range>, omr: seq<Range>, i: int, tmr: seq<Range>, j: int, d: seq<Range>)
    requires Sweep(out, omr, i, tmr, j, d) && (i == |omr| || j == |tmr|) && tmr != []
    ensures i == |omr| ==> out == d
    ensures i < |omr| ==> j == |tmr| && tmr[j - 1].hi < omr[i].hi && (out + [omr[i]]) + omr[i + 1..] == d
  {
    if i < |omr| { Drop1(omr, i); }
  }

  /** What one comparison of the sweep emits: the part of `o` in front of `t`. */
  method CompareRanges(ghost out: seq<Range>, ghost d: seq<Range>, o: Range, ghost os: seq<Range>,
                       t: Range, ghost ts: seq<Range>)
    returns (piece: seq<Range>)
    requires Merged([o] + os)
    requires out + Ranges.Diff([o] + os, [t] + ts) == d
    ensures piece == if o.hi < t.lo then [o] else if o.lo > t.hi then [] else Before(o, t)
    ensures Merged(os) && o.lo <= o.hi && (os != [] ==> o.hi < os[0].lo <= os[0].hi)
    ensures t.hi < o.hi ==> Merged([Range(t.hi + 1, o.hi)] + os)
    ensures (out + piece) +
            (if o.hi < t.lo || (o.lo <= t.hi && o.hi <= t.hi) then Ranges.Diff(os, [t] + ts)
             else if o.lo > t.hi then Ranges.Diff([o] + os, ts)
             else Ranges.Diff([Range(t.hi + 1, o.hi)] + os, ts)) == d
  {
    assert ([o] + os)[1..] == os && ([Range(t.hi + 1, o.hi)] + os)[1..] == os;
    piece := [];
    if o.hi < t.lo {
      DiffApart(out, d, o, os, t, ts);
      piece := [o];
    } else if o.lo > t.hi {
      DiffApart(out, d, o, os, t, ts);
    } else {
      if o.hi <= t.hi { DiffEnd(out, d, o, os, t, ts); } else { DiffSplit(out, d, o, os, t, ts); }
      if o.lo < t.lo {
        piece := [Range(o.lo, t.lo - 1)];
      }
    }
  }

  lemma DiffApart(out: seq<Range>, d: seq<Range>, o: Range, os: seq<Range>, t: Range, ts: seq<Range>)
    requires o.hi < t.lo || o.lo > t.hi
    requires out + Ranges.Diff([o] + os, [t] + ts) == d
    ensures if o.hi < t.lo then (out + [o]) + Ranges.Diff(os, [t] + ts) == d
            else out + Ranges.Diff([o] + os, ts) == d
  {
    assert ([o] + os)[1..] == os && ([t] + ts)[1..] == ts;
    if o.hi < t.lo { Assoc(out, [o], Ranges.Diff(os, [t] + ts)); }
  }

  lemma DiffEnd(out: seq<Range>, d: seq<Range>, o: Range, os: seq<Range>, t: Range, ts: seq<Range>)
    requires t.lo <= o.hi <= t.hi && o.lo <= t.hi
    requires out + Ranges.Diff([o] + os, [t] + ts) == d
    ensures (out + Before(o, t)) + Ranges.Diff(os, [t] + ts) == d
  {
    assert ([o] + os)[1..] == os;
    assert Ranges.Diff([o] + os, [t] + ts) == Before(o, t) + Ranges.Diff(os, [t] + ts);
    Assoc(out, Before(o, t), Ranges.Diff(os, [t] + ts));
  }

  lemma DiffSplit(out: seq<Range>, d: seq<Range>, o: Range, os: seq<Range>, t: Range, ts: seq<Range>)
    requires t.hi < o.hi && o.lo <= t.hi && t.lo <= o.hi
    requires out + Ranges.Diff([o] + os, [t] + ts) == d
    ensures (out + Before(o, t)) + Ranges.Diff([Range(t.hi + 1, o.hi)] + os, ts) == d
  {
    assert ([o] + os)[1..] == os && ([t] + ts)[1..] == ts;
    var rest := Ranges.Diff([Range(t.hi + 1, o.hi)] + os, ts);
    assert Ranges.Diff([o] + os, [t] + ts) == Before(o, t) + rest;
    Assoc(out, Before(o, t), rest);
  }

  /** The sweep of `Intersect` over two merged lists. */
  method IntersectSorted(omr: seq<Range>, tmr: seq<Range>) returns (out: seq<Range>)
    ensures out == Ranges.Intersect(omr, tmr)
  {
    out := [];
    var i, j := 0, 0;
    while i < |omr| && j < |tmr|
      invariant 0 <= i <= |omr| && 0 <= j <= |tmr|
      invariant out + Ranges.Intersect(omr[i..], tmr[j..]) == Ranges.Intersect(omr, tmr)
      decreases |omr| + |tmr| - i - j
    {
      Drop1(omr, i);
      Drop1(tmr, j);
      Assoc(out, Meet(omr[i], tmr[j]),
            if omr[i].hi < tmr[j].hi then Ranges.Intersect(omr[i + 1..], tmr[j..])
            else Ranges.Intersect(omr[i..], tmr[j + 1..]));
      var lo := if omr[i].lo > tmr[j].lo then omr[i].lo else tmr[j].lo;
      var hi := if omr[i].hi < tmr[j].hi then omr[i].hi else tmr[j].hi;
      if lo <= hi {
        out := out + [Range(lo, hi)];
      }
      if omr[i].hi < tmr[j].hi {
        i := i + 1;
      } else {
        j := j + 1;
      }
    }
  }

  /** The addresses at positions s .. e, as far as there are any. */
  method Positions(rs: seq<Range>, s: int, e: int) returns (out: seq<Range>)
    requires Merged(rs) && s <= e && 0 <= e
    ensures Merged(out) && Flat(out) == Window(Flat(rs), s, e)
  {
    CutMerged(rs, s, e);
    CutIsWindow(rs, s, e);
    out := CutSorted(rs, s, e);
  }

  /** The loop of `Slice`. */
  method CutSorted(rs: seq<Range>, start: int, end: int) returns (out: seq<Range>)
    ensures out == Cut(rs, start, end)
  {
    out := [];
    var s, e := start, end;
    for i := 0 to |rs|
      invariant out + Cut(rs[i..], s, e) == Cut(rs, start, end)
    {
      Drop1(rs, i);
      var piece, more;
      piece, more, s, e := CutOne(out, Cut(rs, start, end), rs[i], rs[i + 1..], s, e);
      out := out + piece;
      if !more {
        return;
      }
    }
    assert rs[|rs|..] == [];
  }

  /** What one range contributes, whether later ones may, and the positions among those. */
  method CutOne(ghost out: seq<Range>, ghost d: seq<Range>, one: Range, ghost rest: seq<Range>, start: int, end: int)
    returns (piece: seq<Range>, more: bool, s: int, e: int)
    requires out + Cut([one] + rest, start, end) == d
    ensures if more then (out + piece) + Cut(rest, s, e) == d else out + piece == d
  {
    assert ([one] + rest)[1..] == rest;
    var len := one.hi - one.lo + 1;
    more := true;
    s, e := start, end;
    if s >= len {
      s, e := s - len, e - len;
      piece := [];
    } else if s >= 0 {
      if e < len {
        return [Range(one.lo + s, one.lo + e)], false, s, e;
      }
      piece := [Range(one.lo + s, one.hi)];
      s, e := s - len, e - len;
    } else if e >= len {
      piece := [one];
      e := e - len;
    } else {
      return [Range(one.lo, one.lo + e)], false, s, e;
    }
    Assoc(out, piece, Cut(rest, s, e));
  }

  lemma Drop1(s: seq<Range>, i: int)
    requires 0 <= i < |s|
    ensures s[i..] == [s[i]] + s[i + 1..] && s[i..][0] == s[i] && s[i..][1..] == s[i + 1..]
  {}

  lemma Assoc(a: seq<Range>, b: seq<Range>, c: seq<Range>)
    ensures (a + b) + c == a + (b + c)
    ensures b == [] ==> a + c == a + (b + c)
  {}

  lemma FoldAppend(front: seq<Range>, cur: Range, r: Range, rest: seq<Range>)
    requires cur.hi + 1 < r.lo
    ensures front + Fold(cur, [r] + rest) == (front + [cur]) + Fold(r, rest)
  {
    assert ([r] + rest)[1..] == rest;
  }

  lemma SameEmptiness(a: seq<Range>, b: seq<Range>)
    requires Proper(a) && Proper(b)
    requires forall x :: In(a, x) <==> In(b, x)
    ensures a == [] <==> b == []
  {
    if a != [] { assert In(a, a[0].lo); }
    if b != [] { assert In(b, b[0].lo); }
  }
}
