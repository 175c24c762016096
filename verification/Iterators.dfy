/** The iterators of the range library: over single addresses, over blocks of consecutive
    positions and over CIDRs. */
module Iterators {
  import opened Wrappers
  import opened Ranges
  import opened RangeObjects
  import opened Pow2

  /** The position after k in a list of n, cyclically. */
  function Following(k: nat, n: nat): nat {
    if k + 1 < n then k + 1 else 0
  }

  // ---------------------------------------------------------------- addresses

  /** How many addresses lie in front of range k. */
  function Offset(rs: seq<Range>, k: nat): int
    requires k <= |rs|
  {
    if k == 0 then 0 else rs[0].hi - rs[0].lo + 1 + Offset(rs[1..], k - 1)
  }

  lemma {:induction false} OffsetAt(rs: seq<Range>, k: nat)
    requires Proper(rs) && k < |rs|
    ensures rs[k].lo <= rs[k].hi && 0 <= Offset(rs, k)
    ensures Offset(rs, k + 1) == Offset(rs, k) + (rs[k].hi - rs[k].lo + 1) <= |Flat(rs)|
    ensures forall j :: Offset(rs, k) <= j < Offset(rs, k + 1) ==> Flat(rs)[j] == rs[k].lo + (j - Offset(rs, k))
  {
    if k > 0 {
      OffsetAt(rs[1..], k - 1);
      var n := rs[0].hi - rs[0].lo + 1;
      forall j | Offset(rs, k) <= j < Offset(rs, k + 1) ensures Flat(rs)[j] == rs[k].lo + (j - Offset(rs, k)) {
        assert Flat(rs)[j] == Flat(rs[1..])[j - n];
      }
    } else {
      assert Offset(rs[1..], 0) == 0;
    }
  }

  lemma {:induction false} OffsetEnd(rs: seq<Range>)
    requires Proper(rs)
    ensures Offset(rs, |rs|) == |Flat(rs)|
  {
    if rs != [] { OffsetEnd(rs[1..]); }
  }

  function AtLeastOne(n: int): int {
    if n <= 0 then 1 else n
  }

  lemma {:induction false} GapAt(rs: seq<Range>, k: nat)
    requires Merged(rs) && k + 1 < |rs|
    ensures rs[k].hi + 1 < rs[k + 1].lo
  {
    if k > 0 { GapAt(rs[1..], k - 1); }
  }

  /** Counting on behind the end of a range of a merged list gives too low an address, and one
      at all where the list has ended. */
  lemma PastRange(rs: seq<Range>, k: nat, n: int)
    requires Merged(rs) && k < |rs| && n > rs[k].hi - rs[k].lo + 1
    ensures 0 <= Offset(rs, k) && rs[k].lo <= rs[k].hi
    ensures Offset(rs, k) + n <= |Flat(rs)| ==> Flat(rs)[Offset(rs, k) + n - 1] > rs[k].lo + n - 1
  {
    MergedProper(rs);
    MergedIncreasing(rs);
    OffsetAt(rs, k);
    if Offset(rs, k) + n <= |Flat(rs)| {
      if k + 1 == |rs| { OffsetEnd(rs); }
      OffsetAt(rs, k + 1);
      GapAt(rs, k);
      SpreadOut(Flat(rs), Offset(rs, k + 1), Offset(rs, k) + n - 1);
      assert Flat(rs)[Offset(rs, k + 1)] == rs[k + 1].lo;
    }
  }

  class IPIterator {
    const ranges: seq<Range>
    var rangeIndex: nat
    var current: Option<int>
    var freeSize: int

    constructor (ranges: seq<Range>)
      requires Proper(ranges)
      ensures this.ranges == ranges && Valid() && Fresh()
    {
      this.ranges := ranges;
      rangeIndex := 0;
      current := None;
      freeSize := 0;
    }

    /** Nothing delivered yet. */
    ghost predicate Fresh()
      reads this
    {
      rangeIndex == 0 && current == None
    }

    /** Ran over the last range. */
    ghost predicate Spent()
      reads this
    {
      rangeIndex == |ranges| && ranges != []
    }

    ghost predicate Valid()
      reads this
    {
      && Proper(ranges)
      && (!Fresh() && !Spent() ==>
            && rangeIndex < |ranges| && current.Some?
            && ranges[rangeIndex].lo <= current.value <= ranges[rangeIndex].hi
            && freeSize == ranges[rangeIndex].hi - current.value)
    }

    /** The number of addresses delivered so far. */
    ghost function Position(): int
      requires Valid() && !Spent()
      reads this
    {
      if Fresh() then 0 else Offset(ranges, rangeIndex) + (current.value - ranges[rangeIndex].lo) + 1
    }

    /** Delivers the next address of the enumeration, or nil at its end. */
    method Next() returns (ip: Option<int>)
      requires Valid() && !Spent()
      modifies this
      ensures Valid()
      ensures var f, p := Flat(ranges), old(Position());
              if p < |f| then 0 <= p && ip == Some(f[p]) && !Spent() && Position() == p + 1
              else ip == None && (Spent() || ranges == [])
    {
      if ranges == [] {
        return None;
      }
      OffsetAt(ranges, rangeIndex);
      if current == None {
        freeSize := ranges[0].hi - ranges[0].lo;
        current := Some(ranges[0].lo);
        return current;
      }
      if current.value != ranges[rangeIndex].hi {
        freeSize := freeSize - 1;
        current := Some(current.value + 1);
        return current;
      }
      rangeIndex := rangeIndex + 1;
      if rangeIndex == |ranges| {
        OffsetEnd(ranges);
        return None;
      }
      OffsetAt(ranges, rangeIndex);
      freeSize := ranges[rangeIndex].hi - ranges[rangeIndex].lo;
      current := Some(ranges[rangeIndex].lo);
      ip := current;
    }

    /** The n-th address from here lies in the range under way or the one behind it. */
    ghost predicate Reaches(n: int)
      requires Valid() && !Spent()
      reads this
    {
      || Fresh() || n <= freeSize || rangeIndex + 1 == |ranges|
      || n - freeSize <= ranges[rangeIndex + 1].hi - ranges[rangeIndex + 1].lo + 1
    }

    /** Delivers the n-th next address. Once under way it steps over the end of one range only:
        from a merged list it delivers the right address, or nil at the end, exactly if that
        is enough. */
    method NextN(n: int) returns (ip: Option<int>)
      requires Valid() && !Spent()
      modifies this
      ensures var f, m := Flat(ranges), AtLeastOne(n); var p := old(Position()) + m;
              if old(Reaches(m)) then
                && Valid()
                && (if p <= |f| then 0 < p && ip == Some(f[p - 1]) && !Spent() && Position() == p else ip == None)
              else Merged(ranges) ==> ip != if p <= |f| then if 0 < p then Some(f[p - 1]) else None else None
    {
      if ranges == [] {
        return None;
      }
      var left := AtLeastOne(n);
      if current == None {
        ip := FirstN(left);
        return;
      }
      OffsetAt(ranges, rangeIndex);
      if left <= freeSize {
        freeSize := freeSize - left;
        current := Some(current.value + left);
        return current;
      }
      rangeIndex := rangeIndex + 1;
      if rangeIndex == |ranges| {
        OffsetEnd(ranges);
        return None;
      }
      OffsetAt(ranges, rangeIndex);
      left := left - freeSize;
      freeSize := ranges[rangeIndex].hi - ranges[rangeIndex].lo + 1 - left;
      current := Some(ranges[rangeIndex].lo + left - 1);
      ip := current;
      if Merged(ranges) && freeSize < 0 { PastRange(ranges, rangeIndex, left); }
    }

    /** Delivers address number `n` from a fresh iterator. */
    method FirstN(n: int) returns (ip: Option<int>)
      requires Valid() && Fresh() && ranges != [] && n > 0
      modifies this
      ensures Valid()
      ensures var f := Flat(ranges);
              if n <= |f| then ip == Some(f[n - 1]) && !Spent() && Position() == n
              else ip == None
    {
      var left := n;
      while true
        invariant 0 <= rangeIndex < |ranges| && current == None
        invariant 0 < left && left + Offset(ranges, rangeIndex) == n
        decreases |ranges| - rangeIndex
      {
        OffsetAt(ranges, rangeIndex);
        var size := ranges[rangeIndex].hi - ranges[rangeIndex].lo + 1;
        if left <= size {
          freeSize := size - left;
          left := left - 1;
          current := Some(ranges[rangeIndex].lo + left);
          return current;
        }
        left := left - size;
        rangeIndex := rangeIndex + 1;
        if rangeIndex == |ranges| {
          OffsetEnd(ranges);
          return None;
        }
      }
    }

    method Reset()
      requires Valid()
      modifies this
      ensures Valid() && Fresh()
    {
      rangeIndex := 0;
      current := None;
    }
  }

  // ---------------------------------------------------------------- blocks

  class BlockIterator {
    const ranges: IPRanges
    const size: int
    const blockSize: int
    var start: Option<int>
    var end: int

    constructor (ranges: IPRanges, blockSize: int)
      requires Merged(ranges.ranges)
      ensures fresh(this) && this.ranges == ranges && this.blockSize == (if blockSize <= 0 then 1 else blockSize)
      ensures Valid() && start == None
    {
      this.ranges := ranges;
      this.size := |Flat(ranges.ranges)|;
      this.blockSize := if blockSize <= 0 then 1 else blockSize;
      this.start := None;
      this.end := 0;
    }

    ghost predicate Valid()
      reads this, ranges
    {
      && Merged(ranges.ranges) && size == |Flat(ranges.ranges)| && blockSize > 0
      && (start.Some? ==> start.value >= 0 && (start.value < size ==> end == start.value + blockSize - 1))
    }

    /** The positions of a block, cut off where the enumeration ends. */
    ghost function BlockFlat(from: int): seq<int>
      requires Valid() && from >= 0
      reads this, ranges
    {
      Flat(ranges.ranges)[Clamp(from, size)..Clamp(from + blockSize, size)]
    }

    method Next() returns (block: IPRanges?)
      requires Valid()
      modifies this
      ensures Valid() && (block != null ==> fresh(block))
      ensures var from := if old(start) == None then 0 else old(start).value + blockSize;
              if size > 0 && from < size then
                start == Some(from) && block != null && block.version == ranges.version &&
                Merged(block.ranges) && Flat(block.ranges) == BlockFlat(from)
              else block == null
    {
      if size == 0 {
        return null;
      }
      if start == None {
        start := Some(0);
        end := blockSize - 1;
      } else {
        start := Some(start.value + blockSize);
        if start.value >= size {
          return null;
        }
        end := end + blockSize;
      }
      block := Block();
    }

    /** The block under way. */
    method Block() returns (block: IPRanges)
      requires Valid() && start.Some? && end == start.value + blockSize - 1
      ensures fresh(block) && block.version == ranges.version
      ensures Merged(block.ranges) && Flat(block.ranges) == BlockFlat(start.value)
    {
      block := ranges.Slice(start.value, end);
    }

    /** Delivers the n-th next block: the first time one of no addresses behind the end, later
        nil. */
    method NextN(n: int) returns (block: IPRanges?)
      requires Valid()
      modifies this
      ensures Valid() && (block != null ==> fresh(block))
      ensures var m := AtLeastOne(n);
              var from := if old(start) == None then (m - 1) * blockSize else old(start).value + m * blockSize;
              if size > 0 && (old(start) == None || from < size) then
                from >= 0 && start == Some(from) && block != null && block.version == ranges.version &&
                Merged(block.ranges) && Flat(block.ranges) == BlockFlat(from)
              else block == null
    {
      if size == 0 {
        return null;
      }
      var m := AtLeastOne(n);
      Pow2.MulMono(0, m - 1, blockSize);
      Pow2.MulMono(0, m, blockSize);
      if start == None {
        start := Some((m - 1) * blockSize);
        end := start.value + blockSize - 1;
        block := Block();
        return;
      }
      start := Some(start.value + m * blockSize);
      if start.value >= size {
        return null;
      }
      end := end + m * blockSize;
      block := Block();
    }

    method Reset()
      requires Valid()
      modifies this
      ensures Valid() && start == None
    {
      start := None;
      end := 0;
    }
  }

  // ---------------------------------------------------------------- CIDRs

  /** A prefix: `ones` leading bits of `base` are fixed. */
  datatype Cidr = Cidr(base: int, ones: int)

  function CidrSize(bits: nat, c: Cidr): int
    requires 0 <= c.ones <= bits
  {
    Pow(bits - c.ones)
  }

  ghost predicate Aligned(bits: nat, c: Cidr) {
    0 <= c.ones <= bits && 0 <= c.base && c.base % Pow(bits - c.ones) == 0
  }

  predicate InCidr(bits: nat, c: Cidr, a: int)
    requires 0 <= c.ones <= bits
  {
    c.base <= a < c.base + CidrSize(bits, c)
  }

  /** No larger aligned prefix at its base stays within `last`; at address 0 there is one address. */
  ghost predicate Largest(bits: nat, c: Cidr, last: int) {
    if c.base == 0 then c.ones == bits
    else forall w: nat :: w > bits - c.ones && c.base % Pow(w) == 0 ==> c.base + Pow(w) > last + 1
  }

  /** Walks ranges as CIDRs, each as large as alignment and the range's end allow. */
  class CIDRIterator {
    const bits: nat
    const ranges: seq<Range>
    var rangeIndex: nat
    var lastInt: int
    var current: int

    constructor (bits: nat, ranges: seq<Range>)
      requires Bounded(bits, ranges)
      ensures this.ranges == ranges && this.bits == bits && Valid() && rangeIndex == 0
      ensures forall a :: Pending(a) <==> In(ranges, a)
    {
      this.bits := bits;
      this.ranges := ranges;
      rangeIndex := 0;
      lastInt := if ranges != [] then ranges[0].hi else 0;
      current := if ranges != [] then ranges[0].lo else 0;
    }

    ghost predicate Valid()
      reads this
    {
      && Bounded(bits, ranges)
      && rangeIndex <= |ranges|
      && (rangeIndex < |ranges| ==>
            lastInt == ranges[rangeIndex].hi && ranges[rangeIndex].lo <= current <= lastInt + 1)
    }

    /** Addresses not walked yet. */
    ghost predicate Pending(a: int)
      requires Valid()
      reads this
    {
      rangeIndex < |ranges| && (current <= a <= lastInt || In(ranges[rangeIndex + 1..], a))
    }

    /** Ranges still to open, then addresses left in the open one. */
    ghost function Left(): (int, int)
      reads this
    {
      (|ranges| - rangeIndex, lastInt - current)
    }

    /** Splits one aligned CIDR off what is pending. */
    method Next() returns (c: Option<Cidr>)
      requires Valid() && (ranges == [] || rangeIndex < |ranges|)
      modifies this
      ensures Valid()
      ensures c == None ==> forall a :: !old(Pending(a))
      ensures c.Some? ==> rangeIndex < |ranges|
      ensures c.Some? ==> Aligned(bits, c.value) && Largest(bits, c.value, lastInt)
      ensures c.Some? ==> forall a :: old(Pending(a)) <==> InCidr(bits, c.value, a) || Pending(a)
      ensures c.Some? ==> Left().0 < old(Left().0) || (Left().0 == old(Left().0) && Left().1 < old(Left().1))
      ensures Left().1 >= -1 || rangeIndex == |ranges|
    {
      if |ranges| == 0 {
        return None;
      }
      BoundedTail(bits, ranges, rangeIndex);
      if current <= lastInt {
        var d := Carve();
        return Some(d);
      }
      rangeIndex := rangeIndex + 1;
      if rangeIndex == |ranges| {
        return None;
      }
      BoundedTail(bits, ranges, rangeIndex);
      assert ranges[rangeIndex..] == [ranges[rangeIndex]] + ranges[rangeIndex + 1..];
      lastInt := ranges[rangeIndex].hi;
      current := ranges[rangeIndex].lo;
      var d := Carve();
      c := Some(d);
    }

    /** The largest aligned CIDR at `current` that stays within `lastInt`. */
    method Carve() returns (c: Cidr)
      requires Valid() && rangeIndex < |ranges| && 0 <= current <= lastInt < Pow(bits)
      modifies this`current
      ensures Valid()
      ensures Aligned(bits, c) && c.base == old(current) && current == old(current) + CidrSize(bits, c)
      ensures old(current) < current <= lastInt + 1 && Largest(bits, c, lastInt)
    {
      var delta := lastInt - current + 1;
      var zeros := TrailingZeros(current);
      var width := Log2(delta);
      var nbits := if zeros < width then zeros else width;
      PowMono(nbits, width);
      LogBound(delta, bits);
      if current > 0 { TrailingDivides(current, nbits); }
      forall w: nat | w > nbits && current > 0 && current % Pow(w) == 0 ensures current + Pow(w) > lastInt + 1 {
        TrailingMost(current, w);
        PowMono(width + 1, w);
      }
      c := Cidr(current, bits - nbits);
      current := current + Pow(nbits);
    }
  }

  /** Proper ranges of addresses of the family. */
  predicate Bounded(bits: nat, rs: seq<Range>) {
    forall i :: 0 <= i < |rs| ==> 0 <= rs[i].lo <= rs[i].hi < Pow(bits)
  }

  lemma BoundedTail(bits: nat, rs: seq<Range>, i: int)
    requires Bounded(bits, rs) && 0 <= i < |rs|
    ensures 0 <= rs[i].lo <= rs[i].hi < Pow(bits)
  {}
}
