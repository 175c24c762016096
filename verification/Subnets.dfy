/** Subnets: the admitted spec, the block grid it induces and the naming of blocks. */
module Subnets {
  import opened Wrappers
  import opened Pow2
  import opened Ranges
  import opened RangeObjects
  import opened Iterators
  import opened Grid

  function Bits(version: Family): nat {
    if version == IPv4 then 32 else 128
  }

  datatype SubnetSpec = SubnetSpec(version: Family, cidr: Cidr, excluded: seq<Range>, blockSize: int)

  predicate BlockSizeFits(version: Family, blockSize: int) {
    if version == IPv4 then 26 <= blockSize <= 31 else 122 <= blockSize <= 127
  }

  /** What the webhook lets through. */
  ghost predicate Admitted(s: SubnetSpec) {
    && s.version != Unknown
    && Aligned(Bits(s.version), s.cidr) && s.cidr.base + CidrSize(Bits(s.version), s.cidr) <= Pow(Bits(s.version))
    && s.cidr.ones <= s.blockSize && BlockSizeFits(s.version, s.blockSize)
    && Bounded(Bits(s.version), s.excluded)
  }

  function Step(s: SubnetSpec): int
    requires s.blockSize <= Bits(s.version)
  {
    Pow(Bits(s.version) - s.blockSize)
  }

  /** A subnet as its blocks see it: blocks lo .. hi - 1 of `step` addresses each, the name a
      range list gets as an object and the range a name stands for, and the same for single
      addresses. */
  datatype Subnet = Subnet(version: Family, lo: int, hi: int, step: int,
                           nameOf: seq<Range> -> string, parse: string -> Option<Range>,
                           ipName: int -> string, ipParse: string -> Option<int>)

  predicate InGrid(sub: Subnet, q: int) {
    sub.lo <= q < sub.hi
  }

  function BlockRange(sub: Subnet, q: int): Range {
    Range(q * sub.step, q * sub.step + sub.step - 1)
  }

  function Name(sub: Subnet, q: int): string {
    sub.nameOf([BlockRange(sub, q)])
  }

  /** Block names are invertible, and whatever parses is a proper range. */
  ghost predicate Named(sub: Subnet) {
    && sub.step > 0 && sub.version != Unknown
    && (forall n :: sub.parse(n).Some? ==> sub.parse(n).value.lo <= sub.parse(n).value.hi)
    && (forall q :: InGrid(sub, q) ==> sub.parse(Name(sub, q)) == Some(BlockRange(sub, q)))
    && (forall a :: InGrid(sub, a / sub.step) ==> sub.ipParse(sub.ipName(a)) == Some(a))
  }

  /** The subnet an admitted spec describes, up to the naming. */
  ghost predicate Describes(sub: Subnet, s: SubnetSpec)
    requires Admitted(s)
  {
    && sub.version == s.version && sub.step == Step(s)
    && sub.lo == s.cidr.base / sub.step
    && sub.hi == sub.lo + CidrSize(Bits(s.version), s.cidr) / sub.step
  }

  predicate IsBlock(sub: Subnet, name: string) {
    exists q | sub.lo <= q < sub.hi :: name == Name(sub, q)
  }

  /** The block a name stands for. */
  function NumberOf(sub: Subnet, name: string): int
    requires sub.step > 0
  {
    match sub.parse(name)
    case Some(r) => r.lo / sub.step
    case None => 0
  }

  lemma NumberName(sub: Subnet, name: string)
    requires Named(sub) && IsBlock(sub, name)
    ensures var q := NumberOf(sub, name);
            InGrid(sub, q) && Name(sub, q) == name && sub.parse(name) == Some(BlockRange(sub, q))
  {
    var q :| sub.lo <= q < sub.hi && name == Name(sub, q);
    assert InGrid(sub, q);
    DivOffset(q, 0, sub.step);
  }

  lemma NameNumber(sub: Subnet, q: int)
    requires Named(sub) && InGrid(sub, q)
    ensures IsBlock(sub, Name(sub, q)) && NumberOf(sub, Name(sub, q)) == q
  {
    DivOffset(q, 0, sub.step);
  }

  /** The address a lies in block a / step of the grid exactly when it lies in the CIDR. */
  lemma GridIsCidr(sub: Subnet, s: SubnetSpec, a: int)
    requires Admitted(s) && Describes(sub, s)
    ensures InCidr(Bits(s.version), s.cidr, a) <==> InGrid(sub, a / sub.step)
  {
    CidrInSteps(Bits(s.version), s.cidr, s.blockSize);
    var k := CidrSize(Bits(s.version), s.cidr) / sub.step;
    assert s.cidr.base == sub.lo * sub.step;
    assert s.cidr.base + CidrSize(Bits(s.version), s.cidr) == (sub.lo + k) * sub.step;
    InterleaveDiv(a, sub.lo, sub.hi, sub.step);
  }

  lemma InterleaveDiv(a: int, lo: int, hi: int, step: int)
    requires step > 0
    ensures lo * step <= a < hi * step <==> lo <= a / step < hi
  {
    var q := a / step;
    DivBlock(a, q, step);
    if lo <= q { MulMono(lo, q, step); } else { MulMono(q + 1, lo, step); }
    if q < hi { MulMono(q + 1, hi, step); } else { MulMono(hi, q, step); }
  }

  /** A prefix no longer than the block prefix is made of whole steps. */
  lemma CidrInSteps(bits: nat, c: Cidr, blockSize: int)
    requires Aligned(bits, c) && c.ones <= blockSize <= bits
    ensures var step := Pow(bits - blockSize);
            c.base == c.base / step * step && CidrSize(bits, c) == CidrSize(bits, c) / step * step
  {
    var step := Pow(bits - blockSize);
    PowDivides(c.base, bits - blockSize, bits - c.ones);
    SizeInSteps(bits, c.ones, blockSize);
    ModMultiple(Pow(blockSize - c.ones), step);
  }

  lemma SizeInSteps(bits: nat, ones: int, blockSize: int)
    requires 0 <= ones <= blockSize <= bits
    ensures Pow(bits - ones) == Pow(blockSize - ones) * Pow(bits - blockSize)
  {
    PowSplit(blockSize - ones, bits - blockSize);
    assert (blockSize - ones) + (bits - blockSize) == bits - ones;
  }

  // ---------------------------------------------------------------- parsed block lists

  function BlockRanges(sub: Subnet, qs: seq<int>): seq<Range> {
    if qs == [] then [] else [BlockRange(sub, qs[0])] + BlockRanges(sub, qs[1..])
  }

  function Numbers(sub: Subnet, names: seq<string>): (qs: seq<int>)
    requires sub.step > 0
    ensures |qs| == |names|
    ensures forall i :: 0 <= i < |qs| ==> qs[i] == NumberOf(sub, names[i])
  {
    seq(|names|, i requires 0 <= i < |names| => NumberOf(sub, names[i]))
  }

  /** The blocks a list of names stands for. */
  function Taken(sub: Subnet, names: seq<string>): set<int>
    requires sub.step > 0
  {
    set q | q in Numbers(sub, names)
  }

  lemma {:induction false} BlockRangesIn(sub: Subnet, qs: seq<int>, a: int)
    requires sub.step > 0
    ensures Proper(BlockRanges(sub, qs))
    ensures In(BlockRanges(sub, qs), a) <==> a / sub.step in qs
    ensures Size(BlockRanges(sub, qs)) == |qs| * sub.step
  {
    if qs != [] {
      BlockRangesIn(sub, qs[1..], a);
      DivBlock(a, qs[0], sub.step);
      assert |qs| * sub.step == |qs[1..]| * sub.step + sub.step;
    }
  }

  predicate Distinct<T(==)>(s: seq<T>) {
    forall i, j :: 0 <= i < j < |s| ==> s[i] != s[j]
  }

  /** Distinct block names stand for distinct blocks. */
  lemma NumbersDistinct(sub: Subnet, names: seq<string>)
    requires Named(sub) && Distinct(names)
    requires forall n :: n in names ==> IsBlock(sub, n)
    ensures Distinct(Numbers(sub, names))
    ensures forall n :: n in names ==> NumberOf(sub, n) in Numbers(sub, names)
    ensures forall q :: q in Numbers(sub, names) ==> InGrid(sub, q) && Name(sub, q) in names
  {
    var qs := Numbers(sub, names);
    forall i | 0 <= i < |names| ensures InGrid(sub, qs[i]) && Name(sub, qs[i]) == names[i] {
      assert names[i] in names;
      NumberName(sub, names[i]);
    }
    forall n | n in names ensures NumberOf(sub, n) in qs {
      var i :| 0 <= i < |names| && names[i] == n;
      assert qs[i] == NumberOf(sub, n);
    }
  }

  lemma {:induction false} DistinctCard<T>(s: seq<T>)
    requires Distinct(s)
    ensures |set x | x in s| == |s|
  {
    if s != [] {
      DistinctCard(s[1..]);
      assert (set x | x in s) == {s[0]} + set x | x in s[1..];
    }
  }

  /** Parses block names to unmerged ranges, in order; fails on a name that is no CIDR name. */
  method ParseRangesFromIPBlocks(sub: Subnet, names: seq<string>) returns (ok: bool, r: IPRanges)
    requires Named(sub)
    ensures fresh(r) && Proper(r.ranges)
    ensures ok <==> forall n :: n in names ==> sub.parse(n).Some?
    ensures (forall n :: n in names ==> IsBlock(sub, n)) ==>
              ok && r.ranges == BlockRanges(sub, Numbers(sub, names)) &&
              r.version == if names == [] then Unknown else sub.version
  {
    var ranges: seq<Range> := [];
    ghost var valid := forall n :: n in names ==> IsBlock(sub, n);
    for i := 0 to |names|
      invariant Proper(ranges) && (ranges == [] <==> i == 0)
      invariant forall n :: n in names[..i] ==> sub.parse(n).Some?
      invariant valid ==> ranges == BlockRanges(sub, Numbers(sub, names[..i]))
    {
      if valid { NumberName(sub, names[i]); }
      match sub.parse(names[i])
      case None =>
        r := new IPRanges(Unknown, []);
        return false, r;
      case Some(range) =>
        assert names[..i + 1] == names[..i] + [names[i]];
        BlockRangesAppend(sub, names[..i], names[i]);
        assert [range][1..] == [];
        ProperConcat(ranges, [range]);
        ranges := ranges + [range];
    }
    assert names[..|names|] == names;
    ok := true;
    r := new IPRanges.Parse(sub.version, ranges);
  }

  lemma BlockRangesAppend(sub: Subnet, names: seq<string>, name: string)
    requires sub.step > 0
    ensures BlockRanges(sub, Numbers(sub, names + [name])) ==
            BlockRanges(sub, Numbers(sub, names)) + [BlockRange(sub, NumberOf(sub, name))]
  {
    var qs, q := Numbers(sub, names), NumberOf(sub, name);
    assert Numbers(sub, names + [name]) == qs + [q];
    BlockRangesConcat(sub, qs, q);
  }

  lemma {:induction false} BlockRangesConcat(sub: Subnet, qs: seq<int>, q: int)
    ensures BlockRanges(sub, qs + [q]) == BlockRanges(sub, qs) + [BlockRange(sub, q)]
  {
    if qs == [] {
      assert qs + [q] == [q];
    } else {
      assert (qs + [q])[1..] == qs[1..] + [q];
      BlockRangesConcat(sub, qs[1..], q);
    }
  }

  // ---------------------------------------------------------------- free views

  /** What every published free list of a subnet looks like, however old: merged, made of
      whole blocks of the grid, and counted exactly. */
  ghost predicate FreeView(sub: Subnet, free: seq<Range>, count: int)
    requires sub.step > 0
  {
    && Merged(free)
    && WholeBlocks(Flat(free), sub.step)
    && |Flat(free)| == count * sub.step
    && forall a :: In(free, a) ==> InGrid(sub, a / sub.step)
  }
}
