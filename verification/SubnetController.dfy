/** The subnet controller: what a subnet offers, what is taken, what is left. */
module SubnetController {
  import opened Wrappers
  import opened SetSizes
  import opened Pow2
  import opened Ranges
  import opened RangeObjects
  import opened Iterators
  import opened Grid
  import opened Subnets
  import opened IPBytes
  import opened Texts
  import opened Cluster

  /** Some excluded address shares a block with `a`. */
  ghost predicate Reserved(excluded: seq<Range>, step: int, a: int)
    requires step > 0
  {
    exists x :: In(excluded, x) && x / step == a / step
  }

  ghost predicate InTotal(s: SubnetSpec, a: int)
    requires Admitted(s)
  {
    InCidr(Bits(s.version), s.cidr, a) && !Reserved(s.excluded, Step(s), a)
  }

  // ---------------------------------------------------------------- rounding

  /** Clears the last k bits. */
  function Floor(a: int, k: nat): int {
    a - a % Pow(k)
  }

  /** A prefix longer than the block prefix is rounded down to its block. */
  function Rounded(bits: nat, c: Cidr, blockSize: int): Cidr
    requires 0 <= blockSize <= bits
  {
    if c.ones > blockSize
    then Cidr(Floor(c.base, bits - blockSize), blockSize)
    else c
  }

  lemma RoundedCovers(bits: nat, c: Cidr, blockSize: int, a: int)
    requires Aligned(bits, c) && 0 <= blockSize <= bits
    ensures Aligned(bits, Rounded(bits, c, blockSize))
    ensures var step := Pow(bits - blockSize);
            InCidr(bits, Rounded(bits, c, blockSize), a) <==>
            exists x :: InCidr(bits, c, x) && x / step == a / step
  {
    assert InCidr(bits, c, c.base);
    if c.ones > blockSize {
      RoundedUp(bits, c, blockSize, a);
      forall x | InCidr(bits, c, x) ensures x / Pow(bits - blockSize) == c.base / Pow(bits - blockSize) {
        InnerBlock(bits, c, blockSize, x);
      }
    } else {
      WholeCidr(bits, c, blockSize, a);
      forall x | InCidr(bits, c, x) && x / Pow(bits - blockSize) == a / Pow(bits - blockSize)
        ensures InCidr(bits, c, a)
      {
        WholeCidr(bits, c, blockSize, x);
      }
    }
  }

  lemma RoundedUp(bits: nat, c: Cidr, blockSize: int, a: int)
    requires Aligned(bits, c) && 0 <= blockSize < c.ones
    ensures Aligned(bits, Rounded(bits, c, blockSize))
    ensures InCidr(bits, Rounded(bits, c, blockSize), a) <==>
            a / Pow(bits - blockSize) == c.base / Pow(bits - blockSize)
  {
    DownTo(c.base, Pow(bits - blockSize), a);
  }

  lemma DownTo(base: int, step: int, a: int)
    requires step > 0 && 0 <= base
    ensures var down := base - base % step;
            down % step == 0 && 0 <= down && (down <= a < down + step <==> a / step == base / step)
  {
    var q := base / step;
    assert base == q * step + base % step;
    ModMultiple(q, step);
    DivBlock(a, q, step);
    DivNonNegative(base, step);
    MulMono(0, q, step);
  }

  lemma DivNonNegative(a: int, step: int)
    requires step > 0 && 0 <= a
    ensures 0 <= a / step
  {
    DivBlock(a, a / step, step);
    if a / step < 0 { MulMono(a / step + 1, 0, step); }
  }

  /** An aligned prefix no longer than the block prefix is a run of whole blocks. */
  lemma WholeCidr(bits: nat, c: Cidr, blockSize: int, a: int)
    requires Aligned(bits, c) && c.ones <= blockSize <= bits
    ensures var step := Pow(bits - blockSize);
            InCidr(bits, c, a) <==> c.base / step <= a / step < c.base / step + CidrSize(bits, c) / step
  {
    var step := Pow(bits - blockSize);
    CidrInSteps(bits, c, blockSize);
    var lo, k := c.base / step, CidrSize(bits, c) / step;
    assert (lo + k) * step == c.base + CidrSize(bits, c);
    InterleaveDiv(a, lo, lo + k, step);
  }

  /** An aligned prefix longer than the block prefix stays within one block. */
  lemma InnerBlock(bits: nat, c: Cidr, blockSize: int, x: int)
    requires Aligned(bits, c) && 0 <= blockSize < c.ones && InCidr(bits, c, x)
    ensures x / Pow(bits - blockSize) == c.base / Pow(bits - blockSize)
  {
    var size := CidrSize(bits, c);
    SizeInSteps(bits, blockSize, c.ones);
    assert c.base == c.base / size * size;
    SmallSpan(c.base / size, size, Pow(c.ones - blockSize), x);
  }

  lemma SmallSpan(m: int, size: int, k: int, x: int)
    requires size > 0 && k > 0 && m * size <= x < m * size + size
    ensures x / (k * size) == (m * size) / (k * size)
  {
    var q := m / k;
    DivBlock(m, q, k);
    MulMono(q * k, m, size);
    MulMono(m + 1, q * k + k, size);
    assert (q * k) * size == q * (k * size);
    assert (q * k + k) * size == q * (k * size) + k * size;
    assert (m + 1) * size == m * size + size;
    DivBlock(x, q, k * size);
    DivBlock(m * size, q, k * size);
  }

  // ---------------------------------------------------------------- total ranges

  function ToRange(bits: nat, c: Cidr): Range
    requires 0 <= c.ones <= bits
  {
    Range(c.base, c.base + CidrSize(bits, c) - 1)
  }

  function ToRanges(bits: nat, cs: seq<Cidr>): seq<Range>
    requires forall c :: c in cs ==> 0 <= c.ones <= bits
  {
    if cs == [] then [] else [ToRange(bits, cs[0])] + ToRanges(bits, cs[1..])
  }

  lemma {:induction false} ToRangesAppend(bits: nat, cs: seq<Cidr>, c: Cidr, a: int)
    requires forall d :: d in cs ==> 0 <= d.ones <= bits
    requires 0 <= c.ones <= bits
    ensures In(ToRanges(bits, cs + [c]), a) <==> In(ToRanges(bits, cs), a) || InCidr(bits, c, a)
    ensures Proper(ToRanges(bits, cs))
  {
    if cs == [] {
      assert cs + [c] == [c];
      assert [c][1..] == [];
    } else {
      assert (cs + [c])[1..] == cs[1..] + [c];
      ToRangesAppend(bits, cs[1..], c, a);
    }
  }

  /** The exclusions miss the CIDR. */
  ghost predicate Missed(s: SubnetSpec)
    requires Admitted(s)
  {
    forall x :: In(s.excluded, x) ==> !InCidr(Bits(s.version), s.cidr, x)
  }

  /** Every exclusion starts at an address that prints when computed. */
  ghost predicate Printable(s: SubnetSpec) {
    forall i :: 0 <= i < |s.excluded| ==> Lowest(s.version) <= s.excluded[i].lo
  }

  datatype Damage = Unprintable | DualStack

  /** The CIDR without every block that holds an excluded address, unless an exclusion meets the
      CIDR and one starts below the lowest printable address: then it is an error, or for an
      IPv6 subnet possibly the whole CIDR. */
  method GetTotalIPRanges(s: SubnetSpec) returns (r: Result<IPRanges, Damage>)
    requires Admitted(s)
    ensures r.Ok? ==> fresh(r.value) && r.value.version == s.version && Merged(r.value.ranges)
    ensures Missed(s) || Printable(s) ==> r.Ok? && forall a :: In(r.value.ranges, a) <==> InTotal(s, a)
    ensures !(Missed(s) || Printable(s)) ==>
              if s.version == IPv4 then r == Err(Unprintable)
              else r.Ok? ==> forall a :: In(r.value.ranges, a) <==> InCidr(Bits(s.version), s.cidr, a)
  {
    var bits, step := Bits(s.version), Step(s);
    var total := new IPRanges(s.version, [ToRange(bits, s.cidr)]);
    FlatOne(ToRange(bits, s.cidr));
    assert total.ranges[1..] == [];
    assert forall a :: In(total.ranges, a) <==> InCidr(bits, s.cidr, a);
    if |s.excluded| == 0 {
      return Ok(total);
    }
    BoundedProper(bits, s.excluded);
    var excluded := new IPRanges.Parse(s.version, s.excluded);
    var copy := total.DeepCopy();
    var overlap := copy.Intersect(excluded);
    MergedProper(overlap.ranges);
    var n := overlap.Count();
    if n == 0 {
      NoOverlap(s, overlap.ranges);
      return Ok(total);
    }
    SomeOverlap(s, overlap.ranges);
    r := SubtractBlocks(s, total);
  }

  /** The part behind the early return. */
  method SubtractBlocks(s: SubnetSpec, total: IPRanges) returns (r: Result<IPRanges, Damage>)
    requires Admitted(s) && total.version == s.version && Merged(total.ranges)
    requires forall a :: In(total.ranges, a) <==> InCidr(Bits(s.version), s.cidr, a)
    requires !Missed(s)
    modifies total
    ensures r.Ok? ==> r.value == total && total.version == s.version && Merged(total.ranges)
    ensures Printable(s) ==> r.Ok? && forall a :: In(total.ranges, a) <==> InTotal(s, a)
    ensures !Printable(s) ==>
              if s.version == IPv4 then r == Err(Unprintable)
              else r.Ok? ==> forall a :: In(total.ranges, a) <==> InCidr(Bits(s.version), s.cidr, a)
  {
    var nets;
    ghost var cidrs;
    nets, cidrs := RoundExcluded(s);
    MergedProper(total.ranges);
    var blocked := ParseNets(s.version, nets, cidrs);
    if blocked.Err? {
      return Err(blocked.error);
    }
    var t := total.Diff(blocked.value);
    r := Ok(total);
  }

  /** Reads the texts back, all of one family. */
  method ParseNets(version: Family, nets: seq<Net>, ghost cidrs: seq<Cidr>) returns (r: Result<IPRanges, Damage>)
    requires version != Unknown && |nets| == |cidrs| && nets != []
    requires forall i :: 0 <= i < |cidrs| ==> 0 <= cidrs[i].ones <= Bits(version)
    requires forall i :: 0 <= i < |nets| && nets[i].Net? ==>
               0 <= nets[i].cidr.ones <= Bits(nets[i].family) && (nets[i].family == version || nets[i].family == IPv4)
    ensures r.Ok? ==> fresh(r.value) && Proper(r.value.ranges)
    ensures Faithful(version, nets, cidrs) ==>
              r.Ok? && r.value.version == version && r.value.ranges == ToRanges(Bits(version), cidrs)
    ensures (exists i :: 0 <= i < |nets| && Strange(version, nets[i])) ==>
              if version == IPv4 then r == Err(Unprintable) else r.Ok? ==> r.value.version != version
  {
    var ranges: seq<Range> := [];
    ghost var names := Faithful(version, nets, cidrs);
    var family := if nets[0].Net? then nets[0].family else Unknown;
    for i := 0 to |nets|
      invariant Proper(ranges) && (i > 0 ==> family != Unknown && ranges != [])
      invariant forall j :: 0 <= j < i ==> nets[j].Net? && nets[j].family == family
      invariant names ==> ranges == ToRanges(Bits(version), cidrs[..i])
    {
      match nets[i]
      case Unreadable =>
        return Err(Unprintable);
      case Net(v, c) =>
        if v != family {
          return Err(DualStack);
        }
        if names {
          assert cidrs[..i + 1] == cidrs[..i] + [cidrs[i]];
          ToRangesLast(Bits(version), cidrs[..i], cidrs[i]);
        }
        var one := ToRange(Bits(v), c);
        assert [one][1..] == [];
        ProperConcat(ranges, [one]);
        ranges := ranges + [one];
    }
    assert cidrs[..|cidrs|] == cidrs;
    var parsed := new IPRanges.Parse(family, ranges);
    r := Ok(parsed);
  }

  /** Every text names its prefix. */
  ghost predicate Faithful(version: Family, nets: seq<Net>, cidrs: seq<Cidr>) {
    |nets| == |cidrs| && forall i :: 0 <= i < |nets| ==> nets[i] == Net(version, cidrs[i])
  }

  /** A text that names no prefix of the family. */
  predicate Strange(version: Family, net: Net) {
    net == Unreadable || net.family != version
  }

  lemma {:induction false} ToRangesLast(bits: nat, cs: seq<Cidr>, c: Cidr)
    requires (forall d :: d in cs ==> 0 <= d.ones <= bits) && 0 <= c.ones <= bits
    ensures ToRanges(bits, cs + [c]) == ToRanges(bits, cs) + [ToRange(bits, c)]
  {
    if cs == [] {
      assert cs + [c] == [c] && [c][1..] == [];
    } else {
      assert (cs + [c])[1..] == cs[1..] + [c];
      ToRangesLast(bits, cs[1..], c);
    }
  }

  lemma {:induction false} BoundedProper(bits: nat, rs: seq<Range>)
    requires Bounded(bits, rs)
    ensures Proper(rs)
  {
    if rs != [] { BoundedProper(bits, rs[1..]); }
  }

  lemma {:induction false} InBounded(bits: nat, rs: seq<Range>, low: int, x: int)
    requires Bounded(bits, rs) && In(rs, x)
    ensures 0 <= x < Pow(bits)
    ensures (forall i :: 0 <= i < |rs| ==> low <= rs[i].lo) ==> low <= x
  {
    if !(rs[0].lo <= x <= rs[0].hi) { InBounded(bits, rs[1..], low, x); }
  }

  lemma {:induction false} InAt(rs: seq<Range>, i: nat, x: int)
    requires i < |rs| && rs[i].lo <= x <= rs[i].hi
    ensures In(rs, x)
  {
    if i > 0 { InAt(rs[1..], i - 1, x); }
  }

  /** The exclusions CIDR by CIDR, rounded outward to blocks, as texts. `cidrs` are the prefixes
      themselves. */
  ghost predicate Rounding(s: SubnetSpec, nets: seq<Net>, cidrs: seq<Cidr>)
    requires Admitted(s)
  {
    && |nets| == |cidrs|
    && (forall i :: 0 <= i < |cidrs| ==> 0 <= cidrs[i].ones <= Bits(s.version))
    && (forall i :: 0 <= i < |nets| && nets[i].Net? ==>
          0 <= nets[i].cidr.ones <= Bits(nets[i].family) && (nets[i].family == s.version || nets[i].family == IPv4))
    && (Printable(s) ==> Faithful(s.version, nets, cidrs))
    && (forall a :: In(ToRanges(Bits(s.version), cidrs), a) ==> Reserved(s.excluded, Step(s), a))
  }

  /** Address x has been seen: the block is covered, and if it does not print, some text shows. */
  ghost predicate Swept(s: SubnetSpec, nets: seq<Net>, cidrs: seq<Cidr>, x: int)
    requires Admitted(s) && Rounding(s, nets, cidrs)
  {
    && (forall a :: a / Step(s) == x / Step(s) ==> In(ToRanges(Bits(s.version), cidrs), a))
    && (x < Lowest(s.version) ==> exists i :: 0 <= i < |nets| && Strange(s.version, nets[i]))
  }

  /** The loop over the exclusions. */
  method RoundExcluded(s: SubnetSpec) returns (nets: seq<Net>, ghost cidrs: seq<Cidr>)
    requires Admitted(s)
    ensures Rounding(s, nets, cidrs) && (s.excluded != [] ==> nets != [])
    ensures forall a :: In(ToRanges(Bits(s.version), cidrs), a) <==> Reserved(s.excluded, Step(s), a)
    ensures !Printable(s) ==> exists i :: 0 <= i < |nets| && Strange(s.version, nets[i])
  {
    var bits, step := Bits(s.version), Step(s);
    var iter := new CIDRIterator(bits, s.excluded);
    ghost var rest := iset x | In(s.excluded, x);
    nets, cidrs := [], [];
    WalkStart(s, rest);
    while true
      invariant iter.Valid() && fresh(iter) && iter.bits == bits && iter.ranges == s.excluded
      invariant s.excluded == [] || iter.rangeIndex < |s.excluded|
      invariant (forall x :: x in rest <==> iter.Pending(x)) && Walked(s, nets, cidrs, rest)
      decreases iter.Left().0, iter.Left().1 + 1
    {
      var c := iter.Next();
      if c == None {
        break;
      }
      var net, cidr := RoundOne(bits, c.value, s.blockSize);
      ghost var later := iset x | iter.Pending(x);
      OneMore(s, nets, cidrs, rest, later, c.value, cidr, net);
      rest := later;
      nets := nets + [net];
      cidrs := cidrs + [cidr];
    }
    RoundingDone(s, nets, cidrs, rest);
  }

  /** Rounds one CIDR and prints it. */
  method RoundOne(bits: nat, c: Cidr, blockSize: int) returns (net: Net, r: Cidr)
    requires 0 <= blockSize <= bits && Aligned(bits, c)
    ensures r == Rounded(bits, c, blockSize) && net == CIDRString(bits, c.base, r)
  {
    r := c;
    if r.ones > blockSize {
      r := Cidr(Floor(r.base, bits - blockSize), blockSize);
    }
    net := CIDRString(bits, c.base, r);
  }

  /** Where the walk stands: what is not pending has been seen. */
  ghost predicate Walked(s: SubnetSpec, nets: seq<Net>, cidrs: seq<Cidr>, rest: iset<int>)
    requires Admitted(s)
  {
    && Rounding(s, nets, cidrs)
    && (forall x :: In(s.excluded, x) ==> x in rest || Swept(s, nets, cidrs, x))
    && (forall x :: x in rest ==> In(s.excluded, x))
  }

  lemma WalkStart(s: SubnetSpec, rest: iset<int>)
    requires Admitted(s) && forall x :: x in rest <==> In(s.excluded, x)
    ensures Walked(s, [], [], rest)
  {}

  /** One more CIDR of the walk. */
  lemma OneMore(s: SubnetSpec, nets: seq<Net>, cidrs: seq<Cidr>, rest: iset<int>, later: iset<int>, c: Cidr, r: Cidr,
                net: Net)
    requires Admitted(s) && Walked(s, nets, cidrs, rest) && Aligned(Bits(s.version), c)
    requires forall x :: x in rest <==> InCidr(Bits(s.version), c, x) || x in later
    requires r == Rounded(Bits(s.version), c, s.blockSize) && net == CIDRString(Bits(s.version), c.base, r)
    ensures Walked(s, nets + [net], cidrs + [r], later)
  {
    OneMoreNet(s, c, r, net);
    RoundingGrows(s, nets, cidrs, c, r, net);
    forall x | In(s.excluded, x) && x !in later ensures Swept(s, nets + [net], cidrs + [r], x) {
      SweptGrows(s, nets, cidrs, c, r, net, x);
    }
  }

  lemma RoundingGrows(s: SubnetSpec, nets: seq<Net>, cidrs: seq<Cidr>, c: Cidr, r: Cidr, net: Net)
    requires Admitted(s) && Rounding(s, nets, cidrs) && Aligned(Bits(s.version), c)
    requires forall x :: InCidr(Bits(s.version), c, x) ==> In(s.excluded, x)
    requires r == Rounded(Bits(s.version), c, s.blockSize)
    requires Printable(s) ==> net == Net(s.version, r)
    requires net.Net? ==> 0 <= net.cidr.ones <= Bits(net.family) && (net.family == s.version || net.family == IPv4)
    ensures Rounding(s, nets + [net], cidrs + [r])
  {
    OneMoreReserved(s, cidrs, c, r);
    forall a | In(ToRanges(Bits(s.version), cidrs + [r]), a) ensures Reserved(s.excluded, Step(s), a) {
      ToRangesAppend(Bits(s.version), cidrs, r, a);
    }
    if Printable(s) { assert Faithful(s.version, nets + [net], cidrs + [r]); }
  }

  lemma OneMoreNet(s: SubnetSpec, c: Cidr, r: Cidr, net: Net)
    requires Admitted(s) && Aligned(Bits(s.version), c)
    requires forall x :: InCidr(Bits(s.version), c, x) ==> In(s.excluded, x)
    requires r == Rounded(Bits(s.version), c, s.blockSize) && net == CIDRString(Bits(s.version), c.base, r)
    ensures Printable(s) ==> net == Net(s.version, r)
    ensures c.base < Lowest(s.version) ==> Strange(s.version, net)
    ensures net.Net? ==> 0 <= net.cidr.ones <= Bits(net.family) && (net.family == s.version || net.family == IPv4)
  {
    var bits := Bits(s.version);
    assert InCidr(bits, c, c.base);
    InBounded(bits, s.excluded, 0, c.base);
    if Printable(s) { InBounded(bits, s.excluded, Lowest(s.version), c.base); }
    CIDRStringExactIff(s.version, c.base, r);
  }

  lemma OneMoreReserved(s: SubnetSpec, cidrs: seq<Cidr>, c: Cidr, r: Cidr)
    requires Admitted(s) && Aligned(Bits(s.version), c) && r == Rounded(Bits(s.version), c, s.blockSize)
    requires forall x :: InCidr(Bits(s.version), c, x) ==> In(s.excluded, x)
    ensures 0 <= r.ones <= Bits(s.version)
    ensures forall a :: InCidr(Bits(s.version), r, a) ==> Reserved(s.excluded, Step(s), a)
  {
    forall a | InCidr(Bits(s.version), r, a) ensures Reserved(s.excluded, Step(s), a) {
      RoundedCovers(Bits(s.version), c, s.blockSize, a);
    }
  }

  lemma SweptGrows(s: SubnetSpec, nets: seq<Net>, cidrs: seq<Cidr>, c: Cidr, r: Cidr, net: Net, x: int)
    requires Admitted(s) && Rounding(s, nets, cidrs) && Rounding(s, nets + [net], cidrs + [r])
    requires Aligned(Bits(s.version), c) && r == Rounded(Bits(s.version), c, s.blockSize)
    requires c.base < Lowest(s.version) ==> Strange(s.version, net)
    requires Swept(s, nets, cidrs, x) || InCidr(Bits(s.version), c, x)
    ensures Swept(s, nets + [net], cidrs + [r], x)
  {
    var bits := Bits(s.version);
    forall a | a / Step(s) == x / Step(s) ensures In(ToRanges(bits, cidrs + [r]), a) {
      ToRangesAppend(bits, cidrs, r, a);
      if InCidr(bits, c, x) { RoundedCovers(bits, c, s.blockSize, a); }
    }
    if x < Lowest(s.version) {
      if InCidr(bits, c, x) {
        assert (nets + [net])[|nets|] == net;
      } else {
        var i :| 0 <= i < |nets| && Strange(s.version, nets[i]);
        assert (nets + [net])[i] == nets[i];
      }
    }
  }

  /** When nothing is left, every reserved block is covered, and an unprintable start shows. */
  lemma RoundingDone(s: SubnetSpec, nets: seq<Net>, cidrs: seq<Cidr>, rest: iset<int>)
    requires Admitted(s) && Walked(s, nets, cidrs, rest) && forall x :: x !in rest
    ensures Rounding(s, nets, cidrs)
    ensures forall a :: In(ToRanges(Bits(s.version), cidrs), a) <==> Reserved(s.excluded, Step(s), a)
    ensures !Printable(s) ==> exists i :: 0 <= i < |nets| && Strange(s.version, nets[i])
    ensures s.excluded != [] ==> nets != []
  {
    forall a | Reserved(s.excluded, Step(s), a) ensures In(ToRanges(Bits(s.version), cidrs), a) {
      var x :| In(s.excluded, x) && x / Step(s) == a / Step(s);
      assert Swept(s, nets, cidrs, x);
    }
    if !Printable(s) {
      var i :| 0 <= i < |s.excluded| && s.excluded[i].lo < Lowest(s.version);
      FirstSwept(s, nets, cidrs, i);
    }
    if s.excluded != [] { FirstSwept(s, nets, cidrs, 0); }
  }

  lemma FirstSwept(s: SubnetSpec, nets: seq<Net>, cidrs: seq<Cidr>, i: nat)
    requires Admitted(s) && Rounding(s, nets, cidrs) && i < |s.excluded|
    requires forall x :: In(s.excluded, x) ==> Swept(s, nets, cidrs, x)
    ensures Swept(s, nets, cidrs, s.excluded[i].lo) && nets != []
  {
    var x := s.excluded[i].lo;
    InAt(s.excluded, i, x);
    assert Swept(s, nets, cidrs, x);
    assert In(ToRanges(Bits(s.version), cidrs), x);
  }

  /** An address both excluded and in the CIDR. */
  lemma SomeOverlap(s: SubnetSpec, overlap: seq<Range>)
    requires Admitted(s) && |Flat(overlap)| > 0
    requires forall a :: In(overlap, a) <==> InCidr(Bits(s.version), s.cidr, a) && In(s.excluded, a)
    ensures !Missed(s)
  {
    FlatInAll(overlap);
    HasFirst(Flat(overlap));
    assert In(overlap, Flat(overlap)[0]);
  }

  /** Exclusions outside the CIDR reserve nothing inside it. */
  lemma NoOverlap(s: SubnetSpec, overlap: seq<Range>)
    requires Admitted(s) && Proper(overlap) && |Flat(overlap)| == 0
    requires forall a :: In(overlap, a) <==> InCidr(Bits(s.version), s.cidr, a) && In(s.excluded, a)
    ensures Missed(s) && forall a :: InCidr(Bits(s.version), s.cidr, a) <==> InTotal(s, a)
  {
    FlatInAll(overlap);
    var bits, step := Bits(s.version), Step(s);
    forall a | InCidr(bits, s.cidr, a) ensures !Reserved(s.excluded, step, a) {
      if x :| In(s.excluded, x) && x / step == a / step {
        WholeCidr(bits, s.cidr, s.blockSize, a);
        WholeCidr(bits, s.cidr, s.blockSize, x);
      }
    }
  }

  // ---------------------------------------------------------------- status

  datatype BlockCount = BlockCount(total: int, used: int, free: int)

  datatype SubnetStatus = SubnetStatus(free: seq<Range>, blockCount: BlockCount)

  /** The blocks a subnet can hand out at all. */
  ghost function TotalBlocks(s: SubnetSpec, sub: Subnet): set<int>
    requires Admitted(s) && Describes(sub, s)
  {
    set q | sub.lo <= q < sub.hi && InTotal(s, q * sub.step)
  }

  /** An address is on offer exactly when its whole block is. */
  lemma TotalByBlock(s: SubnetSpec, sub: Subnet, a: int)
    requires Admitted(s) && Describes(sub, s)
    ensures InTotal(s, a) <==> a / sub.step in TotalBlocks(s, sub)
  {
    var q := a / sub.step;
    GridIsCidr(sub, s, a);
    GridIsCidr(sub, s, q * sub.step);
    DivOffset(q, 0, sub.step);
  }

  /** A merged list of the addresses of blocks `qs` has an exact block count. */
  lemma CountBlocks(rs: seq<Range>, qs: set<int>, step: int)
    requires step > 0 && Merged(rs)
    requires forall a :: In(rs, a) <==> a / step in qs
    ensures Proper(rs) && WholeBlocks(Flat(rs), step)
    ensures |Flat(rs)| == |qs| * step && |Flat(rs)| / step == |qs|
  {
    MergedProper(rs);
    MergedIncreasing(rs);
    FlatInAll(rs);
    SpaceExact(Flat(rs), qs, step);
    ModMultiple(|qs|, step);
  }

  lemma UsedBlocks(sub: Subnet, names: seq<string>)
    requires Named(sub) && Distinct(names)
    requires forall n :: n in names ==> IsBlock(sub, n)
    ensures var rs := BlockRanges(sub, Numbers(sub, names));
            |Flat(rs)| / sub.step == |names| == |Taken(sub, names)| &&
            forall a :: In(rs, a) <==> a / sub.step in Taken(sub, names)
  {
    var qs := Numbers(sub, names);
    NumbersDistinct(sub, names);
    DistinctCard(qs);
    BlockRangesIn(sub, qs, 0);
    SizeIsFlat(BlockRanges(sub, qs));
    ModMultiple(|qs|, sub.step);
    forall a ensures In(BlockRanges(sub, qs), a) <==> a / sub.step in Taken(sub, names) { BlockRangesIn(sub, qs, a); }
  }

  /** A status that tells the truth about a list of blocks: exact counts, and the free list
      is exactly the offered blocks that are not taken. */
  ghost predicate Truthful(s: SubnetSpec, sub: Subnet, names: seq<string>, st: SubnetStatus)
    requires Admitted(s) && Describes(sub, s) && Named(sub)
  {
    && st.blockCount.total == |TotalBlocks(s, sub)|
    && st.blockCount.used == |names| == |Taken(sub, names)|
    && st.blockCount.free == |TotalBlocks(s, sub) - Taken(sub, names)|
    && (forall a :: In(st.free, a) <==> InTotal(s, a) && a / sub.step !in Taken(sub, names))
    && FreeView(sub, st.free, st.blockCount.free)
  }

  lemma StatusIsTruthful(s: SubnetSpec, sub: Subnet, names: seq<string>, total: seq<Range>, free: seq<Range>)
    requires Admitted(s) && Describes(sub, s) && Named(sub) && Distinct(names)
    requires forall n :: n in names ==> IsBlock(sub, n)
    requires Merged(total) && forall a :: In(total, a) <==> InTotal(s, a)
    requires Merged(free)
    requires forall a :: In(free, a) <==> In(total, a) && a / sub.step !in Taken(sub, names)
    ensures Truthful(s, sub, names,
                     SubnetStatus(free, BlockCount(|Flat(total)| / sub.step, |names|, |Flat(free)| / sub.step)))
  {
    var offered := TotalBlocks(s, sub);
    forall a ensures InTotal(s, a) <==> a / sub.step in offered { TotalByBlock(s, sub, a); }
    CountBlocks(total, offered, sub.step);
    CountBlocks(free, offered - Taken(sub, names), sub.step);
    UsedBlocks(sub, names);
  }

  /** Free and taken-on-offer blocks make up the total, whatever lies outside the offer. */
  lemma BlocksConserved(s: SubnetSpec, sub: Subnet, names: seq<string>, st: SubnetStatus)
    requires Admitted(s) && Describes(sub, s) && Named(sub) && Truthful(s, sub, names, st)
    ensures st.blockCount.free + |Taken(sub, names) * TotalBlocks(s, sub)| == st.blockCount.total
    ensures st.blockCount.free + st.blockCount.used == st.blockCount.total <==>
            Taken(sub, names) <= TotalBlocks(s, sub)
  {
    var t, u := TotalBlocks(s, sub), Taken(sub, names);
    assert t == (t - u) + u * t;
    assert |t| == |t - u| + |u * t|;
    assert u == (u - t) + u * t;
    assert |u| == |u - t| + |u * t|;
    if |u - t| == 0 { assert u - t == {}; }
  }

  class SubnetObject {
    const spec: SubnetSpec
    var status: Option<SubnetStatus>
    var finalizer: bool

    constructor (spec: SubnetSpec)
      ensures this.spec == spec && status == None && finalizer
    {
      this.spec := spec;
      status := None;
      finalizer := true;
    }

    /** Recomputes the status from the listed blocks. The list comes from a cache and may be
        of any age; all that is used of it is that its names are distinct. The status is truthful
        unless exclusions do not print; then there is none, or a false one. */
    method Reconcile(sub: Subnet, names: seq<string>) returns (ok: bool)
      requires Admitted(spec) && Describes(sub, spec) && Named(sub) && Distinct(names)
      modifies this`status
      ensures !ok ==> status == old(status)
      ensures (exists n :: n in names && sub.parse(n) == None) ==> !ok
      ensures (forall n :: n in names ==> IsBlock(sub, n)) && (Missed(spec) || Printable(spec)) ==>
                ok && status.Some? && Truthful(spec, sub, names, status.value)
      ensures (forall n :: n in names ==> IsBlock(sub, n)) && !(Missed(spec) || Printable(spec)) ==>
                if spec.version == IPv4 then !ok
                else ok ==> status.Some? && !Truthful(spec, sub, names, status.value)
    {
      var computed := GetTotalIPRanges(spec);
      if computed.Err? {
        return false;
      }
      var total := computed.value;
      var parsed, used := ParseRangesFromIPBlocks(sub, names);
      if !parsed {
        return false;
      }
      ok := true;
      MergedProper(total.ranges);
      var free := total.DeepCopy();
      free := free.Diff(used);
      MergedProper(free.ranges);
      var totalSize := total.Count();
      var usedSize := used.Count();
      var freeSize := free.Count();
      var blockCount := BlockCount(totalSize / sub.step, usedSize / sub.step, freeSize / sub.step);
      var current := SubnetStatus(free.ranges, blockCount);
      if forall n :: n in names ==> IsBlock(sub, n) {
        UsedBlocks(sub, names);
        if Missed(spec) || Printable(spec) {
          StatusIsTruthful(spec, sub, names, total.ranges, free.ranges);
        } else {
          WholeIsFalse(spec, sub, total.ranges);
        }
      }
      if status != Some(current) {
        status := Some(current);
      }
    }

    /** Drops the finalizer if the status counts no block and no pool was listed. On a truthful
        status and a complete list that is so exactly when the subnet has neither. */
    method CleanUp(listed: seq<PoolKey>, ghost sub: Subnet, ghost s: State, ghost names: seq<string>)
      returns (cleaned: bool)
      modifies this`finalizer
      ensures finalizer == (old(finalizer) && !cleaned)
      ensures status == None ==> !cleaned
      ensures Admitted(spec) && Describes(sub, spec) && Named(sub) && status.Some? && InSync(sub, s, listed, names) &&
              Truthful(spec, sub, names, status.value) ==>
                (cleaned <==> s.blocks == map[] && s.pools == map[])
    {
      if status == None {
        return false;
      }
      if SetOf(names) == s.blocks.Keys { EmptyIff(names, s.blocks.Keys); }
      if SetOf(listed) == s.pools.Keys { EmptyIff(listed, s.pools.Keys); }
      if status.value.blockCount.used > 0 {
        return false;
      }
      if |listed| != 0 {
        return false;
      }
      finalizer := false;
      cleaned := true;
    }
  }

  /** The lists show the blocks and the pools of the store. */
  ghost predicate InSync(sub: Subnet, s: State, listed: seq<PoolKey>, names: seq<string>) {
    Distinct(names) && SetOf(names) == s.blocks.Keys && SetOf(listed) == s.pools.Keys
  }

  lemma EmptyIff<T>(xs: seq<T>, keys: set<T>)
    requires SetOf(xs) == keys
    ensures |xs| == 0 <==> keys == {}
  {
    if xs != [] { assert xs[0] in SetOf(xs); }
  }

  /** A count of the whole CIDR is false as soon as a block of it is reserved. */
  lemma WholeIsFalse(s: SubnetSpec, sub: Subnet, whole: seq<Range>)
    requires Admitted(s) && Describes(sub, s) && !Missed(s) && Merged(whole)
    requires forall a :: In(whole, a) <==> InCidr(Bits(s.version), s.cidr, a)
    ensures |Flat(whole)| / sub.step != |TotalBlocks(s, sub)|
  {
    var grid := set q | sub.lo <= q < sub.hi && InGrid(sub, q);
    forall a ensures In(whole, a) <==> a / sub.step in grid { GridIsCidr(sub, s, a); }
    CountBlocks(whole, grid, sub.step);
    var x :| In(s.excluded, x) && InCidr(Bits(s.version), s.cidr, x);
    var q := x / sub.step;
    GridIsCidr(sub, s, x);
    DivOffset(q, 0, sub.step);
    assert q !in TotalBlocks(s, sub) by { assert Reserved(s.excluded, sub.step, q * sub.step); }
    assert TotalBlocks(s, sub) <= grid - {q};
    assert grid == (grid - {q}) + {q};
    SubsetCard(TotalBlocks(s, sub), grid - {q});
  }

  // ---------------------------------------------------------------- what does not print

  /** The webhook admits this subnet, 0.0.0.0/24 without 0.0.0.8, but its status is never
      computed: the excluded address comes back as the single byte 8. */
  const LOW := SubnetSpec(IPv4, Cidr(0, 24), [Range(8, 8)], 30)

  lemma LowIsDamaged()
    ensures Admitted(LOW) && !Missed(LOW) && !Printable(LOW)
    ensures IntToIP(8) == [8] && CIDRString(32, 8, Rounded(32, Cidr(8, 32), 30)) == Unreadable
  {
    LowAdmitted();
    InAt(LOW.excluded, 0, 8);
    assert In(LOW.excluded, 8) && InCidr(32, LOW.cidr, 8);
    LowBytes();
  }

  lemma LowAdmitted()
    ensures Admitted(LOW) && CidrSize(32, LOW.cidr) == 256 && Lowest(IPv4) > 8
  {
    assert Pow(8) == 256;
    PowSplit(8, 8);
    PowSplit(16, 8);
    PowSplit(24, 8);
    ModMultiple(0, Pow(8));
    assert LOW.excluded[1..] == [];
  }

  lemma LowBytes()
    ensures IntToIP(8) == [8] && CIDRString(32, 8, Rounded(32, Cidr(8, 32), 30)) == Unreadable
  {
    assert IntToIP(0) == [] && Div(8, 256) == 0 && Mod(8, 256) == 8;
    LowAdmitted();
    CIDRStringExactIff(IPv4, 8, Rounded(32, Cidr(8, 32), 30));
  }

  /** The bounds of the total that are computed, not read: each start but the CIDR's first
      address, each end but its last. */
  ghost predicate BoundsPrint(s: SubnetSpec, rs: seq<Range>)
    requires Admitted(s)
  {
    forall i :: 0 <= i < |rs| ==> BoundPrint(s, rs[i])
  }

  /** With printable exclusions they all print, unless the CIDR reaches over the lowest printable
      address and the block that starts there is reserved. */
  lemma BoundsPrintIff(s: SubnetSpec, rs: seq<Range>)
    requires Admitted(s) && Printable(s) && Merged(rs) && forall a :: In(rs, a) <==> InTotal(s, a)
    ensures var p, bits := Lowest(s.version), Bits(s.version);
            BoundsPrint(s, rs) <==>
            !(InCidr(bits, s.cidr, p - 1) && InCidr(bits, s.cidr, p) && Reserved(s.excluded, Step(s), p))
  {
    var p, bits := Lowest(s.version), Bits(s.version);
    if InCidr(bits, s.cidr, p - 1) && InCidr(bits, s.cidr, p) && Reserved(s.excluded, Step(s), p) {
      if Reserved(s.excluded, Step(s), p - 1) { ReservedPrints(s, p - 1); }
      assert InTotal(s, p - 1) && !InTotal(s, p);
      var i := EndsAt(rs, p - 1);
    } else {
      forall i | 0 <= i < |rs| ensures BoundPrint(s, rs[i]) { BoundPrints(s, rs, i); }
    }
  }

  /** Both bounds of one range print, or are the CIDR's. */
  predicate BoundPrint(s: SubnetSpec, r: Range)
    requires 0 <= s.cidr.ones <= Bits(s.version)
  {
    && (r.lo == s.cidr.base || Lowest(s.version) <= r.lo)
    && (r.hi == s.cidr.base + CidrSize(Bits(s.version), s.cidr) - 1 || Lowest(s.version) <= r.hi)
  }

  lemma BoundPrints(s: SubnetSpec, rs: seq<Range>, i: nat)
    requires Admitted(s) && Printable(s) && Merged(rs) && i < |rs| && forall a :: In(rs, a) <==> InTotal(s, a)
    requires var p, bits := Lowest(s.version), Bits(s.version);
             !(InCidr(bits, s.cidr, p - 1) && InCidr(bits, s.cidr, p) && Reserved(s.excluded, Step(s), p))
    ensures BoundPrint(s, rs[i])
  {
    MergedEnds(rs, i);
    assert InTotal(s, rs[i].lo) && InTotal(s, rs[i].hi);
    assert !InTotal(s, rs[i].lo - 1) && !InTotal(s, rs[i].hi + 1);
    if Reserved(s.excluded, Step(s), rs[i].lo - 1) { ReservedPrints(s, rs[i].lo - 1); }
    if Reserved(s.excluded, Step(s), rs[i].hi + 1) { ReservedPrints(s, rs[i].hi + 1); }
  }

  /** Printable exclusions reserve printable addresses. */
  lemma ReservedPrints(s: SubnetSpec, a: int)
    requires Admitted(s) && Printable(s) && Reserved(s.excluded, Step(s), a)
    ensures Lowest(s.version) <= a
  {
    var p, step := Lowest(s.version), Step(s);
    var x :| In(s.excluded, x) && x / step == a / step;
    InBounded(Bits(s.version), s.excluded, p, x);
    SizeInSteps(Bits(s.version), 8, s.blockSize);
    ModMultiple(Pow(s.blockSize - 8), step);
    WholeBelow(p, Pow(s.blockSize - 8), step, x, a);
  }

  lemma WholeBelow(p: int, k: int, step: int, x: int, a: int)
    requires step > 0 && p == k * step && p <= x && x / step == a / step
    ensures p <= a
  {
    DivBlock(x, x / step, step);
    DivBlock(a, x / step, step);
    if x / step < k { MulMono(x / step + 1, k, step); }
    MulMono(k, x / step, step);
  }

  lemma {:induction false} MergedEnds(rs: seq<Range>, i: nat)
    requires Merged(rs) && i < |rs|
    ensures In(rs, rs[i].lo) && In(rs, rs[i].hi) && !In(rs, rs[i].lo - 1) && !In(rs, rs[i].hi + 1)
    ensures rs[0].lo <= rs[i].lo <= rs[i].hi && (i > 0 ==> rs[0].hi + 1 < rs[i].lo)
  {
    if i > 0 {
      MergedEnds(rs[1..], i - 1);
    } else {
      if In(rs[1..], rs[0].lo - 1) { MergedBelow(rs[1..], rs[0].lo - 1); }
      if In(rs[1..], rs[0].hi + 1) { MergedBelow(rs[1..], rs[0].hi + 1); }
    }
  }

  lemma {:induction false} EndsAt(rs: seq<Range>, x: int) returns (i: nat)
    requires Merged(rs) && In(rs, x) && !In(rs, x + 1)
    ensures i < |rs| && rs[i].hi == x
  {
    if rs[0].lo <= x <= rs[0].hi {
      i := 0;
    } else {
      i := EndsAt(rs[1..], x);
      i := i + 1;
    }
  }
}
