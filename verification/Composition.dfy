/** The parts put together: subnets named by the codec, and what holds of them outright. */
module Composition {
  import opened Wrappers
  import opened Pow2
  import opened Ranges
  import opened Iterators
  import opened Subnets
  import opened SubnetWebhook
  import opened Cluster
  import opened FreshRuns
  import opened HeldTwice
  import opened Runs
  import opened IPBytes
  import Allocator
  import Grid
  import Names
  import Texts

  /** The subnet of a spec, named by the codec. */
  function SubnetOf(s: SubnetSpec): Subnet
    requires s.blockSize <= Bits(s.version) && 0 <= s.cidr.ones <= Bits(s.version)
  {
    var step := Step(s);
    var lo := s.cidr.base / step;
    var v := s.version;
    Subnet(v, lo, lo + CidrSize(Bits(v), s.cidr) / step, step,
           rs => Names.NameOf(rs), n => Names.RangeOf(v, n), a => Names.ComputedName(a), n => Names.AddressOf(v, n))
  }

  /** The first byte of no address of the subnet is zero. */
  predicate Sturdy(s: SubnetSpec) {
    Lowest(s.version) <= s.cidr.base
  }

  /** Blocks and addresses of an admitted subnet have invertible names exactly if its prefix does
      not begin with a zero byte. */
  lemma AdmittedNamedIff(s: SubnetSpec)
    requires Admitted(s)
    ensures Named(SubnetOf(s)) <==> Sturdy(s)
    ensures Describes(SubnetOf(s), s)
  {
    var sub, a := SubnetOf(s), s.cidr.base + 1;
    SecondAddress(s);
    GridIsCidr(sub, s, a);
    Names.ComputedRoundTripIff(s.version, a);
    assert InGrid(sub, a / sub.step);
    assert Named(sub) ==> sub.ipParse(sub.ipName(a)) == Some(a);
    if Sturdy(s) { SturdyNamed(s, sub); }
  }

  /** The second address of the prefix, which is always computed, is below the bound exactly if
      the first one is. */
  lemma SecondAddress(s: SubnetSpec)
    requires Admitted(s)
    ensures InCidr(Bits(s.version), s.cidr, s.cidr.base + 1)
    ensures Sturdy(s) <==> Lowest(s.version) <= s.cidr.base + 1
  {
    var size := CidrSize(Bits(s.version), s.cidr);
    var low: int := Lowest(s.version);
    assert size == 2 * Pow(Bits(s.version) - s.cidr.ones - 1) && low == 2 * Pow(Bits(s.version) - 9);
    EvenFactor(s.cidr.base, s.cidr.base / size, Pow(Bits(s.version) - s.cidr.ones - 1));
    NotBetween(low, s.cidr.base, Pow(Bits(s.version) - 9), s.cidr.base / size * Pow(Bits(s.version) - s.cidr.ones - 1));
  }

  lemma EvenFactor(base: int, q: int, half: int)
    requires base == q * (2 * half)
    ensures base == 2 * (q * half)
  {}

  lemma NotBetween(low: int, base: int, m: int, n: int)
    requires low == 2 * m && base == 2 * n
    ensures low <= base <==> low <= base + 1
  {}

  lemma SturdyNamed(s: SubnetSpec, sub: Subnet)
    requires Admitted(s) && sub == SubnetOf(s) && Describes(sub, s) && Sturdy(s)
    ensures Named(sub)
  {
    forall q | InGrid(sub, q) ensures sub.parse(Name(sub, q)) == Some(BlockRange(sub, q)) {
      BlockNamed(s, sub, q);
    }
    forall a | InGrid(sub, a / sub.step) ensures sub.ipParse(sub.ipName(a)) == Some(a) {
      GridIsCidr(sub, s, a);
      Names.ComputedRoundTripIff(s.version, a);
    }
  }

  /** The bytes of every address of the CIDR are as many as the family has exactly if its first
      address is not below 2^(Bits - 8). */
  lemma BytesKeptIff(s: SubnetSpec)
    requires Admitted(s)
    ensures Sturdy(s) <==>
            forall a: nat :: InCidr(Bits(s.version), s.cidr, a) ==> |IntToIP(a)| == ByteLength(s.version)
  {
    ExactIff(s.version, s.cidr.base);
    assert InCidr(Bits(s.version), s.cidr, s.cidr.base);
    if Sturdy(s) {
      forall a: nat | InCidr(Bits(s.version), s.cidr, a) ensures |IntToIP(a)| == ByteLength(s.version) {
        ExactIff(s.version, a);
      }
    }
  }

  lemma BlockNamed(s: SubnetSpec, sub: Subnet, q: int)
    requires Admitted(s) && Describes(sub, s) && Sturdy(s) && InGrid(sub, q)
    ensures Names.RangeOf(s.version, Names.NameOf([BlockRange(sub, q)])) == Some(BlockRange(sub, q))
  {
    var r := BlockRange(sub, q);
    BlockBase(s, sub, q, r);
    Names.BlockRoundTripIff(s.version, r, sub.step, Bits(s.version) - s.blockSize);
  }

  lemma BlockBase(s: SubnetSpec, sub: Subnet, q: int, r: Range)
    requires Admitted(s) && Describes(sub, s) && InGrid(sub, q) && r == BlockRange(sub, q)
    ensures s.cidr.base <= r.lo < Pow(Bits(s.version)) && Texts.Mod(r.lo, sub.step) == 0 && r.hi == r.lo + sub.step - 1
    ensures 0 < Bits(s.version) - s.blockSize <= 6 && sub.step == Pow(Bits(s.version) - s.blockSize)
  {
    Grid.DivOffset(q, 0, sub.step);
    GridIsCidr(sub, s, q * sub.step);
    ModMultiple(q, sub.step);
  }

  /** The failing runs of `StaleStatus` and `Interrupted` are runs of every such subnet of at least
      eight blocks of the default size. */
  lemma DefaultIsRoomy(s: SubnetSpec)
    requires Admitted(s) && Sturdy(s) && s.blockSize == Bits(s.version) - 2 && s.cidr.ones + 3 <= s.blockSize
    ensures Roomy(SubnetOf(s))
  {
    AdmittedNamedIff(s);
    EightBlocks(s);
  }

  lemma EightBlocks(s: SubnetSpec)
    requires Admitted(s) && s.blockSize == Bits(s.version) - 2 && s.cidr.ones + 3 <= s.blockSize
    ensures Step(s) == 4 && CidrSize(Bits(s.version), s.cidr) >= 32
  {
    var bits := Bits(s.version);
    SizeInSteps(bits, s.cidr.ones, s.blockSize);
    PowMono(3, s.blockSize - s.cidr.ones);
    assert Pow(2) == 4 && Pow(3) == 8;
  }

  /** In every reachable state of an admitted subnet: blocks on the grid, inside the CIDR,
      disjoint and owned; pools within their blocks and disjoint. */
  lemma SafetyOfSpec(s: SubnetSpec, es: seq<Event>, k: nat)
    requires Admitted(s) && Sturdy(s) && Legal(SubnetOf(s), EMPTY, es) && k <= |es|
    ensures var sub, t := SubnetOf(s), After(EMPTY, es[..k]);
            && (forall n :: n in t.blocks ==> t.blocks[n] in t.pools)
            && (forall n, a :: n in t.blocks && a / sub.step == NumberOf(sub, n) ==> InCidr(Bits(s.version), s.cidr, a))
            && (forall m, n :: m in t.blocks && n in t.blocks && m != n ==> NumberOf(sub, m) != NumberOf(sub, n))
            && (forall p :: Active(t, p) ==> Contained(sub, t, p))
            && (forall p, r, a :: Active(t, p) && Active(t, r) && p != r && In(t.pools[p], a) ==> !In(t.pools[r], a))
  {
    AdmittedNamedIff(s);
    var sub, t := SubnetOf(s), After(EMPTY, es[..k]);
    Safety(sub, es, k);
    RunKeepsInv(sub, EMPTY, es, k);
    forall n, a | n in t.blocks && a / sub.step == NumberOf(sub, n) ensures InCidr(Bits(s.version), s.cidr, a) {
      GridIsCidr(sub, s, a);
    }
  }

  /** Over runs whose controllers act on current statuses, and whose pods get no address from a
      pool in clean-up, no address of an admitted subnet is recorded twice. */
  lemma AddressesUniqueOfSpec(s: SubnetSpec, acts: seq<Act>, j: IPKey, k: IPKey)
    requires Admitted(s) && Sturdy(s)
    requires ActRun(SubnetOf(s), EMPTY, acts) && FromUse(SubnetOf(s), EMPTY, acts)
    requires var t := Outcome(SubnetOf(s), EMPTY, acts); j in t.ips && k in t.ips && j != k
    ensures Names.AddressOf(s.version, j.name) != Names.AddressOf(s.version, k.name)
  {
    AdmittedNamedIff(s);
    AddressesUnique(SubnetOf(s), EMPTY, acts);
  }

  /** What a further assignment makes of that: after one from a pool in clean-up, such acts can lead
      to an address recorded twice, and after one from a pool in use they cannot. */
  lemma AssignTwiceIffOfSpec(s: SubnetSpec, acts: seq<Act>, act: Act)
    requires Admitted(s) && Sturdy(s) && act.Assign? && InCidr(Bits(s.version), s.cidr, act.a)
    requires ActRun(SubnetOf(s), EMPTY, acts) && FromUse(SubnetOf(s), EMPTY, acts)
    requires May(SubnetOf(s), Outcome(SubnetOf(s), EMPTY, acts), act)
    ensures CanSpoil(SubnetOf(s), Outcome(SubnetOf(s), EMPTY, acts), act) <==>
            act.pool in Outcome(SubnetOf(s), EMPTY, acts).cleaning
  {
    AdmittedNamedIff(s);
    var sub := SubnetOf(s);
    GridIsCidr(sub, s, act.a);
    RunTwiceIff(sub, acts, act);
  }

  /** Pools of different subnets share no address: their prefixes do not meet. */
  lemma SubnetsApart(s: SubnetSpec, u: SubnetSpec, p: Parsed, q: Parsed, a: int)
    requires Admitted(s) && Admitted(u) && WellFormed(p) && WellFormed(q) && !Meets(p, q)
    requires s.version == p.version == u.version == q.version && s.cidr == p.cidr && u.cidr == q.cidr
    requires InGrid(SubnetOf(s), a / SubnetOf(s).step)
    ensures !InGrid(SubnetOf(u), a / SubnetOf(u).step)
  {
    AdmittedNamedIff(s);
    AdmittedNamedIff(u);
    GridIsCidr(SubnetOf(s), s, a);
    GridIsCidr(SubnetOf(u), u, a);
  }

  const CODEC := Allocator.Codec((v, a) => Names.ComputedName(a), (v, n) => Names.AddressOf(v, n))

  /** A merged list of addresses of the family is a free list the allocator can use exactly if no
      address of it begins with a zero byte. */
  lemma CodecOffersIff(v: Family, free: seq<Range>)
    requires v != Unknown && Merged(free) && forall a :: In(free, a) ==> 0 <= a < Pow(Bits(v))
    ensures Allocator.Offer(CODEC, v, free) <==> forall a :: In(free, a) ==> Lowest(v) <= a
  {
    forall a | In(free, a) ensures Readable(CODEC, v, a) <==> Lowest(v) <= a {
      Names.ComputedRoundTripIff(v, a);
    }
    OfferIff(CODEC, v, free);
  }

  predicate Readable(codec: Allocator.Codec, v: Family, a: int) {
    codec.ipParse(v, codec.ipName(v, a)) == Some(a)
  }

  lemma OfferIff(codec: Allocator.Codec, v: Family, free: seq<Range>)
    requires Merged(free)
    ensures Allocator.Offer(codec, v, free) <==> forall a :: In(free, a) ==> Readable(codec, v, a)
  {
    if Allocator.Offer(codec, v, free) {
      forall a | In(free, a) ensures Readable(codec, v, a) {
        var _ := codec.ipParse(v, codec.ipName(v, a));
      }
    } else {
      var a :| In(free, a) && codec.ipParse(v, codec.ipName(v, a)) != Some(a);
      assert !Readable(codec, v, a);
    }
  }
}
