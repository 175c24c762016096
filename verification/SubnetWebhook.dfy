/** The admission webhook for subnets: defaults, spec checks and what an update may change. */
module SubnetWebhook {
  import opened Wrappers
  import opened Pow2
  import opened Ranges
  import opened RangeObjects
  import opened Iterators
  import opened Grid
  import opened Subnets
  import opened SubnetController

  // ---------------------------------------------------------------- prefixes

  /** A parsed CIDR text: its family, the address as written and the masked prefix. */
  datatype Parsed = Parsed(version: Family, ip: int, cidr: Cidr)

  /** How texts are read: CIDRs and single exclusions. */
  datatype Reader = Reader(cidrOf: string -> Option<Parsed>, rangeOf: string -> Option<(Family, Range)>)

  ghost predicate WellFormed(p: Parsed) {
    && (p.version == IPv4 || p.version == IPv6)
    && Aligned(Bits(p.version), p.cidr) && p.cidr.base + CidrSize(Bits(p.version), p.cidr) <= Pow(Bits(p.version))
    && InCidr(Bits(p.version), p.cidr, p.ip)
  }

  ghost predicate Lawful(r: Reader) {
    && (forall t :: r.cidrOf(t).Some? ==> WellFormed(r.cidrOf(t).value))
    && (forall t :: r.rangeOf(t).Some? ==> var (v, g) := r.rangeOf(t).value; 0 <= g.lo <= g.hi < Pow(Bits(v)))
  }

  /** Some address lies in both. */
  ghost predicate Meets(p: Parsed, q: Parsed)
    requires WellFormed(p) && WellFormed(q)
  {
    p.version == q.version && exists a :: InCidr(Bits(p.version), p.cidr, a) && InCidr(Bits(p.version), q.cidr, a)
  }

  /** The test the webhook makes: either prefix contains the other's network address. */
  predicate TouchesBase(p: Parsed, q: Parsed)
    requires 0 <= p.cidr.ones <= Bits(p.version) && 0 <= q.cidr.ones <= Bits(q.version)
  {
    p.version == q.version &&
    (InCidr(Bits(p.version), p.cidr, q.cidr.base) || InCidr(Bits(q.version), q.cidr, p.cidr.base))
  }

  ghost predicate Covers(p: Parsed, q: Parsed)
    requires WellFormed(p) && WellFormed(q)
  {
    p.version == q.version &&
    forall a :: InCidr(Bits(q.version), q.cidr, a) ==> InCidr(Bits(p.version), p.cidr, a)
  }

  /** Two points suffice, and aligned prefixes nest or are disjoint. */
  lemma TwoPointsSuffice(p: Parsed, q: Parsed)
    requires WellFormed(p) && WellFormed(q)
    ensures TouchesBase(p, q) <==> Meets(p, q)
    ensures Meets(p, q) <==> Covers(p, q) || Covers(q, p)
  {
    if p.version == q.version {
      var bits := Bits(p.version);
      assert InCidr(bits, p.cidr, p.cidr.base) && InCidr(bits, q.cidr, q.cidr.base);
      forall a, x | InCidr(bits, p.cidr, a) && InCidr(bits, q.cidr, a)
        ensures if p.cidr.ones <= q.cidr.ones then InCidr(bits, q.cidr, x) ==> InCidr(bits, p.cidr, x)
                else InCidr(bits, p.cidr, x) ==> InCidr(bits, q.cidr, x)
      {
        if p.cidr.ones <= q.cidr.ones && InCidr(bits, q.cidr, x) { Inner(bits, p.cidr, q.cidr, a, x); }
        if p.cidr.ones > q.cidr.ones && InCidr(bits, p.cidr, x) { Inner(bits, q.cidr, p.cidr, a, x); }
      }
    }
  }

  /** A longer prefix that shares an address with a shorter one lies in it. */
  lemma Inner(bits: nat, c: Cidr, d: Cidr, a: int, x: int)
    requires Aligned(bits, c) && Aligned(bits, d) && c.ones <= d.ones && InCidr(bits, c, a)
    requires InCidr(bits, d, a) && InCidr(bits, d, x)
    ensures InCidr(bits, c, x)
  {
    var size := CidrSize(bits, c);
    assert c.base == c.base / size * size;
    DivBlock(a, c.base / size, size);
    DivBlock(x, c.base / size, size);
    if c.ones < d.ones {
      InnerBlock(bits, d, c.ones, a);
      InnerBlock(bits, d, c.ones, x);
    } else {
      assert d.base == d.base / size * size;
      DivBlock(a, d.base / size, size);
      DivBlock(x, d.base / size, size);
    }
  }

  // ---------------------------------------------------------------- the resource

  datatype Fault =
    | Undefaulted | InvalidCIDR | NotNetworkAddress | WrongFamily | ListFailed | OtherUnreadable(name: string)
    | Overlaps(name: string) | BadExcluded(index: nat) | BlockSizeOutOfRange | BlockLargerThanCIDR
    | VersionFrozen | BlockSizeFrozen | NotReady | InUse | Terminating

  /** Another subnet in the store. */
  datatype Other = Other(name: string, cidr: string)

  class SubnetResource {
    const name: string
    const terminating: bool
    var version: Option<Family>
    var cidr: string
    var excluded: seq<string>
    var blockSize: Option<int>
    var finalizer: bool
    var free: Option<seq<Range>>

    constructor (name: string, terminating: bool, version: Option<Family>, cidr: string, excluded: seq<string>,
                 blockSize: Option<int>, finalizer: bool, free: Option<seq<Range>>)
      ensures this.name == name && this.terminating == terminating && this.version == version && this.cidr == cidr
      ensures this.excluded == excluded && this.blockSize == blockSize
      ensures this.finalizer == finalizer && this.free == free
    {
      this.name := name;
      this.terminating := terminating;
      this.version := version;
      this.cidr := cidr;
      this.excluded := excluded;
      this.blockSize := blockSize;
      this.finalizer := finalizer;
      this.free := free;
    }

    /** Fills in family and block size; values that are set stay. */
    method Mutate(r: Reader)
      requires Lawful(r)
      modifies this`finalizer, this`version, this`blockSize
      ensures terminating ==> version == old(version) && blockSize == old(blockSize) && finalizer == old(finalizer)
      ensures !terminating ==> finalizer
      ensures old(version).Some? ==> version == old(version)
      ensures old(blockSize).Some? ==> blockSize == old(blockSize)
      ensures !terminating && old(version) == None ==>
                version == if r.cidrOf(cidr) == None then None else Some(r.cidrOf(cidr).value.version)
      ensures !terminating && version.Some? ==> blockSize.Some?
      ensures !terminating && version.Some? && old(blockSize) == None ==>
                blockSize == Some(Bits(version.value) - 2)
    {
      if terminating {
        return;
      }
      if !finalizer {
        finalizer := true;
      }
      if version == None {
        var parsed := r.cidrOf(cidr);
        if parsed == None {
          return;
        }
        version := Some(parsed.value.version);
      }
      if blockSize == None {
        blockSize := if version.value == IPv4 then Some(30) else Some(126);
      }
    }

    // -------------------------------------------------------------- spec

    /** The prefix is a network address of the right family and meets no other subnet. */
    method ValidateCIDR(r: Reader, listed: Option<seq<Other>>) returns (fault: Option<Fault>)
      requires Lawful(r) && (version.Some? || r.cidrOf(cidr) == None)
      ensures fault == None <==> Plain(r, cidr, version) && listed.Some? && Alone(r, name, cidr, listed.value)
      ensures fault.Some? ==> Explains(r, name, cidr, version, listed, fault.value)
    {
      var parsed := r.cidrOf(cidr);
      if parsed == None {
        return Some(InvalidCIDR);
      }
      var p := parsed.value;
      if p.ip != p.cidr.base {
        return Some(NotNetworkAddress);
      }
      if p.version == IPv4 {
        if version.value != IPv4 {
          return Some(WrongFamily);
        }
      } else {
        if version.value != IPv6 {
          return Some(WrongFamily);
        }
      }
      if listed == None {
        return Some(ListFailed);
      }
      for i := 0 to |listed.value|
        invariant Alone(r, name, cidr, listed.value[..i])
      {
        var o := listed.value[i];
        assert o in listed.value && listed.value[..i + 1] == listed.value[..i] + [o];
        if o.name == name {
          continue;
        }
        var other := r.cidrOf(o.cidr);
        if other == None {
          return Some(OtherUnreadable(o.name));
        }
        TwoPointsSuffice(p, other.value);
        if TouchesBase(p, other.value) {
          return Some(Overlaps(o.name));
        }
      }
      assert listed.value[..|listed.value|] == listed.value;
      fault := None;
    }

    /** Every exclusion is a range of the subnet's family. */
    method ValidateExcluded(r: Reader) returns (fault: Option<Fault>)
      requires version.Some?
      ensures fault == None <==> Excludes(r, excluded, version.value)
      ensures fault.Some? ==>
                && fault.value.BadExcluded? && fault.value.index < |excluded|
                && Excludes(r, excluded[..fault.value.index], version.value)
                && !Excludes(r, [excluded[fault.value.index]], version.value)
    {
      for i := 0 to |excluded|
        invariant Excludes(r, excluded[..i], version.value)
      {
        assert excluded[i] in excluded && excluded[..i + 1] == excluded[..i] + [excluded[i]];
        var range := r.rangeOf(excluded[i]);
        if range == None {
          return Some(BadExcluded(i));
        }
        var v := range.value.0;
        if (v == IPv4 && version.value == IPv4) || (v == IPv6 && version.value == IPv6) {
          continue;
        }
        return Some(BadExcluded(i));
      }
      assert excluded[..|excluded|] == excluded;
      fault := None;
    }

    method ValidateBlockSize(r: Reader) returns (fault: Option<Fault>)
      requires version.Some? && blockSize.Some?
      ensures fault == None <==> BlockFits(r, cidr, version.value, blockSize.value)
      ensures fault.Some? ==>
                fault.value == if !BlockSizeFits(version.value, blockSize.value) then BlockSizeOutOfRange
                               else if r.cidrOf(cidr) == None then InvalidCIDR else BlockLargerThanCIDR
    {
      if version.value == IPv4 {
        if blockSize.value < 26 || blockSize.value > 31 {
          return Some(BlockSizeOutOfRange);
        }
      } else {
        if blockSize.value < 122 || blockSize.value > 127 {
          return Some(BlockSizeOutOfRange);
        }
      }
      var parsed := r.cidrOf(cidr);
      if parsed == None {
        return Some(InvalidCIDR);
      }
      if blockSize.value < parsed.value.cidr.ones {
        return Some(BlockLargerThanCIDR);
      }
      fault := None;
    }

    method ValidateSubnetSpec(r: Reader, listed: Option<seq<Other>>) returns (faults: seq<Fault>)
      requires Lawful(r) && (version.Some? ==> blockSize.Some?) && (version.Some? || r.cidrOf(cidr) == None)
      ensures faults == [] <==> Accepted(r, name, version, cidr, excluded, blockSize, listed)
      ensures Undefaulted !in faults
    {
      var fault := ValidateCIDR(r, listed);
      if fault.Some? {
        return [fault.value];
      }
      faults := [];
      fault := ValidateExcluded(r);
      if fault.Some? {
        faults := faults + [fault.value];
      }
      fault := ValidateBlockSize(r);
      if fault.Some? {
        faults := faults + [fault.value];
      }
    }

    // -------------------------------------------------------------- update

    method ValidateSubnetFreeze(prior: SubnetResource) returns (faults: seq<Fault>)
      ensures faults == [] <==> version.Some? && blockSize.Some? && prior.version.Some? && prior.blockSize.Some? &&
                                version == prior.version && blockSize == prior.blockSize
      ensures Undefaulted in faults <==> Bare(this) || Bare(prior)
      ensures !Bare(this) && !Bare(prior) ==>
                faults == (if version == prior.version then [] else [VersionFrozen]) +
                          (if blockSize == prior.blockSize then [] else [BlockSizeFrozen])
    {
      if version == None || prior.version == None || blockSize == None || prior.blockSize == None {
        return [Undefaulted];
      }
      faults := [];
      if version != prior.version {
        faults := faults + [VersionFrozen];
      }
      if blockSize != prior.blockSize {
        faults := faults + [BlockSizeFrozen];
      }
    }

    /** Addresses given up must all be free. */
    method ValidateIPInUse(r: Reader, prior: SubnetResource) returns (fault: Option<Fault>)
      requires Lawful(r) && version.Some? && prior.version == version && Plain(r, cidr, version)
      requires r.cidrOf(prior.cidr).Some? ==> r.cidrOf(prior.cidr).value.version == version.value
      requires free.Some? ==> Merged(free.value)
      ensures fault == None <==>
              cidr == prior.cidr ||
              (free.Some? &&
               (r.cidrOf(prior.cidr).Some? ==>
                  GivesUpOnly(r.cidrOf(prior.cidr).value, r.cidrOf(cidr).value, free.value)))
      ensures fault.Some? ==> fault.value == if free == None then NotReady else InUse
    {
      if cidr == prior.cidr {
        return None;
      }
      if free == None {
        return Some(NotReady);
      }
      var p := r.cidrOf(cidr).value;
      var was := r.cidrOf(prior.cidr);
      if was == None {
        return None;
      }
      var bits := Bits(version.value);
      OneCidr(bits, p.cidr);
      OneCidr(bits, was.value.cidr);
      var ranges := new IPRanges(p.version, [ToRange(bits, p.cidr)]);
      var oldRanges := new IPRanges(was.value.version, [ToRange(bits, was.value.cidr)]);
      var reduce := oldRanges.Diff(ranges);
      MergedProper(reduce.ranges);
      FlatInAll(reduce.ranges);
      ghost var given := reduce.ranges;
      forall a ensures In(given, a) <==> InCidr(bits, was.value.cidr, a) && !InCidr(bits, p.cidr, a) {}
      var n := reduce.Count();
      if n == 0 {
        NothingIn(given);
        return None;
      }
      MergedProper(free.value);
      var offered := new IPRanges.Parse(version.value, free.value);
      var invalid := reduce.Diff(offered);
      MergedProper(invalid.ranges);
      FlatInAll(invalid.ranges);
      n := invalid.Count();
      HasFirst(Flat(invalid.ranges));
      if n > 0 {
        assert In(invalid.ranges, Flat(invalid.ranges)[0]);
        return Some(InUse);
      }
      NothingIn(invalid.ranges);
      fault := None;
    }

    method ValidateUpdate(r: Reader, prior: SubnetResource, listed: Option<seq<Other>>) returns (faults: seq<Fault>)
      requires Lawful(r) && (free.Some? ==> Merged(free.value))
      requires prior.version.Some? && r.cidrOf(prior.cidr).Some? ==>
                 r.cidrOf(prior.cidr).value.version == prior.version.value
      ensures faults == [] <==> MayReplace(r, this, prior, listed)
      ensures Undefaulted in faults <==> Bare(this) || Bare(prior)
    {
      faults := ValidateSubnetFreeze(prior);
      if faults != [] {
        return;
      }
      faults := ValidateSubnetSpec(r, listed);
      if faults != [] {
        return;
      }
      var fault := ValidateIPInUse(r, prior);
      if fault.Some? {
        faults := faults + [fault.value];
      }
    }

    /** A request to update: defaults first, then the checks. An update of a terminating subnet
        passes only once the finalizer is gone. Of any other, the checks run into an unset field
        exactly if the stored subnet lacks one or the new one names no family and no readable
        prefix. */
    method Update(r: Reader, prior: SubnetResource, listed: Option<seq<Other>>) returns (faults: seq<Fault>)
      requires Lawful(r) && prior != this && (free.Some? ==> Merged(free.value))
      requires prior.version.Some? && r.cidrOf(prior.cidr).Some? ==>
                 r.cidrOf(prior.cidr).value.version == prior.version.value
      modifies this`finalizer, this`version, this`blockSize
      ensures terminating ==> faults == (if old(finalizer) then [Terminating] else [])
      ensures !terminating ==>
                (Undefaulted in faults <==> Bare(prior) || (old(version) == None && r.cidrOf(cidr) == None))
      ensures !terminating ==> (faults == [] <==> MayReplace(r, this, prior, listed))
    {
      Mutate(r);
      if terminating {
        return if finalizer then [Terminating] else [];
      }
      faults := ValidateUpdate(r, prior, listed);
    }
  }

  /** Family or block size is not set. */
  predicate Bare(s: SubnetResource)
    reads s
  {
    s.version == None || s.blockSize == None
  }

  /** The fields that may not change are as before, the spec is acceptable, and what the old
      prefix had and the new one has not is free. */
  ghost predicate MayReplace(r: Reader, now: SubnetResource, prior: SubnetResource, listed: Option<seq<Other>>)
    requires Lawful(r)
    reads now, prior
  {
    && !Bare(now) && now.version == prior.version && now.blockSize == prior.blockSize
    && Accepted(r, now.name, now.version, now.cidr, now.excluded, now.blockSize, listed)
    && (now.cidr == prior.cidr ||
        (now.free.Some? && (r.cidrOf(prior.cidr).Some? ==>
                              GivesUpOnly(r.cidrOf(prior.cidr).value, r.cidrOf(now.cidr).value, now.free.value))))
  }

  /** A stored subnet with both fields set is asked to become one without a family and with an
      empty prefix: the checks run into the unset family. */
  method UndefaultedUpdate(r: Reader, name: string, listed: Option<seq<Other>>) returns (faults: seq<Fault>)
    requires Lawful(r) && r.cidrOf("") == None
    requires r.cidrOf("10.0.0.0/24") == Some(Parsed(IPv4, 0x0a00_0000, Cidr(0x0a00_0000, 24)))
    ensures Undefaulted in faults
  {
    var prior := new SubnetResource(name, false, Some(IPv4), "10.0.0.0/24", [], Some(30), true, None);
    var now := new SubnetResource(name, false, None, "", [], None, true, None);
    faults := now.Update(r, prior, listed);
  }

  /** The block size is in the family's range and no shorter than the prefix. */
  ghost predicate BlockFits(r: Reader, cidr: string, version: Family, blockSize: int) {
    && BlockSizeFits(version, blockSize)
    && r.cidrOf(cidr).Some? && r.cidrOf(cidr).value.cidr.ones <= blockSize
  }

  /** The first of the checks on the prefix that fails, and for another subnet one that makes it fail. */
  ghost predicate Explains(r: Reader, name: string, cidr: string, version: Option<Family>,
                           listed: Option<seq<Other>>, fault: Fault)
    requires Lawful(r)
  {
    if r.cidrOf(cidr) == None then fault == InvalidCIDR
    else
      var p := r.cidrOf(cidr).value;
      if p.ip != p.cidr.base then fault == NotNetworkAddress
      else if version != Some(p.version) then fault == WrongFamily
      else if listed == None then fault == ListFailed
      else
        exists o :: o in listed.value && o.name != name &&
                    match r.cidrOf(o.cidr)
                    case None => fault == OtherUnreadable(o.name)
                    case Some(q) => fault == Overlaps(o.name) && Meets(p, q)
  }

  /** No other listed subnet is unreadable or overlaps. */
  ghost predicate Alone(r: Reader, name: string, cidr: string, listed: seq<Other>)
    requires Lawful(r) && r.cidrOf(cidr).Some?
  {
    forall o :: o in listed && o.name != name ==>
                  r.cidrOf(o.cidr).Some? && !Meets(r.cidrOf(cidr).value, r.cidrOf(o.cidr).value)
  }

  /** What makes a spec acceptable. */
  ghost predicate Accepted(r: Reader, name: string, version: Option<Family>, cidr: string, excluded: seq<string>,
                           blockSize: Option<int>, listed: Option<seq<Other>>)
    requires Lawful(r)
  {
    && Plain(r, cidr, version) && blockSize.Some? && listed.Some? && Alone(r, name, cidr, listed.value)
    && Excludes(r, excluded, version.value) && BlockFits(r, cidr, version.value, blockSize.value)
  }

  /** An accepted spec is what the controllers rely on. */
  lemma AcceptedIsAdmitted(r: Reader, name: string, version: Option<Family>, cidr: string, excluded: seq<string>,
                           blockSize: Option<int>, listed: Option<seq<Other>>)
    requires Lawful(r) && Accepted(r, name, version, cidr, excluded, blockSize, listed)
    ensures Admitted(SpecOf(r, version.value, cidr, excluded, blockSize.value))
  {
    var s := SpecOf(r, version.value, cidr, excluded, blockSize.value);
    forall i | 0 <= i < |s.excluded| ensures 0 <= s.excluded[i].lo <= s.excluded[i].hi < Pow(Bits(s.version)) {
      assert excluded[i] in excluded;
    }
  }

  /** A network address of the stated family. */
  ghost predicate Plain(r: Reader, cidr: string, version: Option<Family>) {
    r.cidrOf(cidr).Some? &&
    var p := r.cidrOf(cidr).value; p.ip == p.cidr.base && version == Some(p.version)
  }

  ghost predicate Excludes(r: Reader, excluded: seq<string>, version: Family) {
    forall t :: t in excluded ==>
                  (version == IPv4 || version == IPv6) && r.rangeOf(t).Some? && r.rangeOf(t).value.0 == version
  }

  /** The spec the controllers see. */
  function SpecOf(r: Reader, version: Family, cidr: string, excluded: seq<string>, blockSize: int): SubnetSpec
    requires r.cidrOf(cidr).Some? && forall t :: t in excluded ==> r.rangeOf(t).Some?
  {
    SubnetSpec(version, r.cidrOf(cidr).value.cidr,
               seq(|excluded|, i requires 0 <= i < |excluded| => r.rangeOf(excluded[i]).value.1), blockSize)
  }

  /** What the old prefix had and the new one has not is free. */
  ghost predicate GivesUpOnly(was: Parsed, now: Parsed, free: seq<Range>)
    requires WellFormed(was) && WellFormed(now)
  {
    forall a :: InCidr(Bits(was.version), was.cidr, a) && !InCidr(Bits(now.version), now.cidr, a) ==> In(free, a)
  }

  lemma OneCidr(bits: nat, c: Cidr)
    requires Aligned(bits, c)
    ensures Proper([ToRange(bits, c)])
    ensures forall a :: In([ToRange(bits, c)], a) <==> InCidr(bits, c, a)
  {
    assert [ToRange(bits, c)][1..] == [];
  }

  lemma NothingIn(rs: seq<Range>)
    requires |Flat(rs)| == 0
    ensures forall a :: !In(rs, a)
  {
    FlatInAll(rs);
  }

  // ---------------------------------------------------------------- what updates keep

  /** The address of block q that the old prefix had is in the new one if it is not free. */
  lemma BlockSurvives(prior: SubnetSpec, now: SubnetSpec, sub: Subnet, sub': Subnet, q: int)
    requires Admitted(prior) && Admitted(now) && Named(sub) && Describes(sub, prior) && Describes(sub', now)
    requires sub'.nameOf == sub.nameOf && now.version == prior.version && now.blockSize == prior.blockSize
    requires InGrid(sub, q)
    requires var bits := Bits(now.version);
             InCidr(bits, prior.cidr, q * sub.step) ==> InCidr(bits, now.cidr, q * sub.step)
    ensures InGrid(sub', q) && Name(sub', q) == Name(sub, q)
  {
    DivOffset(q, 0, sub.step);
    GridIsCidr(sub, prior, q * sub.step);
    GridIsCidr(sub', now, q * sub.step);
  }

  /** The spec of an accepted resource. */
  function SpecIn(r: Reader, s: SubnetResource): SubnetSpec
    requires s.version.Some? && s.blockSize.Some? && r.cidrOf(s.cidr).Some?
    requires forall t :: t in s.excluded ==> r.rangeOf(t).Some?
    reads s
  {
    SpecOf(r, s.version.value, s.cidr, s.excluded, s.blockSize.value)
  }

  ghost predicate AcceptedIn(r: Reader, s: SubnetResource, listed: Option<seq<Other>>)
    requires Lawful(r)
    reads s
  {
    && Accepted(r, s.name, s.version, s.cidr, s.excluded, s.blockSize, listed)
    && Admitted(SpecIn(r, s))
  }

  /** An update that the webhook lets through under a fresh status keeps every block in use: it lies
      in the new subnet, on the same grid and under the same name. */
  lemma UsedBlocksSurvive(r: Reader, prior: SubnetResource, now: SubnetResource, before: Option<seq<Other>>,
                          listed: Option<seq<Other>>, sub: Subnet, sub': Subnet, names: seq<string>, st: SubnetStatus)
    requires Lawful(r) && AcceptedIn(r, prior, before) && AcceptedIn(r, now, listed)
    requires MayReplace(r, now, prior, listed) && now.free == Some(st.free)
    requires Named(sub) && Describes(sub, SpecIn(r, prior)) && Describes(sub', SpecIn(r, now))
    requires sub'.nameOf == sub.nameOf
    requires Distinct(names) && (forall n :: n in names ==> IsBlock(sub, n))
    requires Truthful(SpecIn(r, prior), sub, names, st)
    ensures forall n :: n in names ==>
              IsBlock(sub', n) && InGrid(sub', NumberOf(sub, n)) && Name(sub', NumberOf(sub, n)) == n
  {
    var was, next := r.cidrOf(prior.cidr).value, r.cidrOf(now.cidr).value;
    KeptBlocksSurvive(SpecIn(r, prior), SpecIn(r, now), sub, sub', names, st, was, next);
  }

  lemma KeptBlocksSurvive(prior: SubnetSpec, now: SubnetSpec, sub: Subnet, sub': Subnet, names: seq<string>,
                          st: SubnetStatus, was: Parsed, next: Parsed)
    requires Admitted(prior) && Admitted(now) && Named(sub) && Describes(sub, prior) && Describes(sub', now)
    requires sub'.nameOf == sub.nameOf && now.version == prior.version && now.blockSize == prior.blockSize
    requires WellFormed(was) && WellFormed(next) && was.version == next.version == prior.version
    requires was.cidr == prior.cidr && next.cidr == now.cidr && GivesUpOnly(was, next, st.free)
    requires Distinct(names) && (forall n :: n in names ==> IsBlock(sub, n)) && Truthful(prior, sub, names, st)
    ensures forall n :: n in names ==>
              IsBlock(sub', n) && InGrid(sub', NumberOf(sub, n)) && Name(sub', NumberOf(sub, n)) == n
  {
    forall n | n in names
      ensures IsBlock(sub', n) && InGrid(sub', NumberOf(sub, n)) && Name(sub', NumberOf(sub, n)) == n
    {
      NumberName(sub, n);
      NotFree(prior, sub, names, st, n);
      BlockSurvives(prior, now, sub, sub', NumberOf(sub, n));
    }
  }

  /** A block of a fresh status is not offered. */
  lemma NotFree(prior: SubnetSpec, sub: Subnet, names: seq<string>, st: SubnetStatus, n: string)
    requires Admitted(prior) && Named(sub) && Describes(sub, prior) && n in names && Truthful(prior, sub, names, st)
    ensures !In(st.free, NumberOf(sub, n) * sub.step)
  {
    forall a | In(st.free, a) ensures a / sub.step !in Taken(sub, names) {}
    TakenHas(sub, names, n);
    NotAmong(st.free, Taken(sub, names), sub.step, NumberOf(sub, n));
  }

  lemma NotAmong(free: seq<Range>, taken: set<int>, step: int, q: int)
    requires step > 0 && q in taken && forall a :: In(free, a) ==> a / step !in taken
    ensures !In(free, q * step)
  {
    DivOffset(q, 0, step);
  }

  lemma TakenHas(sub: Subnet, names: seq<string>, n: string)
    requires sub.step > 0 && n in names
    ensures NumberOf(sub, n) in Taken(sub, names)
  {
    var i :| 0 <= i < |names| && names[i] == n;
    assert Numbers(sub, names)[i] == NumberOf(sub, n);
  }

  /** The subnets of a store, by name. */
  ghost predicate Apart(subnets: map<string, Parsed>) {
    && (forall n :: n in subnets ==> WellFormed(subnets[n]))
    && forall m, n :: m in subnets && n in subnets && m != n ==> !Meets(subnets[m], subnets[n])
  }

  /** Serialized admission keeps all subnets disjoint. */
  lemma AdmissionKeepsApart(r: Reader, subnets: map<string, Parsed>, listed: seq<Other>, name: string, p: Parsed)
    requires Apart(subnets) && WellFormed(p)
    requires forall n :: n in subnets ==> exists o :: o in listed && o.name == n && r.cidrOf(o.cidr) == Some(subnets[n])
    requires forall o :: o in listed && o.name != name && r.cidrOf(o.cidr).Some? ==>
               WellFormed(r.cidrOf(o.cidr).value) && !Meets(p, r.cidrOf(o.cidr).value)
    ensures Apart(subnets[name := p])
  {
    forall m | m in subnets && m != name ensures !Meets(p, subnets[m]) && !Meets(subnets[m], p) {
      var o :| o in listed && o.name == m && r.cidrOf(o.cidr) == Some(subnets[m]);
    }
  }
}
