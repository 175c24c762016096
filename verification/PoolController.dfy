/** The IPPool controller: the status of a pool and its clean-up. */
module PoolController {
  import opened Wrappers
  import opened SetSizes
  import opened Ranges
  import opened RangeObjects
  import opened Subnets
  import opened Cluster
  import opened Stores
  import opened ClaimController

  // ---------------------------------------------------------------- status

  datatype PoolCount = PoolCount(total: int, used: int, free: int)

  datatype FullStatus = FullStatus(free: seq<Range>, count: PoolCount)

  /** The addresses a list of IP names stands for. */
  function Addresses(sub: Subnet, names: seq<string>): set<int> {
    set n | n in names && sub.ipParse(n).Some? :: sub.ipParse(n).value
  }

  ghost predicate AllParse(sub: Subnet, names: seq<string>) {
    forall n :: n in names ==> sub.ipParse(n).Some?
  }

  /** IP names to unmerged ranges of one address each. */
  method ParseRangesFromIPs(sub: Subnet, names: seq<string>) returns (ok: bool, r: IPRanges)
    requires sub.version != Unknown
    ensures fresh(r) && Proper(r.ranges)
    ensures ok <==> AllParse(sub, names)
    ensures ok ==> |Flat(r.ranges)| == |names| && (forall a :: In(r.ranges, a) <==> a in Addresses(sub, names))
    ensures ok ==> r.version == if names == [] then Unknown else sub.version
  {
    var ranges: seq<Range> := [];
    for i := 0 to |names|
      invariant |ranges| == i && AllParse(sub, names[..i])
      invariant Singles(sub, names[..i], ranges)
    {
      match sub.ipParse(names[i])
      case None =>
        r := new IPRanges(Unknown, []);
        return false, r;
      case Some(a) =>
        SinglesAppend(sub, names[..i], ranges, names[i], a);
        assert names[..i + 1] == names[..i] + [names[i]];
        ranges := ranges + [Range(a, a)];
    }
    assert names[..|names|] == names;
    SizeIsFlat(ranges);
    ok := true;
    r := new IPRanges.Parse(sub.version, ranges);
  }

  ghost predicate Singles(sub: Subnet, names: seq<string>, ranges: seq<Range>) {
    Proper(ranges) && Size(ranges) == |names| && forall a :: In(ranges, a) <==> a in Addresses(sub, names)
  }

  lemma SinglesAppend(sub: Subnet, names: seq<string>, ranges: seq<Range>, name: string, a: int)
    requires Singles(sub, names, ranges) && sub.ipParse(name) == Some(a)
    ensures Singles(sub, names + [name], ranges + [Range(a, a)])
  {
    assert [Range(a, a)][1..] == [];
    ProperConcat(ranges, [Range(a, a)]);
    SizeConcat(ranges, Range(a, a));
    forall x ensures In(ranges + [Range(a, a)], x) <==> x in Addresses(sub, names + [name]) {
      InConcat(ranges, [Range(a, a)], x);
      assert name in names + [name];
    }
  }

  lemma {:induction false} SizeConcat(rs: seq<Range>, r: Range)
    ensures Size(rs + [r]) == Size(rs) + (r.hi - r.lo + 1)
  {
    if rs == [] {
      assert rs + [r] == [r];
    } else {
      assert (rs + [r])[1..] == rs[1..] + [r];
      SizeConcat(rs[1..], r);
    }
  }

  /** A status that tells the truth about a pool's ranges and a list of addresses. */
  ghost predicate Exact(sub: Subnet, ranges: seq<Range>, names: seq<string>, st: FullStatus) {
    && Merged(st.free)
    && (forall a :: In(st.free, a) <==> In(ranges, a) && a !in Addresses(sub, names))
    && st.count == PoolCount(|Flat(ranges)|, |names|, |Flat(st.free)|)
  }

  class PoolObject {
    var ranges: seq<Range>
    var status: Option<FullStatus>

    constructor (ranges: seq<Range>)
      ensures this.ranges == ranges && status == None
    {
      this.ranges := ranges;
      status := None;
    }

    /** Recomputes the status from the listed addresses. */
    method Reconcile(sub: Subnet, names: seq<string>) returns (ok: bool)
      requires sub.version != Unknown && Merged(ranges)
      modifies this`status
      ensures ok <==> AllParse(sub, names)
      ensures ok ==> status.Some? && Exact(sub, ranges, names, status.value)
      ensures !ok ==> status == old(status)
    {
      MergedProper(ranges);
      var total := new IPRanges.Parse(sub.version, ranges);
      var used;
      ok, used := ParseRangesFromIPs(sub, names);
      if !ok {
        return;
      }
      var free := total.DeepCopy();
      free := free.Diff(used);
      MergedProper(free.ranges);
      var totalSize := total.Count();
      var usedSize := used.Count();
      var freeSize := free.Count();
      var current := FullStatus(free.ranges, PoolCount(totalSize, usedSize, freeSize));
      if status != Some(current) {
        status := Some(current);
      }
    }
  }

  /** What the claim controller and the allocator read of it. */
  function Seen(st: FullStatus): PoolStatus {
    PoolStatus(st.count.used, st.free)
  }

  /** The addresses of pool p in the store, all of them listed once. */
  ghost predicate Listed(s: State, p: PoolKey, names: seq<string>) {
    Distinct(names) && forall n :: n in names <==> IPKey(p.ns, n) in s.ips && s.ips[IPKey(p.ns, n)] == p
  }

  /** Over fresh runs a fresh status is consistent with its pool, as scaling down needs it. */
  lemma FreshStatusConsistent(sub: Subnet, s: State, p: PoolKey, names: seq<string>, st: FullStatus)
    requires sub.step > 0 && Inv(sub, s) && Housed(sub, s) && Active(s, p) && Listed(s, p, names)
    requires Exact(sub, s.pools[p], names, st)
    ensures Consistent(s.pools[p], Seen(st))
    ensures |Flat(s.pools[p])| == st.count.used + st.count.free
  {
    forall n | n in names ensures sub.ipParse(n).Some? && In(s.pools[p], sub.ipParse(n).value) && Canonical(sub, n) {
      assert IPKey(p.ns, n) in s.ips;
    }
    var used := Addresses(sub, names);
    AddressesCard(sub, names);
    var all := AsSet(s.pools[p]);
    var free := AsSet(st.free);
    CardDisjoint(all, free, used);
  }

  /** Canonical names stand for different addresses. */
  lemma {:induction false} AddressesCard(sub: Subnet, names: seq<string>)
    requires Distinct(names) && forall n :: n in names ==> Canonical(sub, n)
    ensures |Addresses(sub, names)| == |names|
  {
    if names != [] {
      var rest := names[1..];
      AddressesCard(sub, rest);
      assert Canonical(sub, names[0]);
      var a := sub.ipParse(names[0]).value;
      assert Addresses(sub, names) == {a} + Addresses(sub, rest);
      forall n | n in rest ensures sub.ipParse(n) != Some(a) { assert Canonical(sub, n); }
    }
  }

  /** Used and free make up the total exactly when every used address is in the ranges. */
  lemma CountsAddUpIff(sub: Subnet, ranges: seq<Range>, names: seq<string>, st: FullStatus)
    requires Merged(ranges) && Distinct(names) && (forall n :: n in names ==> Canonical(sub, n))
    requires Exact(sub, ranges, names, st)
    ensures st.count.used + st.count.free == st.count.total <==>
            forall a :: a in Addresses(sub, names) ==> In(ranges, a)
  {
    AddressesCard(sub, names);
    var used := Addresses(sub, names);
    var all := AsSet(ranges);
    var free := AsSet(st.free);
    CardDisjoint(all, free, used * all);
    CardDisjoint(used, used * all, used - all);
    if |used - all| == 0 {
      forall a | a in used ensures In(ranges, a) { assert a !in used - all; }
    } else if forall a :: a in used ==> In(ranges, a) {
      forall a ensures a !in used - all {}
    }
  }

  // ---------------------------------------------------------------- clean-up

  datatype CleanUp = NotYet | Cleaned | Broken

  /** The clean-up of an existing pool began if the status counts no address. */
  ghost predicate BegunOnce(before: seq<Change>, after: seq<Change>, was: Option<seq<Range>>,
                            status: Option<PoolStatus>)
  {
    after == before + if status.Some? && status.value.used <= 0 && was.Some? then [Begun(was)] else []
  }

  /** Blocks first, the finalizer last. */
  method CleanUpIPPool(store: Store, p: PoolKey, status: Option<PoolStatus>) returns (r: CleanUp)
    requires store.Sound() && store.IsLegal()
    modifies store
    ensures store.Sound() && store.IsLegal() && old(store.trace) <= store.trace && Inv(store.sub, store.st)
    ensures status == None || status.value.used > 0 ==> r == NotYet && store.st == old(store.st)
    ensures status.Some? && status.value.used <= 0 ==> r != NotYet
    ensures BegunOnce(old(store.Written(p)), store.Written(p), old(RangesOf(store.st, p)), status)
    ensures r == Cleaned ==> p !in store.st.pools && OwnNames(store.st, p) == {}
    ensures store.reliable && p in old(store.st.pools) && r != NotYet ==> r == Cleaned
  {
    store.LegalInv();
    if status == None {
      return NotYet;
    }
    if status.value.used > 0 {
      return NotYet;
    }
    store.BeginCleanUp(p);
    store.LegalInv();
    var ok := DeleteAllOf(store, p);
    if ok {
      ok := store.DropPool(p);
    }
    store.LegalInv();
    r := if ok then Cleaned else Broken;
  }

  /** The clean-up's decision on a fresh status: no live address is lost. */
  lemma CleanUpIsFresh(sub: Subnet, s: State, p: PoolKey, names: seq<string>, st: FullStatus)
    requires Housed(sub, s) && Listed(s, p, names) && p in s.pools && Exact(sub, s.pools[p], names, st)
    ensures Seen(st).used <= 0 <==> Harmless(sub, s, BeginCleanUp(p))
  {
    if Seen(st).used <= 0 {
      forall k | k in s.ips ensures s.ips[k] != p {
        assert names == [];
        assert k.name !in names;
      }
    } else {
      assert names[0] in names;
    }
  }
}
