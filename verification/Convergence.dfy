/** How many claim rounds a growing pool takes: the reconcile is requeued until it is done, and
    the subnet's status is refreshed in between. */
module Convergence {
  import opened Wrappers
  import opened SetSizes
  import opened Ranges
  import opened RangeObjects
  import opened Subnets
  import opened SubnetController
  import opened Cluster
  import opened Stores
  import opened ClaimController
  import Grid

  /** A truthful status of all blocks is an up-to-date free list. */
  lemma TruthfulIsUpToDate(spec: SubnetSpec, sub: Subnet, s: State, names: seq<string>, st: SubnetStatus)
    requires Admitted(spec) && Describes(sub, spec) && Named(sub) && Inv(sub, s)
    requires Distinct(names) && SetOf(names) == s.blocks.Keys && Truthful(spec, sub, names, st)
    ensures UpToDate(sub, s, st.free)
  {
    forall n | n in names ensures IsBlock(sub, n) { assert n in SetOf(names); }
    NumbersDistinct(sub, names);
    forall n | n in s.blocks ensures NumberOf(sub, n) in Taken(sub, names) { assert n in SetOf(names); }
    forall n | n in Offered(sub, st.free) ensures n !in s.blocks {
      OfferedIsFree(sub, st.free, st.blockCount.free, n);
    }
  }

  lemma OfferedIsFree(sub: Subnet, free: seq<Range>, count: int, n: string)
    requires Named(sub) && FreeView(sub, free, count) && n in Offered(sub, free)
    ensures exists a :: In(free, a) && a / sub.step == NumberOf(sub, n)
  {
    ViewBlocks(sub, free, count);
    MergedIncreasing(free);
    FlatInAll(free);
    Grid.BlocksExact(Flat(free), sub.step);
    var q :| q in Grid.BlocksOf(Flat(free), sub.step) && n == Name(sub, q);
    NameNumber(sub, q);
    Grid.DivOffset(q, 0, sub.step);
    assert q * sub.step in Flat(free);
    assert In(free, q * sub.step);
  }

  /** The numbers of all blocks in the store. */
  function Numbered(sub: Subnet, s: State): set<int>
    requires sub.step > 0
  {
    set n | n in s.blocks :: NumberOf(sub, n)
  }

  /** The subnet has as many free blocks as the pool is short of. */
  ghost predicate Enough(spec: SubnetSpec, sub: Subnet, s: State, p: PoolKey, replicas: int)
    requires Admitted(spec) && Describes(sub, spec) && sub.step > 0
  {
    CeilDiv(replicas, sub.step) - |OwnNames(s, p)| <= |TotalBlocks(spec, sub) - Numbered(sub, s)|
  }

  lemma {:induction false} ImageCard(sub: Subnet, names: set<string>)
    requires sub.step > 0
    ensures |set n | n in names :: NumberOf(sub, n)| <= |names|
    decreases names
  {
    if names != {} {
      var m :| m in names;
      ImageCard(sub, names - {m});
      assert (set n | n in names :: NumberOf(sub, n)) ==
             (set n | n in names - {m} :: NumberOf(sub, n)) + {NumberOf(sub, m)};
    }
  }

  /** A round takes no more free blocks than it brings the pool. */
  lemma EnoughKept(spec: SubnetSpec, sub: Subnet, s: State, t: State, p: PoolKey, replicas: int)
    requires Admitted(spec) && Describes(sub, spec) && sub.step > 0
    requires Enough(spec, sub, s, p, replicas) && OnlyClaims(s, t, p)
    ensures Enough(spec, sub, t, p, replicas)
  {
    var gained := OwnNames(t, p) - OwnNames(s, p);
    var image := set n | n in gained :: NumberOf(sub, n);
    ImageCard(sub, gained);
    SubsetCard(OwnNames(s, p), OwnNames(t, p));
    var before, after := TotalBlocks(spec, sub) - Numbered(sub, s), TotalBlocks(spec, sub) - Numbered(sub, t);
    forall q | q in before ensures q in after + image {
      if q in Numbered(sub, t) {
        var n :| n in t.blocks && NumberOf(sub, n) == q;
        assert n in gained;
      }
    }
    SubsetCard(before, after + image);
    assert |after + image| <= |after| + |image|;
  }

  /** All block names of the store. */
  method ListNames(keys: set<string>) returns (names: seq<string>)
    ensures Distinct(names) && SetOf(names) == keys
  {
    names := [];
    var left := keys;
    while left != {}
      invariant Distinct(names) && SetOf(names) + left == keys
      invariant forall n :: n in names ==> n !in left
      decreases left
    {
      var n :| n in left;
      left := left - {n};
      names := names + [n];
    }
  }

  /** No rival, no failures but taken names, and a pool that is to grow. */
  ghost predicate Calm(store: Store, spec: SubnetSpec, p: PoolKey, replicas: nat)
    reads store
  {
    && store.Sound() && store.IsLegal() && Active(store.st, p) && store.quiet && store.reliable
    && Admitted(spec) && Describes(store.sub, spec) && (Missed(spec) || Printable(spec))
    && |Flat(store.st.pools[p])| < replicas && Enough(spec, store.sub, store.st, p, replicas)
  }

  /** The subnet controller refreshes the status, then the claim controller scales up. */
  method OneRound(store: Store, spec: SubnetSpec, p: PoolKey, replicas: nat, hash: nat -> nat) returns (ok: bool)
    requires Calm(store, spec, p, replicas)
    modifies store
    ensures store.Sound() && store.IsLegal() && Active(store.st, p)
    ensures ok ==> Enlarged(store.st, p, old(store.st.pools)[p], replicas) && Snug(store.sub, store.st, p)
    ensures !ok ==> Calm(store, spec, p, replicas) && store.st.pools[p] == old(store.st.pools)[p]
    ensures !ok ==> old(|OwnNames(store.st, p)|) + 2 <= |OwnNames(store.st, p)| < CeilDiv(replicas, store.sub.step)
  {
    store.LegalInv();
    ghost var s := store.st;
    var names := ListNames(store.st.blocks.Keys);
    var status := Refresh(store.sub, spec, names, s);
    var poolRanges := new IPRanges.Parse(store.sub.version, store.st.pools[p]);
    var free := new IPRanges.Parse(store.sub.version, status.free);
    var alloc := new Allocation(p, poolRanges, free, status.blockCount.free, store.sub.step, replicas, None, false);
    ok := ScaleOnce(store, alloc, hash);
    if !ok { EnoughKept(spec, store.sub, s, store.st, p, replicas); }
  }

  /** What a scale-up means for the number of rounds. */
  method ScaleOnce(store: Store, alloc: Allocation, hash: nat -> nat) returns (ok: bool)
    requires Ready(store, alloc) && |Flat(alloc.poolRanges.ranges)| < alloc.replicas && Unhindered(store, alloc)
    requires CeilDiv(alloc.replicas, alloc.step) - |OwnNames(store.st, alloc.pool)| <= alloc.freeBlockCount
    modifies store, alloc`poolRanges
    ensures store.Sound() && store.IsLegal() && Carried(alloc.pool, old(store.st), store.st)
    ensures ok ==> Enlarged(store.st, alloc.pool, old(store.st.pools)[alloc.pool], alloc.replicas)
    ensures ok && old(Contained(store.sub, store.st, alloc.pool)) ==> Snug(store.sub, store.st, alloc.pool)
    ensures !ok ==>
              && OnlyClaims(old(store.st), store.st, alloc.pool)
              && old(|OwnNames(store.st, alloc.pool)|) + 2 <= |OwnNames(store.st, alloc.pool)|
              && |OwnNames(store.st, alloc.pool)| < CeilDiv(alloc.replicas, alloc.step)
  {
    ghost var d, s := DemandOf(alloc, hash), store.st;
    ok := ScaleUp(store, alloc, hash);
    if |OwnNames(s, alloc.pool)| * alloc.step < alloc.replicas {
      AcquiredGains(store.sub, s, store.st, alloc.pool, d, ok);
    }
  }

  /** A fresh status of the subnet. */
  method Refresh(sub: Subnet, spec: SubnetSpec, names: seq<string>, ghost s: State) returns (status: SubnetStatus)
    requires Admitted(spec) && Describes(sub, spec) && Named(sub) && Inv(sub, s) && (Missed(spec) || Printable(spec))
    requires Distinct(names) && SetOf(names) == s.blocks.Keys
    ensures FreeView(sub, status.free, status.blockCount.free) && UpToDate(sub, s, status.free)
    ensures status.blockCount.free == |TotalBlocks(spec, sub) - Numbered(sub, s)|
  {
    var subnet := new SubnetObject(spec);
    forall n | n in names ensures IsBlock(sub, n) { assert n in SetOf(names); }
    var done := subnet.Reconcile(sub, names);
    status := subnet.status.value;
    TruthfulIsUpToDate(spec, sub, s, names, status);
    TakenIsNumbered(sub, names, s);
  }

  lemma TakenIsNumbered(sub: Subnet, names: seq<string>, s: State)
    requires sub.step > 0 && SetOf(names) == s.blocks.Keys
    ensures Taken(sub, names) == Numbered(sub, s)
  {
    var qs := Numbers(sub, names);
    forall q ensures q in qs <==> q in Numbered(sub, s) {
      if q in qs {
        var i :| 0 <= i < |qs| && qs[i] == q;
        assert names[i] in SetOf(names);
      }
      if q in Numbered(sub, s) {
        var n :| n in s.blocks && NumberOf(sub, n) == q;
        assert n in SetOf(names);
        var i :| 0 <= i < |names| && names[i] == n;
        assert qs[i] == q;
      }
    }
  }

  /** Whatever the hashes and the interleavings, half as many rounds as blocks are missing,
      rounded up, are enough. */
  method GrowInRounds(store: Store, spec: SubnetSpec, p: PoolKey, replicas: nat, hash: nat -> nat) returns (rounds: nat)
    requires Calm(store, spec, p, replicas)
    modifies store
    ensures store.Sound() && store.IsLegal()
    ensures Enlarged(store.st, p, old(store.st.pools)[p], replicas) && Snug(store.sub, store.st, p)
    ensures var missing := CeilDiv(replicas, store.sub.step) - old(|OwnNames(store.st, p)|);
            rounds <= if missing <= 2 then 1 else CeilDiv(missing, 2)
  {
    ghost var n, goal := |OwnNames(store.st, p)|, CeilDiv(replicas, store.sub.step);
    rounds := 0;
    var ok := false;
    while !ok
      invariant store.Sound() && store.IsLegal()
      invariant !ok ==> Calm(store, spec, p, replicas) && store.st.pools[p] == old(store.st.pools)[p]
      invariant ok ==> Enlarged(store.st, p, old(store.st.pools)[p], replicas) && Snug(store.sub, store.st, p)
      invariant ok ==> rounds > 0
      invariant !ok && rounds > 0 ==> n + 2 * rounds <= |OwnNames(store.st, p)| < goal
      invariant ok && rounds > 1 ==> n + 2 * (rounds - 1) < goal
      decreases if ok then 0 else 1 + (if goal > |OwnNames(store.st, p)| then goal - |OwnNames(store.st, p)| else 0)
    {
      ok := OneRound(store, spec, p, replicas, hash);
      rounds := rounds + 1;
    }
  }
}
