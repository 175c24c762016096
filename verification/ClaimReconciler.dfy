/** One reconcile of an IPPoolClaim, from the choice of a subnet to the reported pool size. */
module ClaimReconciler {
  import opened Wrappers
  import opened Pow2
  import opened Ranges
  import opened RangeObjects
  import opened Iterators
  import opened Subnets
  import opened SubnetController
  import opened Cluster
  import opened Stores
  import opened ClaimController

  // ---------------------------------------------------------------- choosing a subnet

  /** What looking up a candidate gives; a subnet without status has no block count yet. */
  datatype Candidate = NotFound | LookupError | Found(version: Family, freeBlocks: Option<int>, blockSize: int)

  datatype Refusal = LookupFailed | NotReady | NoneFits

  /** The number of addresses behind a prefix length. */
  function CountFromMaskSize(version: Family, maskSize: int): int
    requires 0 <= maskSize <= Bits(version)
  {
    Pow(Bits(version) - maskSize)
  }

  predicate Sized(c: Candidate) {
    c.Found? ==> 0 <= c.blockSize <= Bits(c.version)
  }

  /** The candidate does not stop the search. */
  predicate Passed(c: Candidate, version: Family, replicas: int)
    requires Sized(c)
  {
    c.NotFound? ||
    (c.Found? && (c.version != version ||
                  (c.freeBlocks.Some? && c.freeBlocks.value * CountFromMaskSize(c.version, c.blockSize) < replicas)))
  }

  /** What the first candidate that stops the search decides. */
  predicate Decides(c: Candidate, name: string, version: Family, r: Result<string, Refusal>) {
    match c
    case NotFound => false
    case LookupError => r == Err(LookupFailed)
    case Found(v, free, _) => v == version && r == if free == None then Err(NotReady) else Ok(name)
  }

  /** The first candidate that stops the search is that one, and it fits. */
  ghost predicate FirstFit(candidates: seq<string>, look: string -> Candidate, version: Family, replicas: int,
                           name: string)
    requires forall n :: Sized(look(n))
  {
    exists k :: 0 <= k < |candidates| && candidates[k] == name && Selected(look(name), version, replicas) &&
                forall j :: 0 <= j < k ==> Passed(look(candidates[j]), version, replicas)
  }

  /** First fit, without skipping a candidate that is not ready. */
  method SelectSubnet(candidates: seq<string>, look: string -> Candidate, version: Family, replicas: int)
    returns (r: Result<string, Refusal>)
    requires forall n :: Sized(look(n))
    ensures (forall n :: n in candidates ==> Passed(look(n), version, replicas)) ==> r == Err(NoneFits)
    ensures forall k :: 0 <= k < |candidates| && !Passed(look(candidates[k]), version, replicas) &&
                        (forall j :: 0 <= j < k ==> Passed(look(candidates[j]), version, replicas)) ==>
                          Decides(look(candidates[k]), candidates[k], version, r)
    ensures r.Ok? ==> r.value in candidates && Selected(look(r.value), version, replicas)
    ensures forall n :: r == Ok(n) <==> FirstFit(candidates, look, version, replicas, n)
  {
    for i := 0 to |candidates|
      invariant forall j :: 0 <= j < i ==> Passed(look(candidates[j]), version, replicas)
    {
      var c := look(candidates[i]);
      if c.NotFound? {
        continue;
      }
      if c.LookupError? {
        return Err(LookupFailed);
      }
      if c.version != version {
        continue;
      }
      if c.freeBlocks == None {
        return Err(NotReady);
      }
      var step := CountFromMaskSize(c.version, c.blockSize);
      var count := c.freeBlocks.value * step;
      if count < replicas {
        continue;
      }
      return Ok(candidates[i]);
    }
    r := Err(NoneFits);
  }

  predicate Selected(c: Candidate, version: Family, replicas: int)
    requires Sized(c)
  {
    c.Found? && c.version == version && c.freeBlocks.Some? &&
    c.freeBlocks.value * CountFromMaskSize(version, c.blockSize) >= replicas
  }

  /** The count is the number of addresses of a block, as the grid has it. */
  lemma CountIsStep(sub: Subnet, s: SubnetSpec)
    requires Admitted(s) && Describes(sub, s)
    ensures CountFromMaskSize(s.version, s.blockSize) == sub.step
    ensures Pow(s.blockSize - s.cidr.ones) * sub.step == CidrSize(Bits(s.version), s.cidr)
  {
    SizeInSteps(Bits(s.version), s.cidr.ones, s.blockSize);
  }

  /** Under the same status a selected subnet passes the block test of a scale-up that starts
      from an empty pool: both tests are equivalent. */
  lemma SelectionPassesGuard(sub: Subnet, s: SubnetSpec, free: Option<int>, replicas: int)
    requires Admitted(s) && Describes(sub, s) && Sized(Found(s.version, free, s.blockSize))
    ensures Selected(Found(s.version, free, s.blockSize), s.version, replicas) <==>
            free.Some? && CeilDiv(replicas, sub.step) <= free.value
  {
    CountIsStep(sub, s);
    CeilDivLeast(replicas, sub.step);
  }

  // ---------------------------------------------------------------- scaling

  /** No scale-down, or one that does not use the status' free list, or one whose status names
      only free addresses of the pool. */
  ghost predicate Trusted(was: seq<Range>, status: Option<PoolStatus>, workload: bool, replicas: int) {
    replicas < |Flat(was)| && status.Some? ==>
      workload || status.value.used >= replicas || Within(status.value.free, was)
  }

  /** A scaling that neither has nothing to do nor waits. */
  predicate Moves(was: seq<Range>, status: Option<PoolStatus>, workload: bool, replicas: int) {
    replicas > |Flat(was)| ||
    (replicas < |Flat(was)| && status.Some? && !(workload && status.value.used != replicas))
  }

  /** The outcome of a completed scaling from ranges `was` and blocks `owned`: exactly `replicas`
      addresses, or a scale-down by the status, or nothing at all. `inside` says whether the
      pool lay in its blocks before. */
  ghost predicate Scaled(sub: Subnet, s: State, p: PoolKey, was: seq<Range>, owned: set<string>, inside: bool,
                         status: Option<PoolStatus>, workload: bool, replicas: int)
    requires sub.step > 0
  {
    && p in s.pools
    && (!Moves(was, status, workload, replicas) ==> s.pools[p] == was && OwnNames(s, p) == owned)
    && (replicas > |Flat(was)| ==> Enlarged(s, p, was, replicas) && (inside ==> Snug(sub, s, p)))
    && (replicas < |Flat(was)| && Moves(was, status, workload, replicas) ==>
          Shrunk(s.pools[p], was, status.value, replicas) &&
          (inside && Consistent(was, status.value) ==> NoIdle(sub, s, p)))
  }

  /** At most one patch was written: by a scale-up or by a scale-down, as the sizes say. */
  ghost predicate ScaledOnce(before: seq<Change>, after: seq<Change>, was: seq<Range>, status: Option<PoolStatus>,
                             workload: bool, replicas: int)
  {
    && (!Moves(was, status, workload, replicas) ==> after == before)
    && (replicas > |Flat(was)| ==> GrewOnce(before, after, was))
    && (replicas < |Flat(was)| && Moves(was, status, workload, replicas) ==>
          ShrankOnce(before, after, was, status.value, replicas))
  }

  /** What the pool can have without another block. */
  ghost function Reach(s: State, alloc: Allocation): int
    reads alloc, alloc.poolRanges
  {
    var n := |OwnNames(s, alloc.pool)| * alloc.step;
    if |Flat(alloc.poolRanges.ranges)| > n then |Flat(alloc.poolRanges.ranges)| else n
  }

  method Scale(store: Store, alloc: Allocation, hash: nat -> nat) returns (ok: bool)
    requires Ready(store, alloc) && (alloc.status.Some? ==> Merged(alloc.status.value.free))
    modifies store, alloc`poolRanges, alloc.poolRanges
    ensures store.Sound() && old(store.trace) <= store.trace && Carried(alloc.pool, old(store.st), store.st)
    ensures old(Trusted(alloc.poolRanges.ranges, alloc.status, alloc.workload, alloc.replicas)) ==> store.IsLegal()
    ensures old(alloc.pool in store.st.cleaning) ==> store.IsLegal()
    ensures ok ==> alloc.poolRanges.ranges == store.st.pools[alloc.pool] && Merged(alloc.poolRanges.ranges)
    ensures ok ==> Scaled(store.sub, store.st, alloc.pool, old(store.st.pools)[alloc.pool],
                          old(OwnNames(store.st, alloc.pool)), old(Contained(store.sub, store.st, alloc.pool)),
                          alloc.status, alloc.workload, alloc.replicas)
    ensures ScaledOnce(old(store.Written(alloc.pool)), store.Written(alloc.pool), old(store.st.pools)[alloc.pool],
                       alloc.status, alloc.workload, alloc.replicas)
    ensures alloc.replicas > old(|Flat(alloc.poolRanges.ranges)|) ==>
              Acquired(store.sub, old(store.st), store.st, alloc.pool, old(DemandOf(alloc, hash)),
                       old(Unhindered(store, alloc)), ok)
    ensures store.reliable && alloc.replicas <= old(Reach(store.st, alloc)) ==> ok
  {
    store.LegalInv();
    ghost var s0 := store.st;
    MergedProper(alloc.poolRanges.ranges);
    var size := alloc.poolRanges.Count();
    if alloc.replicas == size {
      return true;
    }
    if alloc.replicas < size {
      if !Waits(alloc) && Trusted(alloc.poolRanges.ranges, alloc.status, alloc.workload, alloc.replicas) {
        if Active(s0, alloc.pool) { KeptInsideWhen(store.sub, s0, alloc); }
      }
      ok := ScaleDown(store, alloc);
    } else {
      ok := ScaleUp(store, alloc, hash);
      store.LegalInv();
    }
  }

  /** A completed scaling of a pool in its blocks leaves no idle block exactly when it moved, or
      there was none before: what an earlier, interrupted scale-down left idle stays. */
  lemma CompletedNoIdleIff(sub: Subnet, s: State, t: State, p: PoolKey, status: Option<PoolStatus>, workload: bool,
                           replicas: int)
    requires sub.step > 0 && p in s.pools && Contained(sub, s, p)
    requires Scaled(sub, t, p, s.pools[p], OwnNames(s, p), true, status, workload, replicas)
    requires status.Some? ==> Consistent(s.pools[p], status.value)
    ensures NoIdle(sub, t, p) <==> Moves(s.pools[p], status, workload, replicas) || NoIdle(sub, s, p)
  {
    if !Moves(s.pools[p], status, workload, replicas) {
      forall n ensures Vacant(sub, t, p, n) <==> Vacant(sub, s, p, n) {}
    }
  }

  // ---------------------------------------------------------------- reconcile

  datatype Claim = Claim(key: PoolKey, version: Family, replicas: nat, candidates: seq<string>, workload: bool)

  /** What the reconcile learns of the store's subnet: its name, its status if set. */
  datatype SubnetView = SubnetView(name: string, status: Option<SubnetStatus>)

  /** What it learns of an existing pool: its status, its workload label. */
  datatype PoolView = PoolView(status: Option<PoolStatus>, workload: bool)

  /** The pool of the claim; a missing one is created empty, before any block is. */
  method GetOrMarkIPPool(store: Store, claim: Claim, look: string -> Candidate, subnet: SubnetView, view: PoolView)
    returns (ok: bool, ranges: seq<Range>, seen: PoolView)
    requires store.Sound() && store.IsLegal()
    requires forall n :: Sized(look(n))
    modifies store
    ensures store.Sound() && store.IsLegal() && old(store.trace) <= store.trace
    ensures OwnNames(store.st, claim.key) == old(OwnNames(store.st, claim.key))
    ensures claim.key in store.st.cleaning <==> claim.key in old(store.st.cleaning)
    ensures store.Written(claim.key) == old(store.Written(claim.key))
    ensures claim.key in old(store.st.pools) ==>
              claim.key in store.st.pools && store.st.pools[claim.key] == old(store.st.pools)[claim.key]
    ensures ok ==> claim.key in store.st.pools && store.st.pools[claim.key] == ranges
    ensures ok && claim.key in old(store.st.pools) ==> seen == view
    ensures ok && claim.key !in old(store.st.pools) ==>
              seen == PoolView(None, claim.workload) && ranges == [] &&
              Selected(look(subnet.name), claim.version, claim.replicas)
    ensures store.quiet ==> store.st.blocks == old(store.st.blocks)
    ensures store.reliable ==>
              (ok <==> claim.key in old(store.st.pools) ||
                       FirstFit(claim.candidates, look, claim.version, claim.replicas, subnet.name))
    ensures !ok ==> (claim.key in store.st.pools <==> claim.key in old(store.st.pools))
  {
    var found: Option<seq<Range>>;
    ok, found := store.GetPool(claim.key);
    if !ok {
      return false, [], view;
    }
    if found.Some? {
      return true, found.value, view;
    }
    var choice := SelectSubnet(claim.candidates, look, claim.version, claim.replicas);
    if choice != Ok(subnet.name) {
      return false, [], view;
    }
    var r := store.CreatePool(claim.key);
    ok := r == Done;
    ranges := [];
    seen := PoolView(None, claim.workload);
  }

  /** The addresses of pool p; of a missing one none. */
  ghost function SizeOf(s: State, p: PoolKey): seq<int> {
    if p in s.pools then Flat(s.pools[p]) else []
  }

  /** What a claim asks of the subnet it found. */
  function Asks(claim: Claim, status: SubnetStatus, hash: nat -> nat): Demand {
    Demand(claim.replicas, status.free, status.blockCount.free, hash)
  }

  /** A pool that is to grow is served from the free list; one that is not, or has the blocks for it,
      is done. */
  ghost predicate Served(store: Store, claim: Claim, s: State, status: SubnetStatus, hash: nat -> nat, exact: bool,
                         ok: bool)
    requires store.sub.step > 0
    reads store
  {
    var size := |SizeOf(s, claim.key)|;
    && (claim.replicas > size ==>
          Acquired(store.sub, s, store.st, claim.key, Asks(claim, status, hash), exact, ok))
    && (claim.replicas <= size || claim.replicas <= |OwnNames(s, claim.key)| * store.sub.step ==> ok)
  }

  /** No rival is at work, calls fail only on taken names, and the subnet's status is current. */
  ghost predicate Shows(store: Store, subnet: SubnetView)
    requires store.sub.step > 0
    reads store
  {
    store.quiet && store.reliable && subnet.status.Some? && UpToDate(store.sub, store.st, subnet.status.value.free)
  }

  /** One reconcile that is not cut short by a dead owner, for a new pool, for one in use or for
      one whose clean-up was interrupted. Wherever it stops no block is without pool, and if the
      status could be trusted the store is in order; when it completes it reports the pool's
      size. */
  method Reconcile(store: Store, claim: Claim, look: string -> Candidate, subnet: SubnetView, view: PoolView,
                   hash: nat -> nat) returns (poolSize: Option<int>)
    requires store.Sound() && store.IsLegal()
    requires forall n :: Sized(look(n))
    requires subnet.status.Some? ==> FreeView(store.sub, subnet.status.value.free, subnet.status.value.blockCount.free)
    requires view.status.Some? ==> Merged(view.status.value.free)
    modifies store
    ensures store.Sound() && old(store.trace) <= store.trace
    ensures (claim.key in old(store.st.pools) && claim.key !in old(store.st.cleaning) ==>
               Trusted(old(store.st.pools)[claim.key], view.status, view.workload, claim.replicas)) ==>
              store.IsLegal() && Inv(store.sub, store.st)
    ensures poolSize.Some? ==>
              claim.key in store.st.pools && poolSize.value == |Flat(store.st.pools[claim.key])|
    ensures poolSize.Some? && claim.key in old(store.st.pools) ==>
              Scaled(store.sub, store.st, claim.key, old(store.st.pools)[claim.key], old(OwnNames(store.st, claim.key)),
                     old(Contained(store.sub, store.st, claim.key)), view.status, view.workload, claim.replicas)
    ensures poolSize.Some? && claim.key !in old(store.st.pools) ==>
              Scaled(store.sub, store.st, claim.key, [], {}, true, None, claim.workload, claim.replicas)
    ensures store.Written(claim.key) == old(store.Written(claim.key)) ||
            if claim.key in old(store.st.pools) then
              ScaledOnce(old(store.Written(claim.key)), store.Written(claim.key), old(store.st.pools)[claim.key],
                         view.status, view.workload, claim.replicas)
            else
              ScaledOnce(old(store.Written(claim.key)), store.Written(claim.key), [], None, claim.workload,
                         claim.replicas)
    ensures store.reliable && claim.key !in old(store.st.pools) ==>
              (claim.key in store.st.pools <==>
               FirstFit(claim.candidates, look, claim.version, claim.replicas, subnet.name))
    ensures store.reliable && subnet.status.Some? && claim.key in store.st.pools ==>
              Served(store, claim, old(store.st), subnet.status.value, hash, old(Shows(store, subnet)), poolSize.Some?)
  {
    store.LegalInv();
    ghost var s0 := store.st;
    var ok, ranges, seen := GetOrMarkIPPool(store, claim, look, subnet, view);
    store.LegalInv();
    if !ok || subnet.status == None {
      return None;
    }
    InsideAtStart(store.sub, s0, store.st, claim.key);
    ghost var t := store.st;
    poolSize := ScaleFound(store, claim, ranges, seen, subnet.status.value, hash);
    AcquiredFrom(store.sub, s0, t, store.st, claim.key, Asks(claim, subnet.status.value, hash),
                 old(Shows(store, subnet)), poolSize.Some?);
    if store.IsLegal() { store.LegalInv(); }
  }

  /** Scales the pool that was found or created. */
  method ScaleFound(store: Store, claim: Claim, ranges: seq<Range>, seen: PoolView, status: SubnetStatus,
                    hash: nat -> nat) returns (poolSize: Option<int>)
    requires store.Sound() && store.IsLegal() && claim.key in store.st.pools && store.st.pools[claim.key] == ranges
    requires FreeView(store.sub, status.free, status.blockCount.free)
    requires seen.status.Some? ==> Merged(seen.status.value.free)
    modifies store
    ensures store.Sound() && old(store.trace) <= store.trace
    ensures Trusted(ranges, seen.status, seen.workload, claim.replicas) || old(claim.key in store.st.cleaning) ==>
              store.IsLegal()
    ensures poolSize.Some? ==>
              && Scaled(store.sub, store.st, claim.key, ranges, old(OwnNames(store.st, claim.key)),
                        old(Contained(store.sub, store.st, claim.key)), seen.status, seen.workload, claim.replicas)
              && poolSize.value == |Flat(store.st.pools[claim.key])|
    ensures ScaledOnce(old(store.Written(claim.key)), store.Written(claim.key), ranges, seen.status, seen.workload,
                       claim.replicas)
    ensures claim.replicas > |Flat(ranges)| ==>
              Acquired(store.sub, old(store.st), store.st, claim.key, Asks(claim, status, hash),
                       store.quiet && store.reliable && old(UpToDate(store.sub, store.st, status.free)), poolSize.Some?)
    ensures claim.key in store.st.pools
    ensures var n := old(|OwnNames(store.st, claim.key)|) * store.sub.step;
            store.reliable && (claim.replicas <= |Flat(ranges)| || claim.replicas <= n) ==> poolSize.Some?
  {
    store.LegalInv();
    var poolRanges := new IPRanges.Parse(store.sub.version, ranges);
    var free := new IPRanges.Parse(store.sub.version, status.free);
    var alloc := new Allocation(claim.key, poolRanges, free, status.blockCount.free, store.sub.step,
                                claim.replicas, seen.status, seen.workload);
    var ok := Scale(store, alloc, hash);
    if !ok {
      return None;
    }
    MergedProper(alloc.poolRanges.ranges);
    var size := alloc.poolRanges.Count();
    poolSize := Some(size);
  }

  /** Only the blocks the pool had at the start count. */
  lemma AcquiredFrom(sub: Subnet, s: State, t: State, u: State, p: PoolKey, d: Demand, exact: bool, ok: bool)
    requires sub.step > 0 && OwnNames(s, p) == OwnNames(t, p)
    ensures Acquired(sub, s, u, p, d, exact, ok) <==> Acquired(sub, t, u, p, d, exact, ok)
  {}

  /** A pool just created lies in its blocks, of which there are none. */
  lemma InsideAtStart(sub: Subnet, s: State, t: State, p: PoolKey)
    requires sub.step > 0 && Inv(sub, s) && p in t.pools && OwnNames(t, p) == OwnNames(s, p)
    requires if p in s.pools then t.pools[p] == s.pools[p] else t.pools[p] == []
    ensures p in s.pools ==> (Contained(sub, s, p) <==> Contained(sub, t, p))
    ensures p !in s.pools ==> Contained(sub, t, p) && OwnNames(t, p) == {}
  {
    if p in s.pools {
      forall a ensures Owns(sub, s, p, a) <==> Owns(sub, t, p, a) { OwnsByView(sub, s, t, p, a); }
    } else {
      forall n ensures n !in OwnNames(s, p) {}
    }
  }
}
