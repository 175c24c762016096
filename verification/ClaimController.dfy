/** The IPPoolClaim controller: growing and shrinking a pool, block by block. */
module ClaimController {
  import opened Wrappers
  import opened Pow2
  import opened SetSizes
  import opened Ranges
  import opened RangeObjects
  import opened Iterators
  import opened Grid
  import opened Subnets
  import opened Cluster
  import opened Stores
  import Texts

  datatype PoolStatus = PoolStatus(used: int, free: seq<Range>)

  /** What one scaling run works with. */
  class Allocation {
    const pool: PoolKey
    /** The desired ranges; updated in place together with the pool. */
    var poolRanges: IPRanges
    /** The subnet's free list and block count, as old as the cache gave them. */
    const freeRanges: IPRanges
    const freeBlockCount: int
    const step: int
    const replicas: nat
    /** The pool's status as read, and whether the pool belongs to a workload. */
    const status: Option<PoolStatus>
    const workload: bool

    constructor (pool: PoolKey, poolRanges: IPRanges, freeRanges: IPRanges, freeBlockCount: int,
                 step: int, replicas: nat, status: Option<PoolStatus>, workload: bool)
      ensures this.pool == pool && this.poolRanges == poolRanges && this.freeRanges == freeRanges
      ensures this.freeBlockCount == freeBlockCount && this.step == step && this.replicas == replicas
      ensures this.status == status && this.workload == workload
    {
      this.pool := pool;
      this.poolRanges := poolRanges;
      this.freeRanges := freeRanges;
      this.freeBlockCount := freeBlockCount;
      this.step := step;
      this.replicas := replicas;
      this.status := status;
      this.workload := workload;
    }
  }

  // ---------------------------------------------------------------- space of a pool

  /** No block of the pool is without a pool address. */
  ghost predicate NoIdle(sub: Subnet, s: State, p: PoolKey)
    requires sub.step > 0 && p in s.pools
  {
    forall n :: n in OwnNames(s, p) ==> !Vacant(sub, s, p, n)
  }

  ghost predicate Gridded(sub: Subnet, s: State)
    requires sub.step > 0
  {
    forall n :: n in s.blocks ==> IsBlock(sub, n)
  }

  /** The addresses of the listed blocks are the addresses the pool owns. */
  lemma OwnsTaken(sub: Subnet, s: State, p: PoolKey, items: seq<string>)
    requires Named(sub) && Gridded(sub, s) && SetOf(items) == OwnNames(s, p) && Distinct(items)
    ensures forall n :: n in items ==> IsBlock(sub, n)
    ensures forall a :: Owns(sub, s, p, a) <==> a / sub.step in Taken(sub, items)
    ensures |Taken(sub, items)| == |items| == |OwnNames(s, p)|
  {
    forall n | n in items ensures IsBlock(sub, n) { assert n in OwnNames(s, p); }
    NumbersDistinct(sub, items);
    DistinctCard(Numbers(sub, items));
    DistinctCard(items);
    forall a ensures Owns(sub, s, p, a) <==> a / sub.step in Taken(sub, items) {
      var q := a / sub.step;
      if Owns(sub, s, p, a) {
        assert Name(sub, q) in OwnNames(s, p);
        assert Name(sub, q) in items;
        NameNumber(sub, q);
      }
      if q in Taken(sub, items) {
        assert Name(sub, q) in items;
        assert Name(sub, q) in OwnNames(s, p);
      }
    }
  }

  /** The guard `total - replicas < step` skips no idle block. */
  lemma GuardSkipsNothing(sub: Subnet, s: State, p: PoolKey, items: seq<string>)
    requires Named(sub) && Gridded(sub, s) && p in s.pools && Contained(sub, s, p) && Merged(s.pools[p])
    requires SetOf(items) == OwnNames(s, p) && Distinct(items)
    requires |items| * sub.step - |Flat(s.pools[p])| < sub.step
    ensures NoIdle(sub, s, p)
  {
    OwnsTaken(sub, s, p, items);
    var f := Flat(s.pools[p]);
    MergedIncreasing(s.pools[p]);
    FlatInAll(s.pools[p]);
    forall n | n in OwnNames(s, p) ensures !Vacant(sub, s, p, n) {
      assert n in items;
      NumberName(sub, n);
      NumbersDistinct(sub, items);
      EveryBlockMet(f, Taken(sub, items), sub.step, NumberOf(sub, n));
      var a :| a in f && a / sub.step == NumberOf(sub, n);
      assert In(s.pools[p], a) && a / sub.step == NumberOf(sub, n);
    }
  }

  // ---------------------------------------------------------------- scaling within blocks

  /** The ranges that extend `was` to `replicas` addresses of blocks `taken`, lowest first. */
  ghost predicate Extends(now: seq<Range>, was: seq<Range>, taken: set<int>, step: int, replicas: int)
    requires step > 0
  {
    && Merged(now) && |Flat(now)| == replicas
    && (forall a :: In(was, a) ==> In(now, a))
    && (forall a :: In(now, a) && !In(was, a) ==> a / step in taken)
    && (forall a, b :: In(now, a) && !In(was, a) && b / step in taken && !In(now, b) ==> a < b)
  }

  /** Grows the pool to `replicas` addresses out of the listed blocks. */
  method ScaleUpWithinIPBlocks(store: Store, alloc: Allocation, items: seq<string>) returns (ok: bool)
    requires store.Sound() && store.IsLegal() && alloc.pool in store.st.pools
    requires Distinct(items) && SetOf(items) == OwnNames(store.st, alloc.pool)
    requires alloc.poolRanges.ranges == store.st.pools[alloc.pool]
    requires alloc.poolRanges.version == store.sub.version || alloc.poolRanges.ranges == []
    requires |Flat(alloc.poolRanges.ranges)| < alloc.replicas <= |items| * store.sub.step
    modifies store, alloc`poolRanges
    ensures store.Sound() && store.IsLegal() && old(store.trace) <= store.trace
    ensures Carried(alloc.pool, old(store.st), store.st)
    ensures OwnNames(store.st, alloc.pool) == old(OwnNames(store.st, alloc.pool))
    ensures ok ==>
              alloc.poolRanges.ranges == store.st.pools[alloc.pool] && alloc.poolRanges.version == store.sub.version
    ensures ok ==> Extends(store.st.pools[alloc.pool], old(store.st.pools)[alloc.pool],
                           Taken(store.sub, items), store.sub.step, alloc.replicas)
    ensures ok && old(Contained(store.sub, store.st, alloc.pool)) ==> Contained(store.sub, store.st, alloc.pool)
    ensures !ok ==> store.st.pools[alloc.pool] == old(store.st.pools)[alloc.pool]
    ensures store.Written(alloc.pool) ==
            old(store.Written(alloc.pool)) +
            (if ok then [Patched(old(RangesOf(store.st, alloc.pool)), store.st.pools[alloc.pool])] else [])
    ensures store.reliable ==> ok
  {
    store.LegalInv();
    ghost var s := store.st;
    OwnsTaken(store.sub, s, alloc.pool, items);
    var dr := Carve(store.sub, alloc, items);
    StaysInside(store.sub, s, alloc.pool, items, dr.ranges, alloc.replicas);
    alloc.poolRanges := dr;
    ok := store.PatchRanges(alloc.pool, dr.ranges);
    if Contained(store.sub, s, alloc.pool) && ok {
      ContainedByView(store.sub, s, store.st, alloc.pool, dr.ranges);
    }
  }

  /** Growing out of the pool's own blocks leaves a contained pool contained. */
  lemma StaysInside(sub: Subnet, s: State, p: PoolKey, items: seq<string>, now: seq<Range>, replicas: int)
    requires Named(sub) && Inv(sub, s) && p in s.pools && Distinct(items) && SetOf(items) == OwnNames(s, p)
    requires Extends(now, s.pools[p], Taken(sub, items), sub.step, replicas)
    ensures MayPatch(sub, s, p, now)
    ensures Contained(sub, s, p) ==> forall a :: In(now, a) ==> Owns(sub, s, p, a)
  {
    OwnsTaken(sub, s, p, items);
  }

  lemma ContainedByView(sub: Subnet, s: State, t: State, p: PoolKey, now: seq<Range>)
    requires sub.step > 0 && OwnNames(s, p) == OwnNames(t, p) && p in t.pools && t.pools[p] == now
    requires forall a :: In(now, a) ==> Owns(sub, s, p, a)
    ensures Contained(sub, t, p)
  {
    forall a | In(now, a) ensures Owns(sub, t, p, a) { OwnsByView(sub, s, t, p, a); }
  }

  /** The range arithmetic of scaling within blocks. */
  method Carve(sub: Subnet, alloc: Allocation, items: seq<string>) returns (dr: IPRanges)
    requires Named(sub) && Distinct(items) && forall n :: n in items ==> IsBlock(sub, n)
    requires Merged(alloc.poolRanges.ranges)
    requires alloc.poolRanges.version == sub.version || alloc.poolRanges.ranges == []
    requires |Flat(alloc.poolRanges.ranges)| < alloc.replicas <= |items| * sub.step
    ensures fresh(dr) && dr.version == sub.version
    ensures Extends(dr.ranges, alloc.poolRanges.ranges, Taken(sub, items), sub.step, alloc.replicas)
  {
    ghost var was := alloc.poolRanges.ranges;
    MergedProper(was);
    var parsed, br := ParseRangesFromIPBlocks(sub, items);
    var size := alloc.poolRanges.Count();
    var delta := alloc.replicas - size;
    br := br.Diff(alloc.poolRanges);
    ghost var spare := br.ranges;
    dr := br.Slice(0, delta - 1);
    ghost var added := dr.ranges;
    MergedProper(added);
    dr := dr.Union(alloc.poolRanges);
    CarveExtends(sub, items, spare, added, was, dr.ranges, delta);
  }

  lemma CarveExtends(sub: Subnet, items: seq<string>, spare: seq<Range>, added: seq<Range>, was: seq<Range>,
                     now: seq<Range>, delta: int)
    requires Named(sub) && Distinct(items) && forall n :: n in items ==> IsBlock(sub, n)
    requires Merged(spare) && Merged(added) && Merged(was) && Merged(now)
    requires forall a :: In(spare, a) <==> In(BlockRanges(sub, Numbers(sub, items)), a) && !In(was, a)
    requires Flat(added) == Flat(spare)[Clamp(0, |Flat(spare)|)..Clamp(delta, |Flat(spare)|)]
    requires forall a :: In(now, a) <==> In(added, a) || In(was, a)
    requires 0 < delta <= |items| * sub.step - |Flat(was)|
    ensures Extends(now, was, Taken(sub, items), sub.step, |Flat(was)| + delta)
  {
    SpareIs(sub, items, spare, was);
    SpareExtends(spare, added, was, now, Taken(sub, items), sub.step, delta);
  }

  lemma SpareExtends(spare: seq<Range>, added: seq<Range>, was: seq<Range>, now: seq<Range>, taken: set<int>, step: int,
                     delta: int)
    requires step > 0 && Merged(spare) && Merged(added) && Merged(was) && Merged(now)
    requires forall a :: In(spare, a) <==> a / step in taken && !In(was, a)
    requires Flat(added) == Flat(spare)[Clamp(0, |Flat(spare)|)..Clamp(delta, |Flat(spare)|)]
    requires forall a :: In(now, a) <==> In(added, a) || In(was, a)
    requires 0 < delta <= |taken| * step - |Flat(was)|
    ensures Extends(now, was, taken, step, |Flat(was)| + delta)
  {
    SpareSize(spare, was, taken, step);
    Prefix(spare, added, delta);
    UnionSize(now, added, was);
  }

  lemma SpareIs(sub: Subnet, items: seq<string>, spare: seq<Range>, was: seq<Range>)
    requires Named(sub) && Distinct(items) && forall n :: n in items ==> IsBlock(sub, n)
    requires forall a :: In(spare, a) <==> In(BlockRanges(sub, Numbers(sub, items)), a) && !In(was, a)
    ensures forall a :: In(spare, a) <==> a / sub.step in Taken(sub, items) && !In(was, a)
    ensures |Taken(sub, items)| == |items|
  {
    forall a ensures In(BlockRanges(sub, Numbers(sub, items)), a) <==> a / sub.step in Taken(sub, items) {
      BlockRangesIn(sub, Numbers(sub, items), a);
    }
    NumbersDistinct(sub, items);
    DistinctCard(Numbers(sub, items));
  }

  /** What blocks hold beyond given ranges is at least the difference of the sizes. */
  lemma SpareSize(d: seq<Range>, was: seq<Range>, taken: set<int>, step: int)
    requires step > 0 && Merged(d) && Merged(was)
    requires forall a :: In(d, a) <==> a / step in taken && !In(was, a)
    ensures |Flat(d)| + |Flat(was)| >= |taken| * step
  {
    var all := Merge(d + was);
    MergedProper(d);
    MergedProper(was);
    ProperConcat(d, was);
    MergeMerges(d + was);
    forall a ensures In(all, a) <==> In(d, a) || In(was, a) { InConcat(d, was, a); }
    UnionSize(all, d, was);
    MergedIncreasing(all);
    FlatInAll(all);
    SpaceAtLeast(Flat(all), taken, step);
  }

  /** A slice from the front holds the lowest addresses. */
  lemma Prefix(rs: seq<Range>, front: seq<Range>, n: int)
    requires Merged(rs) && Merged(front) && 0 < n <= |Flat(rs)|
    requires Flat(front) == Flat(rs)[0..n]
    ensures |Flat(front)| == n
    ensures forall a :: In(front, a) ==> In(rs, a)
    ensures forall a, b :: In(front, a) && In(rs, b) && !In(front, b) ==> a < b
  {
    FlatInAll(rs);
    FlatInAll(front);
    MergedIncreasing(rs);
    forall a, b | In(front, a) && In(rs, b) && !In(front, b) ensures a < b {
      var f := Flat(rs);
      var i :| 0 <= i < |Flat(front)| && Flat(front)[i] == a;
      var j :| 0 <= j < |f| && f[j] == b;
      assert Flat(front) == f[..n];
      assert f[i] < f[j];
    }
  }

  // ---------------------------------------------------------------- claiming blocks

  /** The two names a worker tries: block number `index` of the free list and its cyclic
      successor. */
  method ProbeTargets(sub: Subnet, free: IPRanges, count: int, index: int) returns (first: string, second: string)
    requires Named(sub) && FreeView(sub, free.ranges, count) && 1 <= index <= count
    ensures var qs := BlocksOf(Flat(free.ranges), sub.step);
            |qs| == count && first == Name(sub, qs[index - 1]) && second == Name(sub, qs[Following(index - 1, count)])
  {
    ViewBlocks(sub, free.ranges, count);
    Position(index - 1, count, sub.step);
    var iter := new BlockIterator(free, sub.step);
    var block := iter.NextN(index);
    ViewBlock(sub, free.ranges, count, index - 1, block.ranges);
    first := sub.nameOf(block.ranges);
    second := NextTarget(sub, free, count, index, iter);
  }

  /** Linear probing: the next block, or the first one after the last. */
  method NextTarget(sub: Subnet, free: IPRanges, count: int, ghost index: int, iter: BlockIterator)
    returns (name: string)
    requires Named(sub) && FreeView(sub, free.ranges, count) && 1 <= index <= count
    requires iter.Valid() && iter.ranges == free && iter.blockSize == sub.step
    requires |BlocksOf(Flat(free.ranges), sub.step)| == count
    requires iter.start == Some((index - 1) * sub.step)
    modifies iter
    ensures name == Name(sub, BlocksOf(Flat(free.ranges), sub.step)[Following(index - 1, count)])
  {
    var block := NextBlock(free, count, index, sub.step, iter);
    ViewBlock(sub, free.ranges, count, Following(index - 1, count), block.ranges);
    name := sub.nameOf(block.ranges);
  }

  /** The window of the free list behind the index-th, cyclically. */
  method NextBlock(free: IPRanges, count: int, ghost index: int, step: int, iter: BlockIterator)
    returns (block: IPRanges)
    requires Merged(free.ranges) && step > 0 && |Flat(free.ranges)| == count * step && 1 <= index <= count
    requires iter.Valid() && iter.ranges == free && iter.blockSize == step && iter.start == Some((index - 1) * step)
    modifies iter
    ensures Merged(block.ranges)
    ensures var n, k := |Flat(free.ranges)|, Following(index - 1, count);
            var from, to := Clamp(k * step, n), Clamp(k * step + step, n);
            from <= to && Flat(block.ranges) == Flat(free.ranges)[from..to]
  {
    Position(index - 1, count, step);
    if index < count {
      Position(index, count, step);
    }
    var b := iter.Next();
    if b == null {
      iter.Reset();
      b := iter.Next();
    }
    block := b;
  }

  lemma Position(k: int, count: int, step: int)
    requires 0 <= k < count && step > 0
    ensures 0 <= k * step && k * step + step == (k + 1) * step <= count * step
    ensures k + 1 == count ==> k * step + step == count * step
  {
    MulMono(k + 1, count, step);
  }

  lemma ViewBlocks(sub: Subnet, free: seq<Range>, count: int)
    requires Named(sub) && FreeView(sub, free, count)
    ensures var qs := BlocksOf(Flat(free), sub.step);
            |qs| == count && Increasing(qs) && forall i :: 0 <= i < |qs| ==> InGrid(sub, qs[i])
  {
    var f := Flat(free);
    MergedIncreasing(free);
    FlatInAll(free);
    BlocksExact(f, sub.step);
    var qs := BlocksOf(f, sub.step);
    SameFactor(|qs|, count, sub.step);
    forall i | 0 <= i < |qs| ensures InGrid(sub, qs[i]) {
      assert qs[i] in qs;
      DivOffset(qs[i], 0, sub.step);
      assert qs[i] * sub.step in f;
    }
  }

  lemma SameFactor(a: int, b: int, s: int)
    requires s > 0 && a * s == b * s
    ensures a == b
  {
    if a < b { MulMono(a + 1, b, s); }
    if b < a { MulMono(b + 1, a, s); }
  }

  /** A full window of the free list is one block, in one range. */
  lemma ViewBlock(sub: Subnet, free: seq<Range>, count: int, k: int, block: seq<Range>)
    requires Named(sub) && FreeView(sub, free, count) && 0 <= k < count
    requires |BlocksOf(Flat(free), sub.step)| == count
    requires Merged(block)
    requires var n := |Flat(free)|;
             var from, to := Clamp(k * sub.step, n), Clamp(k * sub.step + sub.step, n);
             from <= to && Flat(block) == Flat(free)[from..to]
    ensures block == [BlockRange(sub, BlocksOf(Flat(free), sub.step)[k])]
  {
    MergedIncreasing(free);
    BlockWindow(Flat(free), sub.step, k);
    OneBlock(block, BlocksOf(Flat(free), sub.step)[k], sub);
  }

  lemma OneBlock(rs: seq<Range>, q: int, sub: Subnet)
    requires Merged(rs) && sub.step > 0 && Flat(rs) == Span(q * sub.step, q * sub.step + sub.step - 1)
    ensures rs == [BlockRange(sub, q)]
  {
    OneSpan(rs, q * sub.step, sub.step);
  }

  lemma OneSpan(rs: seq<Range>, lo: int, size: int)
    requires Merged(rs) && size > 0 && Flat(rs) == Span(lo, lo + size - 1)
    ensures rs == [Range(lo, lo + size - 1)]
  {
    ConsecutiveIsOne(rs);
  }

  /** The block names a free list offers. */
  ghost function Offered(sub: Subnet, free: seq<Range>): set<string>
    requires sub.step > 0
  {
    set q | q in BlocksOf(Flat(free), sub.step) :: Name(sub, q)
  }

  lemma OfferedAt(sub: Subnet, free: seq<Range>, count: int, i: int)
    requires Named(sub) && FreeView(sub, free, count) && 0 <= i < count
    ensures |BlocksOf(Flat(free), sub.step)| == count
    ensures var n := Name(sub, BlocksOf(Flat(free), sub.step)[i]); n in Offered(sub, free) && IsBlock(sub, n)
  {
    ViewBlocks(sub, free, count);
  }

  /** Different positions of a free list have different names. */
  lemma OfferedDistinct(sub: Subnet, free: seq<Range>, count: int, i: int, j: int)
    requires Named(sub) && FreeView(sub, free, count) && 0 <= i < count && 0 <= j < count && i != j
    requires |BlocksOf(Flat(free), sub.step)| == count
    ensures var qs := BlocksOf(Flat(free), sub.step); Name(sub, qs[i]) != Name(sub, qs[j])
  {
    ViewBlocks(sub, free, count);
    var qs := BlocksOf(Flat(free), sub.step);
    NameNumber(sub, qs[i]);
    NameNumber(sub, qs[j]);
  }

  datatype Worker = Worker(first: string, second: string)

  /** Both names are on offer, and they differ as soon as two blocks are. */
  ghost predicate Aimed(sub: Subnet, free: seq<Range>, count: int, w: Worker)
    requires sub.step > 0
  {
    && w.first in Offered(sub, free) && w.second in Offered(sub, free)
    && IsBlock(sub, w.first) && IsBlock(sub, w.second)
    && (count >= 2 ==> w.first != w.second)
  }

  /** The block a hash points at: the one at position h modulo the number of blocks on offer ... */
  ghost function FirstProbe(sub: Subnet, free: seq<Range>, hash: nat -> nat, i: nat): string
    requires sub.step > 0
  {
    var qs := BlocksOf(Flat(free), sub.step);
    if |qs| == 0 then "" else Name(sub, qs[Texts.Mod(hash(i), |qs|)])
  }

  /** ... and its cyclic successor. */
  ghost function SecondProbe(sub: Subnet, free: seq<Range>, hash: nat -> nat, i: nat): string
    requires sub.step > 0
  {
    var qs := BlocksOf(Flat(free), sub.step);
    if |qs| == 0 then "" else Name(sub, qs[Following(Texts.Mod(hash(i), |qs|), |qs|)])
  }

  ghost predicate Pointed(sub: Subnet, free: seq<Range>, hash: nat -> nat, i: nat, w: Worker)
    requires sub.step > 0
  {
    w.first == FirstProbe(sub, free, hash, i) && w.second == SecondProbe(sub, free, hash, i)
  }

  /** Worker i is pointed by the hash of `start` + i. */
  ghost predicate AllPointed(sub: Subnet, free: seq<Range>, hash: nat -> nat, start: nat, workers: seq<Worker>)
    requires sub.step > 0
  {
    forall i :: 0 <= i < |workers| ==> Pointed(sub, free, hash, start + i, workers[i])
  }

  /** The name is one of the two. */
  ghost predicate Probes(sub: Subnet, free: seq<Range>, hash: nat -> nat, i: nat, n: string)
    requires sub.step > 0
  {
    n == FirstProbe(sub, free, hash, i) || n == SecondProbe(sub, free, hash, i)
  }

  /** Every name is probed by a worker of its own; workers are numbered from `from` to `to` - 1. */
  ghost predicate ProbedBy(sub: Subnet, free: seq<Range>, hash: nat -> nat, names: set<string>, from: nat, to: int,
                           who: map<string, nat>)
    requires sub.step > 0
  {
    && who.Keys == names
    && (forall m, n :: m in who && n in who && m != n ==> who[m] != who[n])
    && (forall n :: n in who ==> from <= who[n] < to && Probes(sub, free, hash, who[n], n))
  }

  ghost predicate Probed(sub: Subnet, free: seq<Range>, hash: nat -> nat, names: set<string>, from: nat, to: int)
    requires sub.step > 0
  {
    exists who :: ProbedBy(sub, free, hash, names, from, to, who)
  }

  /** Every block that one of the hashes points at is among the names. */
  ghost predicate AllHit(sub: Subnet, free: seq<Range>, hash: nat -> nat, from: nat, to: int, names: set<string>)
    requires sub.step > 0
  {
    forall i :: from <= i < to ==> FirstProbe(sub, free, hash, i) in names
  }

  ghost predicate AllAimed(sub: Subnet, free: seq<Range>, count: int, workers: seq<Worker>)
    requires sub.step > 0
  {
    forall i :: 0 <= i < |workers| ==> Aimed(sub, free, count, workers[i])
  }

  lemma OnePointed(sub: Subnet, free: seq<Range>, count: int, hash: nat -> nat, start: nat, workers: seq<Worker>,
                   w: Worker)
    requires sub.step > 0 && AllAimed(sub, free, count, workers) && AllPointed(sub, free, hash, start, workers)
    requires Aimed(sub, free, count, w) && Pointed(sub, free, hash, start + |workers|, w)
    ensures AllAimed(sub, free, count, workers + [w]) && AllPointed(sub, free, hash, start, workers + [w])
  {}

  /** Points the workers at their blocks by the hash of the pool's running block number. */
  method AimWorkers(sub: Subnet, alloc: Allocation, start: nat, wanted: nat, hash: nat -> nat)
    returns (workers: seq<Worker>)
    requires Named(sub) && FreeView(sub, alloc.freeRanges.ranges, alloc.freeBlockCount) && alloc.step == sub.step
    requires wanted <= alloc.freeBlockCount
    ensures |workers| == wanted && |BlocksOf(Flat(alloc.freeRanges.ranges), sub.step)| == alloc.freeBlockCount
    ensures AllAimed(sub, alloc.freeRanges.ranges, alloc.freeBlockCount, workers)
    ensures AllPointed(sub, alloc.freeRanges.ranges, hash, start, workers)
  {
    ghost var free, count := alloc.freeRanges.ranges, alloc.freeBlockCount;
    ViewBlocks(sub, free, count);
    workers := [];
    for i := 0 to wanted
      invariant |workers| == i
      invariant AllAimed(sub, free, count, workers) && AllPointed(sub, free, hash, start, workers)
    {
      var w := AimWorker(sub, alloc, hash, start + i);
      OnePointed(sub, free, count, hash, start, workers, w);
      workers := workers + [w];
    }
  }

  method AimWorker(sub: Subnet, alloc: Allocation, hash: nat -> nat, i: nat) returns (w: Worker)
    requires Named(sub) && FreeView(sub, alloc.freeRanges.ranges, alloc.freeBlockCount) && alloc.step == sub.step
    requires 0 < alloc.freeBlockCount
    ensures Aimed(sub, alloc.freeRanges.ranges, alloc.freeBlockCount, w)
    ensures Pointed(sub, alloc.freeRanges.ranges, hash, i, w)
  {
    ghost var free, count := alloc.freeRanges.ranges, alloc.freeBlockCount;
    ViewBlocks(sub, free, count);
    var index := Texts.Mod(hash(i), alloc.freeBlockCount) + 1;
    var first, second := ProbeTargets(sub, alloc.freeRanges, alloc.freeBlockCount, index);
    OfferedAt(sub, free, count, index - 1);
    OfferedAt(sub, free, count, Following(index - 1, count));
    if count >= 2 { OfferedDistinct(sub, free, count, index - 1, Following(index - 1, count)); }
    w := Worker(first, second);
  }

  /** No offered block is taken: the free list shows the store as it is. */
  ghost predicate UpToDate(sub: Subnet, s: State, free: seq<Range>)
    requires sub.step > 0
  {
    forall n :: n in Offered(sub, free) ==> n !in s.blocks
  }

  /** Pool p has gained exactly the different blocks listed, and nothing else of it has changed. */
  ghost predicate Gains(s: State, t: State, p: PoolKey, blocks: seq<string>) {
    && p in s.pools && Carried(p, s, t) && t.pools[p] == s.pools[p]
    && Distinct(blocks) && SetOf(blocks) !! OwnNames(s, p) && OwnNames(t, p) == OwnNames(s, p) + SetOf(blocks)
  }

  /** Probed names are names on offer. */
  lemma ProbedOffered(sub: Subnet, free: seq<Range>, hash: nat -> nat, names: set<string>, from: nat, to: int)
    requires sub.step > 0 && Probed(sub, free, hash, names, from, to) && |BlocksOf(Flat(free), sub.step)| > 0
    ensures names <= Offered(sub, free)
  {
    var who :| ProbedBy(sub, free, hash, names, from, to, who);
    var qs := BlocksOf(Flat(free), sub.step);
    forall n | n in names ensures n in Offered(sub, free) {
      var i := Texts.Mod(hash(who[n]), |qs|);
      assert Probes(sub, free, hash, who[n], n);
      assert qs[i] in qs && qs[Following(i, |qs|)] in qs;
    }
  }

  /** What a round of `wanted` workers brings: different blocks, all of them on success and fewer
      otherwise, each probed by a worker of its own; unhindered at least two or all, and
      every block that a worker points at first among them. */
  ghost predicate Won(sub: Subnet, d: Demand, start: nat, wanted: nat, exact: bool, blocks: seq<string>, ok: bool)
    requires sub.step > 0
  {
    && (if ok then |blocks| == wanted else |blocks| < wanted)
    && Probed(sub, d.free, d.hash, SetOf(blocks), start, start + wanted)
    && (exact ==> (ok || |blocks| >= 2) && AllHit(sub, d.free, d.hash, start, start + wanted, SetOf(blocks)))
  }

  /** Claims `wanted` blocks, one worker each, in any interleaving with each other and with
      rivals. A failed worker fails the round; the others' blocks stay with the pool. */
  method ClaimIPBlocks(store: Store, alloc: Allocation, start: nat, wanted: nat, hash: nat -> nat)
    returns (ok: bool, blocks: seq<string>)
    requires store.Sound() && store.IsLegal() && alloc.pool in store.st.pools
    requires FreeView(store.sub, alloc.freeRanges.ranges, alloc.freeBlockCount) && alloc.step == store.sub.step
    requires 0 < wanted <= alloc.freeBlockCount
    modifies store
    ensures store.Sound() && store.IsLegal() && old(store.trace) <= store.trace
    ensures store.Written(alloc.pool) == old(store.Written(alloc.pool))
    ensures Gains(old(store.st), store.st, alloc.pool, blocks)
    ensures SetOf(blocks) <= Offered(store.sub, alloc.freeRanges.ranges)
    ensures Won(store.sub, old(DemandOf(alloc, hash)), start, wanted, old(Unhindered(store, alloc)), blocks, ok)
    ensures old(Unhindered(store, alloc)) ==> store.st.blocks.Keys <= old(store.st.blocks.Keys) + SetOf(blocks)
  {
    var workers := AimWorkers(store.sub, alloc, start, wanted, hash);
    ghost var free, count, s0 := alloc.freeRanges.ranges, alloc.freeBlockCount, store.st;
    ghost var exact := Unhindered(store, alloc);
    ghost var round := Round(store.sub, alloc.pool, s0, Offered(store.sub, free), workers, wanted, exact);
    AllInRound(round, free, count);
    RoundStarts(round, store.st);
    ghost var who;
    blocks, who := RunRound(store, alloc.pool, round, count, workers);
    ok := |blocks| == wanted;
    RoundEnds(round, store.st, old(DemandOf(alloc, hash)), start, blocks, who);
  }

  lemma AllInRound(r: Round, free: seq<Range>, count: int)
    requires r.sub.step > 0 && r.offered == Offered(r.sub, free)
    requires AllAimed(r.sub, free, count, r.workers)
    ensures forall i :: 0 <= i < |r.workers| ==> InRound(r, count, r.workers[i])
  {
    forall i | 0 <= i < |r.workers| ensures InRound(r, count, r.workers[i]) {
      assert Aimed(r.sub, free, count, r.workers[i]);
    }
  }

  /** Lets the workers run until all are done. */
  method RunRound(store: Store, pool: PoolKey, ghost round: Round, ghost count: int, workers: seq<Worker>)
    returns (blocks: seq<string>, ghost who: map<string, int>)
    requires store.Sound() && store.IsLegal() && round.sub == store.sub && round.pool == pool
    requires round.workers == workers && |workers| == round.wanted <= count
    requires round.exact ==> store.quiet && store.reliable
    requires forall i :: 0 <= i < |workers| ==> InRound(round, count, workers[i])
    requires Midway(round, store.st, UpTo(|workers|), UpTo(|workers|), [])
    modifies store
    ensures store.Sound() && store.IsLegal() && old(store.trace) <= store.trace
    ensures Midway(round, store.st, {}, {}, blocks) && Credited(workers, {}, blocks, who)
    ensures store.Written(pool) == old(store.Written(pool))
  {
    var pending := UpTo(|workers|);
    var untried := pending;
    blocks := [];
    who := map[];
    while pending != {}
      invariant store.Sound() && store.IsLegal() && old(store.trace) <= store.trace
      invariant Midway(round, store.st, pending, untried, blocks) && Credited(workers, pending, blocks, who)
      invariant store.Written(pool) == old(store.Written(pool))
      decreases |pending| + |untried|
    {
      var i: int :| i in pending;
      pending, untried, blocks, who :=
        Attempt(store, pool, round, count, workers[i], i, pending, untried, blocks, who);
    }
  }

  /** Both names of the worker are blocks on offer, different ones if there are two. */
  ghost predicate InRound(r: Round, count: int, w: Worker) {
    && w.first in r.offered && w.second in r.offered && IsBlock(r.sub, w.first) && IsBlock(r.sub, w.second)
    && (count >= 2 ==> w.first != w.second)
  }

  /** One API call of one worker: its first try, or the linear probe after a taken name. */
  method Attempt(store: Store, pool: PoolKey, ghost round: Round, ghost count: int, worker: Worker, i: int,
                 pending: set<int>, untried: set<int>, blocks: seq<string>, ghost who: map<string, int>)
    returns (pending': set<int>, untried': set<int>, blocks': seq<string>, ghost who': map<string, int>)
    requires store.Sound() && store.IsLegal() && i in pending
    requires Midway(round, store.st, pending, untried, blocks) && Credited(round.workers, pending, blocks, who)
    requires round.sub == store.sub && round.pool == pool && round.workers[i] == worker && round.wanted <= count
    requires round.exact ==> store.quiet && store.reliable
    requires InRound(round, count, worker)
    modifies store
    ensures store.Sound() && store.IsLegal() && old(store.trace) <= store.trace
    ensures Midway(round, store.st, pending', untried', blocks') && Credited(round.workers, pending', blocks', who')
    ensures store.Written(pool) == old(store.Written(pool))
    ensures |pending'| + |untried'| < |pending| + |untried|
  {
    var first := i in untried;
    var name := if first then worker.first else worker.second;
    ghost var before := store.st;
    var r := TryCreate(store, pool, round, name);
    untried' := untried - {i};
    pending' := pending - {i};
    blocks' := blocks;
    who' := who;
    if r == Done {
      blocks' := blocks + [name];
      who' := who[name := i];
    } else if r == AlreadyExists && first {
      pending' := pending;
    }
    AttemptKeeps(round, before, store.st, pending, untried, blocks, who, i, count, name, r);
    Fewer(pending, i);
    Fewer(untried, i);
  }

  /** The create call. */
  method TryCreate(store: Store, pool: PoolKey, ghost round: Round, name: string) returns (r: ApiResult)
    requires store.Sound() && store.IsLegal() && pool in store.st.pools && round.pool == pool
    requires IsBlock(store.sub, name)
    requires round.exact ==> store.quiet && store.reliable
    modifies store
    ensures store.Sound() && store.IsLegal() && old(store.trace) <= store.trace
    ensures store.Written(pool) == old(store.Written(pool))
    ensures Answered(round, old(store.st), store.st, name, r)
  {
    r := store.CreateBlock(pool, name);
  }

  /** What the answer to a create call says about the store. */
  ghost predicate Answered(r: Round, s: State, t: State, name: string, answer: ApiResult) {
    && r.pool in s.pools && Carried(r.pool, s, t) && t.pools[r.pool] == s.pools[r.pool]
    && (answer == Done ==>
          && name !in OwnNames(s, r.pool) && OwnNames(t, r.pool) == OwnNames(s, r.pool) + {name}
          && (r.exact ==> t.blocks == s.blocks[name := r.pool] && name !in s.blocks))
    && (answer != Done ==> SameView(r.pool, s, t) && (r.exact ==> t == s))
    && (answer == AlreadyExists ==> name in t.blocks) && (r.exact ==> answer != Failed)
  }

  /** One call keeps the round's books: a taken name leaves an untried worker its second name, and
      any other answer ends the worker. */
  lemma AttemptKeeps(r: Round, s: State, t: State, pending: set<int>, untried: set<int>, blocks: seq<string>,
                     who: map<string, int>, i: int, count: int, name: string, answer: ApiResult)
    requires Midway(r, s, pending, untried, blocks) && Credited(r.workers, pending, blocks, who) && i in pending
    requires InRound(r, count, r.workers[i]) && r.wanted <= count && Answered(r, s, t, name, answer)
    requires name == if i in untried then r.workers[i].first else r.workers[i].second
    ensures var again := answer == AlreadyExists && i in untried;
            var pending' := if again then pending else pending - {i};
            var blocks' := if answer == Done then blocks + [name] else blocks;
            && Midway(r, t, pending', untried - {i}, blocks')
            && Credited(r.workers, pending', blocks', if answer == Done then who[name := i] else who)
  {
    if answer == Done {
      Claimed(r, s, t, pending, untried, blocks, i, name);
      OneCredited(r.workers, pending, blocks, who, i, name);
    } else if answer == AlreadyExists && i in untried {
      Retried(r, s, t, pending, untried, blocks, i);
    } else {
      Lost(r, s, t, pending, untried, blocks, i, count);
    }
  }

  lemma Fewer(s: set<int>, i: int)
    ensures |s - {i}| <= |s| && (i in s ==> |s - {i}| < |s|)
  {
    if i !in s { assert s - {i} == s; }
  }

  lemma RoundStarts(r: Round, s: State)
    requires r.start == s && r.pool in s.pools && |r.workers| == r.wanted
    requires r.exact ==> forall n :: n in r.offered ==> n !in s.blocks
    ensures Midway(r, s, UpTo(r.wanted), UpTo(r.wanted), [])
  {
    assert OwnNames(s, r.pool) == OwnNames(s, r.pool) + SetOf<string>([]);
  }

  /** At the end every claimed block has its worker, and in an exact round every first target is
      among the blocks. */
  lemma RoundEnds(r: Round, s: State, d: Demand, start: nat, blocks: seq<string>, who: map<string, int>)
    requires r.sub.step > 0 && Midway(r, s, {}, {}, blocks) && Credited(r.workers, {}, blocks, who)
    requires AllPointed(r.sub, d.free, d.hash, start, r.workers) && r.offered == Offered(r.sub, d.free)
    ensures Won(r.sub, d, start, r.wanted, r.exact, blocks, |blocks| == r.wanted)
  {
    var free, hash := d.free, d.hash;
    var num: map<string, nat> := map n | n in who :: start + who[n];
    forall n | n in num ensures Probes(r.sub, free, hash, num[n], n) {
      assert Pointed(r.sub, free, hash, start + who[n], r.workers[who[n]]);
    }
    assert ProbedBy(r.sub, free, hash, SetOf(blocks), start, start + r.wanted, num);
    if r.exact {
      forall i | start <= i < start + r.wanted ensures FirstProbe(r.sub, free, hash, i) in SetOf(blocks) {
        assert Pointed(r.sub, free, hash, start + (i - start), r.workers[i - start]);
      }
    }
  }

  /** What stays the same during one claim round. */
  datatype Round = Round(sub: Subnet, pool: PoolKey, start: State, offered: set<string>, workers: seq<Worker>,
                         wanted: nat, exact: bool)

  /** Each claimed name belongs to a worker of its own that is done with one of its names. */
  ghost predicate Credited(workers: seq<Worker>, pending: set<int>, blocks: seq<string>, who: map<string, int>) {
    && who.Keys == SetOf(blocks)
    && (forall m, n :: m in who && n in who && m != n ==> who[m] != who[n])
    && (forall n :: n in who ==>
          0 <= who[n] < |workers| && who[n] !in pending &&
          (n == workers[who[n]].first || n == workers[who[n]].second))
  }

  lemma OneCredited(workers: seq<Worker>, pending: set<int>, blocks: seq<string>, who: map<string, int>, i: int,
                    name: string)
    requires Credited(workers, pending, blocks, who) && i in pending && 0 <= i < |workers|
    requires name == workers[i].first || name == workers[i].second
    ensures Credited(workers, pending - {i}, blocks + [name], who[name := i])
  {
    SetOfAppend(blocks, name);
  }

  /** Where a round stands: workers still `pending`, of them `untried` before their first
      attempt, and the names claimed so far. */
  ghost predicate Midway(r: Round, s: State, pending: set<int>, untried: set<int>, blocks: seq<string>) {
    && Gains(r.start, s, r.pool, blocks) && SetOf(blocks) <= r.offered
    && |r.workers| == r.wanted && untried <= pending && (forall i :: i in pending ==> 0 <= i < r.wanted)
    && |blocks| + |pending| <= r.wanted
    && (r.exact ==>
          && (forall n :: n in r.offered ==> n !in r.start.blocks)
          && (forall n :: n in s.blocks ==> n in r.start.blocks || n in SetOf(blocks))
          && (forall i :: 0 <= i < r.wanted && i !in untried ==> r.workers[i].first in SetOf(blocks))
          && (|blocks| + |pending| == r.wanted || |blocks| >= 2))
  }

  lemma Claimed(r: Round, s: State, t: State, pending: set<int>, untried: set<int>, blocks: seq<string>, i: int,
                name: string)
    requires Midway(r, s, pending, untried, blocks) && i in pending
    requires i in untried ==> name == r.workers[i].first
    requires name in r.offered && name !in OwnNames(s, r.pool) && OwnNames(t, r.pool) == OwnNames(s, r.pool) + {name}
    requires Carried(r.pool, s, t) && t.pools[r.pool] == s.pools[r.pool]
    requires r.exact ==> t.blocks == s.blocks[name := r.pool] && name !in s.blocks
    ensures Midway(r, t, pending - {i}, untried - {i}, blocks + [name])
  {
    SetOfAppend(blocks, name);
    assert name !in SetOf(blocks);
    assert name !in OwnNames(r.start, r.pool);
  }

  lemma Retried(r: Round, s: State, t: State, pending: set<int>, untried: set<int>, blocks: seq<string>, i: int)
    requires Midway(r, s, pending, untried, blocks) && i in pending
    requires SameView(r.pool, s, t)
    requires r.exact ==> t == s && r.workers[i].first in s.blocks && r.workers[i].first in r.offered
    ensures Midway(r, t, pending, untried - {i}, blocks)
  {}

  lemma Lost(r: Round, s: State, t: State, pending: set<int>, untried: set<int>, blocks: seq<string>, i: int,
             count: int)
    requires Midway(r, s, pending, untried, blocks) && i in pending
    requires SameView(r.pool, s, t)
    requires r.wanted <= count && (count >= 2 ==> r.workers[i].first != r.workers[i].second)
    requires r.exact ==> t == s && i !in untried && r.workers[i].second in s.blocks && r.workers[i].second in r.offered
    ensures Midway(r, t, pending - {i}, untried - {i}, blocks)
  {
    assert |pending - {i}| == |pending| - 1;
    if r.exact {
      TwoMembers(blocks, r.workers[i].first, r.workers[i].second, count);
    }
  }

  /** The numbers 0 .. n - 1. */
  function UpTo(n: nat): (r: set<int>)
    ensures |r| == n && forall i :: i in r <==> 0 <= i < n
  {
    if n == 0 then {} else UpTo(n - 1) + {n - 1}
  }

  /** A worker that lost both probes lost them to two different blocks. */
  lemma TwoMembers(blocks: seq<string>, a: string, b: string, count: int)
    requires a in SetOf(blocks) && b in SetOf(blocks)
    requires count >= 2 ==> a != b
    requires |blocks| < count
    ensures |blocks| >= 2
  {
    if |blocks| == 1 {
      Single(blocks);
    }
  }

  lemma Single(blocks: seq<string>)
    requires |blocks| == 1
    ensures SetOf(blocks) == {blocks[0]}
  {
  }

  // ---------------------------------------------------------------- releasing blocks

  /** Deletes the listed blocks that hold no pool address, in any order. */
  method ReleaseIPBlocks(store: Store, alloc: Allocation, items: seq<string>) returns (ok: bool)
    requires store.Sound() && alloc.pool in store.st.pools
    requires Distinct(items) && SetOf(items) == OwnNames(store.st, alloc.pool)
    requires alloc.poolRanges.ranges == store.st.pools[alloc.pool] && Merged(alloc.poolRanges.ranges)
    requires alloc.poolRanges.version == store.sub.version || alloc.poolRanges.ranges == []
    modifies store
    ensures store.Sound() && old(store.trace) <= store.trace && (old(store.IsLegal()) ==> store.IsLegal())
    ensures Carried(alloc.pool, old(store.st), store.st)
    ensures store.st.pools[alloc.pool] == old(store.st.pools)[alloc.pool]
    ensures store.Written(alloc.pool) == old(store.Written(alloc.pool))
    ensures OwnNames(store.st, alloc.pool) <= SetOf(items)
    ensures forall n :: n in items && !Vacant(store.sub, old(store.st), alloc.pool, n) ==>
                          n in OwnNames(store.st, alloc.pool)
    ensures ok ==> NoIdle(store.sub, store.st, alloc.pool)
    ensures store.reliable ==> ok
  {
    ghost var s0, legal := store.st, store.IsLegal();
    var pending := SetOf(items);
    ok := true;
    while pending != {}
      invariant store.Sound() && old(store.trace) <= store.trace && (legal ==> store.IsLegal())
      invariant Carried(alloc.pool, s0, store.st) && store.st.pools[alloc.pool] == s0.pools[alloc.pool]
      invariant store.Written(alloc.pool) == old(store.Written(alloc.pool))
      invariant pending <= OwnNames(store.st, alloc.pool) <= SetOf(items)
      invariant forall n :: n in items && !Vacant(store.sub, s0, alloc.pool, n) ==> n in OwnNames(store.st, alloc.pool)
      invariant store.reliable ==> ok
      invariant ok ==>
                  forall n :: n in OwnNames(store.st, alloc.pool) && n !in pending ==>
                                !Vacant(store.sub, s0, alloc.pool, n)
      decreases pending
    {
      var n :| n in pending;
      assert n in items;
      var done := ReleaseIfIdle(store, alloc, n);
      ok := ok && done;
      pending := pending - {n};
    }
    assert forall n :: Vacant(store.sub, store.st, alloc.pool, n) <==> Vacant(store.sub, s0, alloc.pool, n);
  }

  method ReleaseIfIdle(store: Store, alloc: Allocation, name: string) returns (ok: bool)
    requires store.Sound() && alloc.pool in store.st.pools && name in OwnNames(store.st, alloc.pool)
    requires alloc.poolRanges.ranges == store.st.pools[alloc.pool] && Merged(alloc.poolRanges.ranges)
    requires alloc.poolRanges.version == store.sub.version || alloc.poolRanges.ranges == []
    modifies store
    ensures store.Sound() && old(store.trace) <= store.trace && (old(store.IsLegal()) ==> store.IsLegal())
    ensures Carried(alloc.pool, old(store.st), store.st)
    ensures store.st.pools[alloc.pool] == old(store.st.pools)[alloc.pool]
    ensures store.Written(alloc.pool) == old(store.Written(alloc.pool))
    ensures OwnNames(store.st, alloc.pool) ==
            old(OwnNames(store.st, alloc.pool)) -
            (if ok && Vacant(store.sub, old(store.st), alloc.pool, name) then {name} else {})
    ensures store.reliable ==> ok
  {
    var parsed, br := ParseRangesFromIPBlocks(store.sub, [name]);
    MergedProper(alloc.poolRanges.ranges);
    NumberName(store.sub, name);
    var q := NumberOf(store.sub, name);
    forall a ensures In(br.ranges, a) <==> a / store.sub.step == q {
      BlockRangesIn(store.sub, Numbers(store.sub, [name]), a);
      assert Numbers(store.sub, [name]) == [q];
    }
    var common := br.Intersect(alloc.poolRanges);
    MergedProper(common.ranges);
    var n := common.Count();
    FlatInAll(common.ranges);
    HasFirst(Flat(common.ranges));
    ok := true;
    if n == 0 {
      forall a ensures !In(common.ranges, a) { assert a !in Flat(common.ranges); }
      ok := store.DeleteBlock(alloc.pool, name);
    }
  }

  // ---------------------------------------------------------------- scaling up

  function CeilDiv(a: int, step: int): int
    requires step > 0
  {
    if a % step != 0 then a / step + 1 else a / step
  }

  /** The least number of steps that reaches `a`. */
  lemma CeilDivLeast(a: int, step: int)
    requires step > 0
    ensures CeilDiv(a, step) * step >= a > (CeilDiv(a, step) - 1) * step
    ensures forall k :: k * step >= a <==> k >= CeilDiv(a, step)
  {
    var c := CeilDiv(a, step);
    assert a == a / step * step + a % step;
    assert c * step == (c - 1) * step + step;
    forall k ensures k * step >= a <==> k >= c {
      if k >= c { MulMono(c, k, step); } else { MulMono(k, c - 1, step); }
    }
  }

  /** With the least number of steps less than one step is left over. */
  lemma CeilDivTight(a: int, n: int, step: int)
    requires step > 0 && n == CeilDiv(a, step)
    ensures a <= n * step < a + step
  {
    CeilDivLeast(a, step);
    assert n * step == (n - 1) * step + step;
  }

  lemma CeilDivShift(n: int, a: int, step: int)
    requires step > 0
    ensures CeilDiv(a - n * step, step) == CeilDiv(a, step) - n
  {
    var c, d := CeilDiv(a, step), CeilDiv(a - n * step, step);
    CeilDivLeast(a, step);
    CeilDivLeast(a - n * step, step);
    Distribute(c - n, n, step);
    Distribute(d, n, step);
    assert c - n >= d && d + n >= c;
  }

  lemma Distribute(x: int, n: int, step: int)
    ensures (x + n) * step == x * step + n * step
  {}

  /** What a scaling run relies on when it starts. */
  ghost predicate Ready(store: Store, alloc: Allocation)
    reads store, alloc, alloc.poolRanges, alloc.freeRanges
  {
    && store.Sound() && store.IsLegal() && alloc.pool in store.st.pools
    && alloc.poolRanges.ranges == store.st.pools[alloc.pool]
    && (alloc.poolRanges.version == store.sub.version || alloc.poolRanges.ranges == [])
    && alloc.step == store.sub.step
    && FreeView(store.sub, alloc.freeRanges.ranges, alloc.freeBlockCount)
  }

  /** The pool grew to `replicas` addresses and kept the old ones. */
  ghost predicate Enlarged(s: State, p: PoolKey, was: seq<Range>, replicas: int) {
    p in s.pools && |Flat(s.pools[p])| == replicas && forall a :: In(was, a) ==> In(s.pools[p], a)
  }

  /** Within its blocks, none of them idle. */
  ghost predicate Snug(sub: Subnet, s: State, p: PoolKey)
    requires sub.step > 0
  {
    p in s.pools && Contained(sub, s, p) && NoIdle(sub, s, p)
  }

  /** At most one patch was written, and it kept the old addresses. */
  ghost predicate GrewOnce(before: seq<Change>, after: seq<Change>, was: seq<Range>) {
    after == before ||
    exists now :: after == before + [Patched(Some(was), now)] && forall a :: In(was, a) ==> In(now, a)
  }

  /** No rival is at work, calls fail only on taken names, and the free list is current. */
  ghost predicate Unhindered(store: Store, alloc: Allocation)
    requires store.sub.step > 0
    reads store, alloc, alloc.freeRanges
  {
    store.quiet && store.reliable && UpToDate(store.sub, store.st, alloc.freeRanges.ranges)
  }

  /** Nothing but new blocks of p came about, and p's ranges are the same. */
  ghost predicate OnlyClaims(s: State, t: State, p: PoolKey) {
    && t.blocks.Keys <= s.blocks.Keys + OwnNames(t, p) && OwnNames(s, p) <= OwnNames(t, p)
    && p in s.pools && p in t.pools && t.pools[p] == s.pools[p]
  }

  /** What a scale-up asks for: the replicas, out of a free list of `count` blocks that workers probe
      by a hash. */
  datatype Demand = Demand(replicas: int, free: seq<Range>, count: int, hash: nat -> nat)

  ghost function DemandOf(alloc: Allocation, hash: nat -> nat): Demand
    reads alloc, alloc.freeRanges
  {
    Demand(alloc.replicas, alloc.freeRanges.ranges, alloc.freeBlockCount, hash)
  }

  /** What a scale-up does to the pool's blocks. If those it has suffice, it claims none; if the free
      list is too short, nothing changes. Otherwise it claims up to the least number that suffices,
      all of it on success, each block by a worker of its own that probed it; workers are numbered
      on from the blocks the pool had. Unhindered it succeeds or claims two blocks, and every block
      a worker points at first is among those claimed. */
  ghost predicate Acquired(sub: Subnet, s: State, t: State, p: PoolKey, d: Demand, exact: bool, ok: bool)
    requires sub.step > 0
  {
    var n, goal := |OwnNames(s, p)|, CeilDiv(d.replicas, sub.step);
    if d.replicas <= n * sub.step then OwnNames(t, p) <= OwnNames(s, p)
    else if goal - n > d.count then !ok && OwnNames(t, p) == OwnNames(s, p)
    else Extended(sub, OwnNames(s, p), OwnNames(t, p), d, goal, exact, ok)
  }

  ghost predicate Extended(sub: Subnet, was: set<string>, now: set<string>, d: Demand, goal: int, exact: bool, ok: bool)
    requires sub.step > 0
  {
    && was <= now
    && (if ok then |now| == goal else |now| <= goal)
    && Probed(sub, d.free, d.hash, now - was, |was|, goal)
    && (exact ==> (ok || |now| >= |was| + 2) && AllHit(sub, d.free, d.hash, |was|, goal, now - was))
  }

  /** Unhindered it succeeds, if the free list suffices, or brings two blocks. */
  lemma AcquiredGains(sub: Subnet, s: State, t: State, p: PoolKey, d: Demand, ok: bool)
    requires sub.step > 0 && Acquired(sub, s, t, p, d, true, ok)
    requires d.replicas > |OwnNames(s, p)| * sub.step && CeilDiv(d.replicas, sub.step) - |OwnNames(s, p)| <= d.count
    ensures ok || |OwnNames(t, p)| >= |OwnNames(s, p)| + 2
  {}

  /** A scale-up that stops before it has claimed anything. */
  lemma NothingAcquired(sub: Subnet, s: State, t: State, p: PoolKey, d: Demand, exact: bool)
    requires sub.step > 0 && OwnNames(t, p) == OwnNames(s, p)
    ensures !exact ==> Acquired(sub, s, t, p, d, exact, false)
  {
    var n, goal := |OwnNames(s, p)|, CeilDiv(d.replicas, sub.step);
    CeilDivLeast(d.replicas, sub.step);
    assert n * sub.step >= d.replicas <==> n >= goal;
    assert OwnNames(t, p) - OwnNames(s, p) == {};
    var who: map<string, nat> := map[];
    assert ProbedBy(sub, d.free, d.hash, {}, n, goal, who);
  }

  /** Claims what is missing and grows the pool to `replicas` addresses. A pool whose ranges lie
      in its blocks ends that way, without idle block. */
  method ScaleUp(store: Store, alloc: Allocation, hash: nat -> nat) returns (ok: bool)
    requires Ready(store, alloc) && |Flat(alloc.poolRanges.ranges)| < alloc.replicas
    modifies store, alloc`poolRanges
    ensures store.Sound() && store.IsLegal() && old(store.trace) <= store.trace
    ensures Carried(alloc.pool, old(store.st), store.st)
    ensures forall a :: old(In(store.st.pools[alloc.pool], a)) ==> In(store.st.pools[alloc.pool], a)
    ensures ok ==> Enlarged(store.st, alloc.pool, old(store.st.pools)[alloc.pool], alloc.replicas)
    ensures ok && old(Contained(store.sub, store.st, alloc.pool)) ==> Snug(store.sub, store.st, alloc.pool)
    ensures ok ==> alloc.poolRanges.ranges == store.st.pools[alloc.pool]
    ensures GrewOnce(old(store.Written(alloc.pool)), store.Written(alloc.pool), old(store.st.pools)[alloc.pool])
    ensures Acquired(store.sub, old(store.st), store.st, alloc.pool, old(DemandOf(alloc, hash)),
                     old(Unhindered(store, alloc)), ok)
    ensures store.reliable && alloc.replicas <= old(|OwnNames(store.st, alloc.pool)|) * alloc.step ==> ok
    ensures old(Unhindered(store, alloc)) && !ok ==>
              OnlyClaims(old(store.st), store.st, alloc.pool) &&
              |OwnNames(store.st, alloc.pool)| < CeilDiv(alloc.replicas, alloc.step)
  {
    var items: seq<string>;
    ghost var s0 := store.st;
    ok, items := store.ListBlocks(alloc.pool);
    ContainedBySame(store.sub, s0, store.st, alloc.pool);
    NothingAcquired(store.sub, s0, store.st, alloc.pool, DemandOf(alloc, hash), old(Unhindered(store, alloc)));
    if !ok {
      return;
    }
    DistinctCard(items);
    var total := |items| * alloc.step;
    if alloc.replicas <= total {
      ok := GrowInPlace(store, alloc, items);
    } else {
      ok := GrowByClaim(store, alloc, items, hash);
    }
  }

  lemma ContainedBySame(sub: Subnet, s: State, t: State, p: PoolKey)
    requires sub.step > 0 && p in s.pools && SameView(p, s, t)
    ensures Contained(sub, s, p) <==> Contained(sub, t, p)
  {
    if Contained(sub, s, p) { ContainedByView(sub, s, t, p, t.pools[p]); }
    if Contained(sub, t, p) { ContainedByView(sub, t, s, p, s.pools[p]); }
  }

  /** Gaining blocks keeps a pool contained. */
  lemma ContainedByMore(sub: Subnet, s: State, t: State, p: PoolKey)
    requires sub.step > 0 && p in s.pools && p in t.pools && t.pools[p] == s.pools[p]
    requires OwnNames(s, p) <= OwnNames(t, p) && Contained(sub, s, p)
    ensures Contained(sub, t, p)
  {
    forall a | In(t.pools[p], a) ensures Owns(sub, t, p, a) {
      assert Name(sub, a / sub.step) in OwnNames(s, p);
    }
  }

  /** Losing blocks without pool address keeps it contained, too. */
  lemma ContainedByLess(sub: Subnet, s: State, t: State, p: PoolKey)
    requires Named(sub) && p in s.pools && p in t.pools && t.pools[p] == s.pools[p]
    requires forall n :: n in OwnNames(s, p) && !Vacant(sub, s, p, n) ==> n in OwnNames(t, p)
    requires Contained(sub, s, p)
    ensures Contained(sub, t, p)
  {
    forall a | In(t.pools[p], a) ensures Owns(sub, t, p, a) {
      assert Owns(sub, s, p, a);
      NameNumber(sub, a / sub.step);
      assert Name(sub, a / sub.step) in OwnNames(s, p);
    }
  }

  /** The listed blocks suffice; those left idle are released. */
  method GrowInPlace(store: Store, alloc: Allocation, items: seq<string>) returns (ok: bool)
    requires Ready(store, alloc) && |Flat(alloc.poolRanges.ranges)| < alloc.replicas <= |items| * alloc.step
    requires Distinct(items) && SetOf(items) == OwnNames(store.st, alloc.pool)
    modifies store, alloc`poolRanges
    ensures store.Sound() && store.IsLegal() && old(store.trace) <= store.trace
    ensures Carried(alloc.pool, old(store.st), store.st)
    ensures forall a :: old(In(store.st.pools[alloc.pool], a)) ==> In(store.st.pools[alloc.pool], a)
    ensures ok ==> Enlarged(store.st, alloc.pool, old(store.st.pools)[alloc.pool], alloc.replicas)
    ensures ok && old(Contained(store.sub, store.st, alloc.pool)) ==> Snug(store.sub, store.st, alloc.pool)
    ensures ok ==> alloc.poolRanges.ranges == store.st.pools[alloc.pool]
    ensures GrewOnce(old(store.Written(alloc.pool)), store.Written(alloc.pool), old(store.st.pools)[alloc.pool])
    ensures OwnNames(store.st, alloc.pool) <= old(OwnNames(store.st, alloc.pool))
    ensures store.reliable ==> ok
  {
    var total := |items| * alloc.step;
    ok := ScaleUpWithinIPBlocks(store, alloc, items);
    if !ok {
      return;
    }
    store.LegalInv();
    ghost var s := store.st;
    if total - alloc.replicas >= alloc.step {
      ok := ReleaseIPBlocks(store, alloc, items);
      if Contained(store.sub, s, alloc.pool) { ContainedByLess(store.sub, s, store.st, alloc.pool); }
    } else if Contained(store.sub, s, alloc.pool) {
      GuardSkipsNothing(store.sub, s, alloc.pool, items);
    }
  }

  /** How many blocks n blocks fall short by. */
  method Missing(n: nat, replicas: int, step: int) returns (wanted: int)
    requires step > 0 && replicas > n * step
    ensures wanted == CeilDiv(replicas, step) - n && wanted > 0
  {
    var delta := replicas - n * step;
    wanted := delta / step;
    if delta % step != 0 {
      wanted := wanted + 1;
    }
    CeilDivShift(n, replicas, step);
    CeilDivLeast(delta, step);
  }

  /** Claims as many blocks as the listed ones fall short by, if the free list has them. */
  method ClaimMissing(store: Store, alloc: Allocation, items: seq<string>, hash: nat -> nat)
    returns (ok: bool, all: seq<string>)
    requires Ready(store, alloc) && alloc.replicas > |items| * alloc.step
    requires Distinct(items) && SetOf(items) == OwnNames(store.st, alloc.pool)
    modifies store
    ensures store.Sound() && store.IsLegal() && old(store.trace) <= store.trace
    ensures store.Written(alloc.pool) == old(store.Written(alloc.pool))
    ensures ClaimedAll(old(store.st), store.st, alloc.pool, items, all)
    ensures if ok then |all| == CeilDiv(alloc.replicas, alloc.step) else |all| < CeilDiv(alloc.replicas, alloc.step)
    ensures Acquired(store.sub, old(store.st), store.st, alloc.pool, old(DemandOf(alloc, hash)),
                     old(Unhindered(store, alloc)), ok)
    ensures old(Unhindered(store, alloc)) ==> store.st.blocks.Keys <= old(store.st.blocks.Keys) + SetOf(all)
  {
    var wanted := Missing(|items|, alloc.replicas, alloc.step);
    ghost var s, d := store.st, DemandOf(alloc, hash);
    if alloc.freeBlockCount < wanted {
      NoneClaimed(s, alloc.pool, items);
      ShortAcquires(store.sub, s, alloc.pool, d, old(Unhindered(store, alloc)), items);
      return false, items;
    }
    var blocks: seq<string>;
    ok, blocks := ClaimIPBlocks(store, alloc, |items|, wanted, hash);
    all := items + blocks;
    SomeClaimed(s, store.st, alloc.pool, items, blocks);
    RoundAcquires(store.sub, s, store.st, alloc.pool, d, old(Unhindered(store, alloc)), items, blocks, wanted, ok);
  }

  /** A free list that is too short changes nothing. */
  lemma ShortAcquires(sub: Subnet, s: State, p: PoolKey, d: Demand, exact: bool, items: seq<string>)
    requires sub.step > 0 && Distinct(items) && SetOf(items) == OwnNames(s, p) && d.replicas > |items| * sub.step
    requires CeilDiv(d.replicas, sub.step) - |items| > d.count
    ensures Acquired(sub, s, s, p, d, exact, false)
  {
    DistinctCard(items);
  }

  lemma RoundAcquires(sub: Subnet, s: State, t: State, p: PoolKey, d: Demand, exact: bool, items: seq<string>,
                      blocks: seq<string>, wanted: nat, ok: bool)
    requires sub.step > 0 && Distinct(items) && SetOf(items) == OwnNames(s, p) && d.replicas > |items| * sub.step
    requires Gains(s, t, p, blocks) && 0 < wanted <= d.count && |items| + wanted == CeilDiv(d.replicas, sub.step)
    requires Won(sub, d, |items|, wanted, exact, blocks, ok)
    ensures Acquired(sub, s, t, p, d, exact, ok)
  {
    DistinctCard(items);
    DistinctCard(blocks);
    RoundExtends(sub, OwnNames(s, p), OwnNames(t, p), d, exact, blocks, wanted, CeilDiv(d.replicas, sub.step), ok);
  }

  lemma RoundExtends(sub: Subnet, was: set<string>, now: set<string>, d: Demand, exact: bool, blocks: seq<string>,
                     wanted: nat, goal: int, ok: bool)
    requires sub.step > 0 && |was| + wanted == goal && Won(sub, d, |was|, wanted, exact, blocks, ok)
    requires SetOf(blocks) !! was && now == was + SetOf(blocks) && |SetOf(blocks)| == |blocks|
    ensures Extended(sub, was, now, d, goal, exact, ok)
  {
    var gained := SetOf(blocks);
    assert now - was == gained;
    NowHas(was, now, gained);
    ProbedTo(sub, d, gained, now - was, |was|, |was| + wanted, goal);
    if exact { HitTo(sub, d, gained, now - was, |was|, |was| + wanted, goal); }
  }

  lemma NowHas(was: set<string>, now: set<string>, gained: set<string>)
    requires gained !! was && now == was + gained
    ensures was <= now && |now| == |was| + |gained|
  {}

  lemma ProbedTo(sub: Subnet, d: Demand, a: set<string>, b: set<string>, from: nat, to: int, goal: int)
    requires sub.step > 0 && a == b && to == goal && Probed(sub, d.free, d.hash, a, from, to)
    ensures Probed(sub, d.free, d.hash, b, from, goal)
  {}

  lemma HitTo(sub: Subnet, d: Demand, a: set<string>, b: set<string>, from: nat, to: int, goal: int)
    requires sub.step > 0 && a == b && to == goal && AllHit(sub, d.free, d.hash, from, to, a)
    ensures AllHit(sub, d.free, d.hash, from, goal, b)
  {}

  /** The pool kept its ranges and owns exactly `all`, at least the blocks listed before. */
  ghost predicate ClaimedAll(s: State, t: State, p: PoolKey, items: seq<string>, all: seq<string>) {
    && p in s.pools && Carried(p, s, t) && t.pools[p] == s.pools[p]
    && Distinct(all) && SetOf(all) == OwnNames(t, p) && |OwnNames(t, p)| == |all|
    && OwnNames(s, p) <= OwnNames(t, p) && items <= all
  }

  lemma NoneClaimed(s: State, p: PoolKey, items: seq<string>)
    requires p in s.pools && Distinct(items) && SetOf(items) == OwnNames(s, p)
    ensures ClaimedAll(s, s, p, items, items)
  {
    DistinctCard(items);
  }

  lemma SomeClaimed(s: State, t: State, p: PoolKey, items: seq<string>, blocks: seq<string>)
    requires Distinct(items) && SetOf(items) == OwnNames(s, p) && Gains(s, t, p, blocks)
    ensures ClaimedAll(s, t, p, items, items + blocks) && SetOf(items + blocks) == SetOf(items) + SetOf(blocks)
  {
    Joined(items, blocks);
    DistinctCard(items + blocks);
  }

  /** The listed blocks do not suffice; the rest is claimed first. */
  method GrowByClaim(store: Store, alloc: Allocation, items: seq<string>, hash: nat -> nat) returns (ok: bool)
    requires Ready(store, alloc) && |Flat(alloc.poolRanges.ranges)| < alloc.replicas
    requires alloc.replicas > |items| * alloc.step
    requires Distinct(items) && SetOf(items) == OwnNames(store.st, alloc.pool)
    modifies store, alloc`poolRanges
    ensures store.Sound() && store.IsLegal() && old(store.trace) <= store.trace
    ensures Carried(alloc.pool, old(store.st), store.st)
    ensures forall a :: old(In(store.st.pools[alloc.pool], a)) ==> In(store.st.pools[alloc.pool], a)
    ensures ok ==> Enlarged(store.st, alloc.pool, old(store.st.pools)[alloc.pool], alloc.replicas)
    ensures ok && old(Contained(store.sub, store.st, alloc.pool)) ==> Snug(store.sub, store.st, alloc.pool)
    ensures ok ==> alloc.poolRanges.ranges == store.st.pools[alloc.pool]
    ensures GrewOnce(old(store.Written(alloc.pool)), store.Written(alloc.pool), old(store.st.pools)[alloc.pool])
    ensures old(OwnNames(store.st, alloc.pool)) <= OwnNames(store.st, alloc.pool)
    ensures Acquired(store.sub, old(store.st), store.st, alloc.pool, old(DemandOf(alloc, hash)),
                     old(Unhindered(store, alloc)), ok)
    ensures old(Unhindered(store, alloc)) && !ok ==>
              OnlyClaims(old(store.st), store.st, alloc.pool) &&
              |OwnNames(store.st, alloc.pool)| < CeilDiv(alloc.replicas, alloc.step)
  {
    var all: seq<string>;
    ghost var s := store.st;
    ok, all := ClaimMissing(store, alloc, items, hash);
    if Contained(store.sub, s, alloc.pool) { ContainedByMore(store.sub, s, store.st, alloc.pool); }
    if ok {
      CeilDivTight(alloc.replicas, |all|, alloc.step);
      ok := GrowTightly(store, alloc, all);
    }
  }

  /** Scaling within just enough blocks leaves none of a contained pool idle. */
  method GrowTightly(store: Store, alloc: Allocation, all: seq<string>) returns (ok: bool)
    requires Ready(store, alloc) && Distinct(all) && SetOf(all) == OwnNames(store.st, alloc.pool)
    requires |Flat(alloc.poolRanges.ranges)| < alloc.replicas <= |all| * alloc.step < alloc.replicas + alloc.step
    modifies store, alloc`poolRanges
    ensures store.Sound() && store.IsLegal() && old(store.trace) <= store.trace
    ensures Carried(alloc.pool, old(store.st), store.st)
    ensures OwnNames(store.st, alloc.pool) == old(OwnNames(store.st, alloc.pool))
    ensures forall a :: old(In(store.st.pools[alloc.pool], a)) ==> In(store.st.pools[alloc.pool], a)
    ensures ok ==> Enlarged(store.st, alloc.pool, old(store.st.pools)[alloc.pool], alloc.replicas)
    ensures ok && old(Contained(store.sub, store.st, alloc.pool)) ==> Snug(store.sub, store.st, alloc.pool)
    ensures ok ==> alloc.poolRanges.ranges == store.st.pools[alloc.pool]
    ensures GrewOnce(old(store.Written(alloc.pool)), store.Written(alloc.pool), old(store.st.pools)[alloc.pool])
    ensures store.reliable ==> ok
  {
    ok := ScaleUpWithinIPBlocks(store, alloc, all);
    store.LegalInv();
    if ok && Contained(store.sub, store.st, alloc.pool) {
      GuardSkipsNothing(store.sub, store.st, alloc.pool, all);
    }
  }

  lemma Joined(a: seq<string>, b: seq<string>)
    requires Distinct(a) && Distinct(b) && SetOf(a) !! SetOf(b)
    ensures Distinct(a + b) && SetOf(a + b) == SetOf(a) + SetOf(b)
  {
    var c := a + b;
    forall i, j | 0 <= i < j < |c| ensures c[i] != c[j] {
      if i < |a| <= j {
        assert c[i] in SetOf(a) && c[j] in SetOf(b);
      }
    }
  }

  // ---------------------------------------------------------------- scaling down

  /** The free addresses a scale-down keeps: the lowest, as many as replicas exceed use. */
  function KeptFree(status: PoolStatus, replicas: int): seq<int> {
    if status.used < replicas
    then Flat(status.free)[..Clamp(replicas - status.used, |Flat(status.free)|)]
    else []
  }

  /** What scale-down turns ranges `was` into. */
  ghost predicate Shrunk(now: seq<Range>, was: seq<Range>, status: PoolStatus, replicas: int) {
    && Merged(now)
    && forall a :: In(now, a) <==> (In(was, a) && !In(status.free, a)) || a in KeptFree(status, replicas)
  }

  /** The status describes the pool: free addresses are among the ranges, the rest is used. */
  ghost predicate Consistent(was: seq<Range>, status: PoolStatus) {
    && (forall a :: In(status.free, a) ==> In(was, a))
    && status.used == |Flat(was)| - |Flat(status.free)|
  }

  /** The check that makes a scale-down wait. */
  predicate Waits(alloc: Allocation) {
    alloc.status == None || (alloc.workload && alloc.status.value.used != alloc.replicas)
  }

  /** At most one patch was written: the shrunk ranges. */
  ghost predicate ShrankOnce(before: seq<Change>, after: seq<Change>, was: seq<Range>, status: PoolStatus,
                             replicas: int)
  {
    after == before || exists now :: after == before + [Patched(Some(was), now)] && Shrunk(now, was, status, replicas)
  }

  /** The pool lies in its blocks, and its status describes it. */
  ghost predicate Sound(sub: Subnet, s: State, alloc: Allocation)
    requires sub.step > 0 && alloc.pool in s.pools && alloc.status.Some?
  {
    Contained(sub, s, alloc.pool) && Consistent(s.pools[alloc.pool], alloc.status.value)
  }

  /** Keeps used addresses, gives up free ones and releases what became idle. */
  method ScaleDown(store: Store, alloc: Allocation) returns (ok: bool)
    requires Ready(store, alloc) && alloc.replicas < |Flat(alloc.poolRanges.ranges)|
    requires alloc.status.Some? ==> Merged(alloc.status.value.free)
    modifies store, alloc`poolRanges, alloc.poolRanges
    ensures store.Sound() && old(store.trace) <= store.trace && Carried(alloc.pool, old(store.st), store.st)
    ensures Waits(alloc) ==> ok && store.st == old(store.st) && store.trace == old(store.trace)
    ensures ok ==> alloc.poolRanges.ranges == store.st.pools[alloc.pool]
    ensures !Waits(alloc) && ok ==>
              Shrunk(store.st.pools[alloc.pool], old(store.st.pools)[alloc.pool], alloc.status.value, alloc.replicas)
    ensures !Waits(alloc) ==>
              ShrankOnce(old(store.Written(alloc.pool)), store.Written(alloc.pool), old(store.st.pools)[alloc.pool],
                         alloc.status.value, alloc.replicas)
    ensures Waits(alloc) || old(KeptInside(store.sub, store.st, alloc)) || old(alloc.pool in store.st.cleaning) ==>
              store.IsLegal()
    ensures !Waits(alloc) && ok && old(Sound(store.sub, store.st, alloc)) ==> NoIdle(store.sub, store.st, alloc.pool)
    ensures store.reliable ==> ok
  {
    if alloc.status == None {
      return true;
    }
    var used := alloc.status.value.used;
    if alloc.workload {
      if used != alloc.replicas {
        return true;
      }
    }
    store.LegalInv();
    ghost var was, s0 := alloc.poolRanges.ranges, store.st;
    var ranges := ShrinkRanges(store.sub, alloc);
    if KeptInside(store.sub, s0, alloc) || alloc.pool in s0.cleaning {
      ShrinksInside(store.sub, s0, alloc, ranges.ranges);
    }
    alloc.poolRanges := ranges;
    ok := store.PatchRanges(alloc.pool, ranges.ranges);
    if !ok {
      return;
    }
    MergedProper(ranges.ranges);
    var size := ranges.Count();
    if size == 0 {
      NoAddress(ranges.ranges);
      ok := DeleteAllOf(store, alloc.pool);
      return;
    }
    ok := ReleaseAfter(store, alloc, s0);
  }

  /** The tail of a scale-down: releases idle blocks unless the guard says there are none. */
  method ReleaseAfter(store: Store, alloc: Allocation, ghost s0: State) returns (ok: bool)
    requires store.Sound() && alloc.pool in store.st.pools && alloc.pool in s0.pools
    requires alloc.poolRanges.ranges == store.st.pools[alloc.pool] && alloc.poolRanges.version == store.sub.version
    requires Inv(store.sub, s0) && OwnNames(s0, alloc.pool) == OwnNames(store.st, alloc.pool)
    requires alloc.step == store.sub.step && alloc.status.Some? && Merged(alloc.status.value.free)
    requires 0 <= alloc.replicas < |Flat(s0.pools[alloc.pool])|
    requires Shrunk(store.st.pools[alloc.pool], s0.pools[alloc.pool], alloc.status.value, alloc.replicas)
    modifies store
    ensures store.Sound() && old(store.trace) <= store.trace && (old(store.IsLegal()) ==> store.IsLegal())
    ensures Carried(alloc.pool, old(store.st), store.st)
    ensures store.st.pools[alloc.pool] == old(store.st.pools)[alloc.pool]
    ensures store.Written(alloc.pool) == old(store.Written(alloc.pool))
    ensures ok && Sound(store.sub, s0, alloc) ==> NoIdle(store.sub, store.st, alloc.pool)
    ensures store.reliable ==> ok
  {
    var items: seq<string>;
    ok, items := store.ListBlocks(alloc.pool);
    if !ok {
      return;
    }
    var total := |items| * alloc.step;
    if total - alloc.replicas < alloc.step {
      if Sound(store.sub, s0, alloc) {
        GuardAfterShrink(store.sub, s0, store.st, alloc, items);
      }
      return;
    }
    ok := ReleaseIPBlocks(store, alloc, items);
  }

  /** A consistent scale-down of a contained pool passes the guard only without idle block. */
  lemma GuardAfterShrink(sub: Subnet, s: State, t: State, alloc: Allocation, items: seq<string>)
    requires Named(sub) && Gridded(sub, t) && alloc.pool in s.pools && alloc.pool in t.pools
    requires Contained(sub, s, alloc.pool) && Merged(s.pools[alloc.pool])
    requires OwnNames(s, alloc.pool) == OwnNames(t, alloc.pool) == SetOf(items) && Distinct(items)
    requires alloc.status.Some? && Merged(alloc.status.value.free)
    requires Consistent(s.pools[alloc.pool], alloc.status.value) && 0 <= alloc.replicas < |Flat(s.pools[alloc.pool])|
    requires Shrunk(t.pools[alloc.pool], s.pools[alloc.pool], alloc.status.value, alloc.replicas)
    requires |items| * sub.step - alloc.replicas < sub.step
    ensures NoIdle(sub, t, alloc.pool)
  {
    var p := alloc.pool;
    ConsistentShrinks(t.pools[p], s.pools[p], alloc.status.value, alloc.replicas);
    forall a | In(t.pools[p], a) ensures Owns(sub, t, p, a) { OwnsByView(sub, s, t, p, a); }
    GuardSkipsNothing(sub, t, p, items);
  }

  /** The write of a scale-down is one the pool may make. */
  lemma ShrinksInside(sub: Subnet, s: State, alloc: Allocation, now: seq<Range>)
    requires Named(sub) && Inv(sub, s) && alloc.pool in s.pools && alloc.status.Some?
    requires Shrunk(now, s.pools[alloc.pool], alloc.status.value, alloc.replicas)
    requires KeptInside(sub, s, alloc) || alloc.pool in s.cleaning
    ensures MayPatch(sub, s, alloc.pool, now)
  {
    if Active(s, alloc.pool) {
      assert Contained(sub, s, alloc.pool);
      forall a | In(now, a) ensures Owns(sub, s, alloc.pool, a) {
        if a !in KeptFree(alloc.status.value, alloc.replicas) { assert In(s.pools[alloc.pool], a); }
      }
    }
  }

  lemma NoAddress(rs: seq<Range>)
    requires Merged(rs) && |Flat(rs)| == 0
    ensures rs == []
  {}

  /** With a consistent status a scale-down keeps every used address, adds none, and ends at
      the larger of use and replicas. */
  lemma ConsistentShrinks(now: seq<Range>, was: seq<Range>, status: PoolStatus, replicas: int)
    requires Merged(was) && Merged(status.free) && Consistent(was, status) && Shrunk(now, was, status, replicas)
    requires 0 <= replicas < |Flat(was)|
    ensures forall a :: In(now, a) ==> In(was, a)
    ensures forall a :: In(was, a) && !In(status.free, a) ==> In(now, a)
    ensures |Flat(now)| == if status.used > replicas then status.used else replicas
  {
    var f := Flat(status.free);
    var kept := KeptFree(status, replicas);
    MergedIncreasing(status.free);
    FlatInAll(status.free);
    assert forall a :: a in kept ==> a in f;
    var sn := AsSet(now);
    var sw := AsSet(was);
    var sf := AsSet(status.free);
    var sk := set a | a in kept;
    IncreasingCard(kept);
    CardDisjoint(sw, sw - sf, sf);
    CardDisjoint(sn, sw - sf, sk);
  }

  /** Every address kept from the free list lies in the pool's blocks. */
  ghost predicate KeptInside(sub: Subnet, s: State, alloc: Allocation)
    requires sub.step > 0
  {
    alloc.status.Some? ==>
      forall a :: a in KeptFree(alloc.status.value, alloc.replicas) ==> Owns(sub, s, alloc.pool, a)
  }

  /** The range arithmetic of scaling down; the pool's range object is changed in place. */
  method ShrinkRanges(sub: Subnet, alloc: Allocation) returns (ranges: IPRanges)
    requires sub.version != Unknown
    requires alloc.status.Some? && Merged(alloc.status.value.free) && Merged(alloc.poolRanges.ranges)
    requires alloc.poolRanges.version == sub.version
    modifies alloc.poolRanges
    ensures ranges == alloc.poolRanges == old(alloc.poolRanges) && ranges.version == sub.version
    ensures Shrunk(ranges.ranges, old(alloc.poolRanges.ranges), alloc.status.value, alloc.replicas)
  {
    var status := alloc.status.value;
    ghost var was := alloc.poolRanges.ranges;
    MergedProper(was);
    MergedProper(status.free);
    var free := new IPRanges.Parse(sub.version, status.free);
    ranges := alloc.poolRanges.Diff(free);
    ghost var left := ranges.ranges;
    MergedProper(left);
    assert forall a :: In(left, a) <==> In(was, a) && !In(status.free, a);
    if status.used < alloc.replicas {
      var kept := KeepFree(free, status, alloc.replicas);
      MergedProper(kept.ranges);
      ranges := ranges.Union(kept);
    }
  }

  /** The first free addresses, as many as replicas exceed use. */
  method KeepFree(free: IPRanges, status: PoolStatus, replicas: int) returns (kept: IPRanges)
    requires Merged(free.ranges) && free.ranges == status.free && status.used < replicas
    ensures fresh(kept) && kept.version == free.version && Merged(kept.ranges)
    ensures forall a :: In(kept.ranges, a) <==> a in KeptFree(status, replicas)
  {
    kept := free.Slice(0, replicas - status.used - 1);
    FlatInAll(kept.ranges);
  }

  // ---------------------------------------------------------------- when scaling down is safe

  /** A scale-down leaves the pool within its blocks exactly when the free addresses it keeps
      are within them. */
  lemma ScaleDownInsideIff(sub: Subnet, s: State, p: PoolKey, now: seq<Range>, status: PoolStatus, replicas: int)
    requires sub.step > 0 && p in s.pools && Contained(sub, s, p) && Shrunk(now, s.pools[p], status, replicas)
    ensures (forall a :: In(now, a) ==> Owns(sub, s, p, a)) <==>
            (forall a :: a in KeptFree(status, replicas) ==> Owns(sub, s, p, a))
  {
    if forall a :: a in KeptFree(status, replicas) ==> Owns(sub, s, p, a) {
      forall a | In(now, a) ensures Owns(sub, s, p, a) {
        if a !in KeptFree(status, replicas) { assert In(s.pools[p], a); }
      }
    }
    if forall a :: In(now, a) ==> Owns(sub, s, p, a) {
      forall a | a in KeptFree(status, replicas) ensures Owns(sub, s, p, a) { assert In(now, a); }
    }
  }

  ghost predicate Within(inner: seq<Range>, outer: seq<Range>) {
    forall a :: In(inner, a) ==> In(outer, a)
  }

  /** Which is so for every workload pool whose wait is over, however old its status, and for
      any pool whose status shows no free address outside its ranges. */
  lemma KeptInsideWhen(sub: Subnet, s: State, alloc: Allocation)
    requires sub.step > 0 && alloc.pool in s.pools && Contained(sub, s, alloc.pool) && !Waits(alloc)
    requires alloc.workload || alloc.status.value.used >= alloc.replicas ||
             Within(alloc.status.value.free, s.pools[alloc.pool])
    ensures KeptInside(sub, s, alloc)
  {
    var free := alloc.status.value.free;
    FlatInAll(free);
    if alloc.status.value.used < alloc.replicas {
      forall a | a in KeptFree(alloc.status.value, alloc.replicas) ensures Owns(sub, s, alloc.pool, a) {
        assert a in Flat(free);
        assert In(s.pools[alloc.pool], a);
      }
    }
  }

  /** A scale-down keeps a live address exactly when the status does not call it free or it is
      among the free addresses kept. */
  lemma ScaleDownHousesIff(now: seq<Range>, was: seq<Range>, status: PoolStatus, replicas: int, live: set<int>)
    requires Shrunk(now, was, status, replicas) && forall a :: a in live ==> In(was, a)
    ensures (forall a :: a in live ==> In(now, a)) <==>
            (forall a :: a in live && In(status.free, a) ==> a in KeptFree(status, replicas))
  {
    if forall a :: a in live && In(status.free, a) ==> a in KeptFree(status, replicas) {
      forall a | a in live ensures In(now, a) {}
    }
    if forall a :: a in live ==> In(now, a) {
      forall a | a in live && In(status.free, a) ensures a in KeptFree(status, replicas) { assert In(now, a); }
    }
  }
}
