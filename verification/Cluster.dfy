/** The shared store of one subnet as a state machine. Every API write is one event; claim
    reconciles of different pools, pool clean-ups and address assignments interleave freely,
    and a reconcile may stop after any event. */
module Cluster {
  import opened Wrappers
  import opened Ranges
  import opened Grid
  import opened Subnets

  datatype PoolKey = PoolKey(ns: string, name: string)

  datatype IPKey = IPKey(ns: string, name: string)

  /** Pools with their ranges, the pools whose clean-up has begun, and the owners of blocks
      and addresses. Blocks and addresses are keyed by object name. */
  datatype State = State(pools: map<PoolKey, seq<Range>>, cleaning: set<PoolKey>,
                         blocks: map<string, PoolKey>, ips: map<IPKey, PoolKey>)

  const EMPTY := State(map[], {}, map[], map[])

  datatype Event =
    | CreatePool(pool: PoolKey)
    | CreateBlock(pool: PoolKey, name: string)
    | PatchRanges(pool: PoolKey, ranges: seq<Range>)
    | ReleaseBlock(pool: PoolKey, name: string)
    | BeginCleanUp(pool: PoolKey)
    | CleanBlock(pool: PoolKey, name: string)
    | DropPool(pool: PoolKey)
    | CreateIP(key: IPKey, pool: PoolKey)
    | DeleteIP(key: IPKey)

  ghost predicate Active(s: State, p: PoolKey) {
    p in s.pools && p !in s.cleaning
  }

  /** Address a lies in a block of pool p. */
  ghost predicate Owns(sub: Subnet, s: State, p: PoolKey, a: int)
    requires sub.step > 0
  {
    var q := a / sub.step;
    InGrid(sub, q) && Name(sub, q) in s.blocks && s.blocks[Name(sub, q)] == p
  }

  /** All of p's addresses lie in its blocks. */
  ghost predicate Contained(sub: Subnet, s: State, p: PoolKey)
    requires sub.step > 0 && p in s.pools
  {
    forall a :: In(s.pools[p], a) ==> Owns(sub, s, p, a)
  }

  /** None of p's addresses lies in the block of that name. */
  ghost predicate Vacant(sub: Subnet, s: State, p: PoolKey, name: string)
    requires sub.step > 0 && p in s.pools
  {
    forall a :: In(s.pools[p], a) ==> a / sub.step != NumberOf(sub, name)
  }

  function OwnNames(s: State, p: PoolKey): set<string> {
    set n | n in s.blocks && s.blocks[n] == p
  }

  ghost predicate Canonical(sub: Subnet, name: string) {
    sub.ipParse(name).Some? && sub.ipName(sub.ipParse(name).value) == name
  }

  ghost predicate MayPatch(sub: Subnet, s: State, p: PoolKey, rs: seq<Range>)
    requires sub.step > 0
  {
    p in s.pools && Merged(rs) && (Active(s, p) ==> forall a :: In(rs, a) ==> Owns(sub, s, p, a))
  }

  /** What the code guarantees about a write when it makes it. A pool whose clean-up has begun
      may still be scaled by its claim, but its ranges need no longer lie in its blocks. */
  ghost predicate Enabled(sub: Subnet, s: State, e: Event)
    requires sub.step > 0
  {
    match e
    case CreatePool(p) => p !in s.pools
    case CreateBlock(p, n) => p in s.pools && n !in s.blocks && IsBlock(sub, n)
    case PatchRanges(p, rs) => MayPatch(sub, s, p, rs)
    case ReleaseBlock(p, n) =>
      Active(s, p) && n in OwnNames(s, p) && Vacant(sub, s, p, n)
    case BeginCleanUp(p) => p in s.pools
    case CleanBlock(p, n) => p in s.cleaning && n in OwnNames(s, p)
    case DropPool(p) => p in s.cleaning && OwnNames(s, p) == {}
    case CreateIP(k, p) => k !in s.ips && Canonical(sub, k.name)
    case DeleteIP(k) => k in s.ips
  }

  function Apply(s: State, e: Event): State {
    match e
    case CreatePool(p) => s.(pools := s.pools[p := []])
    case CreateBlock(p, n) => s.(blocks := s.blocks[n := p])
    case PatchRanges(p, rs) => s.(pools := s.pools[p := rs])
    case ReleaseBlock(p, n) => s.(blocks := s.blocks - {n})
    case BeginCleanUp(p) => s.(cleaning := s.cleaning + {p})
    case CleanBlock(p, n) => s.(blocks := s.blocks - {n})
    case DropPool(p) => s.(pools := s.pools - {p}, cleaning := s.cleaning - {p})
    case CreateIP(k, p) => s.(ips := s.ips[k := p])
    case DeleteIP(k) => s.(ips := s.ips - {k})
  }

  // ---------------------------------------------------------------- invariant

  ghost predicate Inv(sub: Subnet, s: State)
    requires sub.step > 0
  {
    && (forall n :: n in s.blocks ==> IsBlock(sub, n) && s.blocks[n] in s.pools)
    && (forall p :: p in s.pools ==> Merged(s.pools[p]))
    && (forall p :: Active(s, p) ==> Contained(sub, s, p))
    && s.cleaning <= s.pools.Keys
    && (forall k :: k in s.ips ==> Canonical(sub, k.name))
  }

  lemma StepKeepsInv(sub: Subnet, s: State, e: Event)
    requires Named(sub) && Inv(sub, s) && Enabled(sub, s, e)
    ensures Inv(sub, Apply(s, e))
  {
    var t := Apply(s, e);
    forall n | n in t.blocks ensures IsBlock(sub, n) && t.blocks[n] in t.pools {
      if e.DropPool? { assert n !in OwnNames(s, e.pool); }
    }
    forall p | Active(t, p) ensures Contained(sub, t, p) {
      forall a | In(t.pools[p], a) ensures Owns(sub, t, p, a) { StepKeepsOwned(sub, s, e, p, a); }
    }
  }

  lemma StepKeepsOwned(sub: Subnet, s: State, e: Event, p: PoolKey, a: int)
    requires Named(sub) && Inv(sub, s) && Enabled(sub, s, e) && Active(Apply(s, e), p) && In(Apply(s, e).pools[p], a)
    ensures Owns(sub, Apply(s, e), p, a)
  {
    assert Active(s, p) ==> Contained(sub, s, p);
    if e.CreatePool? && p == e.pool {
    } else if e.PatchRanges? && p == e.pool {
      assert Owns(sub, s, p, a);
    } else {
      assert Active(s, p) && In(s.pools[p], a);
      assert Owns(sub, s, p, a);
      NameNumber(sub, a / sub.step);
    }
  }

  // ---------------------------------------------------------------- runs

  /** The state after events `es`. */
  function After(s: State, es: seq<Event>): State {
    if es == [] then s else Apply(After(s, es[..|es| - 1]), es[|es| - 1])
  }

  ghost predicate Legal(sub: Subnet, s: State, es: seq<Event>)
    requires sub.step > 0
  {
    es == [] || (Legal(sub, s, es[..|es| - 1]) && Enabled(sub, After(s, es[..|es| - 1]), es[|es| - 1]))
  }

  lemma RunAppend(sub: Subnet, s: State, es: seq<Event>, e: Event)
    requires sub.step > 0
    ensures After(s, es + [e]) == Apply(After(s, es), e)
    ensures Legal(sub, s, es + [e]) <==> Legal(sub, s, es) && Enabled(sub, After(s, es), e)
  {
    assert (es + [e])[..|es|] == es;
  }

  /** A write that decides on the addresses of a pool: new ranges or the start of its clean-up,
      with the ranges it had at that moment. */
  datatype Change =
    | Patched(was: Option<seq<Range>>, now: seq<Range>)
    | Begun(was: Option<seq<Range>>)

  function RangesOf(s: State, p: PoolKey): Option<seq<Range>> {
    if p in s.pools then Some(s.pools[p]) else None
  }

  function ChangeBy(s: State, e: Event, p: PoolKey): seq<Change> {
    if e.PatchRanges? && e.pool == p then [Patched(RangesOf(s, p), e.ranges)]
    else if e.BeginCleanUp? && e.pool == p then [Begun(RangesOf(s, p))]
    else []
  }

  /** The changes of pool p in a run from the empty store, in order. */
  function Changes(es: seq<Event>, p: PoolKey): seq<Change> {
    if es == [] then []
    else
      var front := es[..|es| - 1];
      Changes(front, p) + ChangeBy(After(EMPTY, front), es[|es| - 1], p)
  }

  lemma {:induction false} ChangesConcat(es: seq<Event>, fs: seq<Event>, p: PoolKey)
    requires forall e :: e in fs ==> Rival(p, e)
    ensures Changes(es + fs, p) == Changes(es, p)
  {
    if fs == [] {
      assert es + fs == es;
    } else {
      var front, e := fs[..|fs| - 1], fs[|fs| - 1];
      assert e in fs;
      ChangesConcat(es, front, p);
      assert (es + fs)[..|es + fs| - 1] == es + front;
    }
  }

  /** What write number i changed stands in the list, behind the changes before it. */
  lemma {:induction false} ChangeAt(es: seq<Event>, i: nat, p: PoolKey)
    requires i < |es|
    ensures Changes(es[..i], p) + ChangeBy(After(EMPTY, es[..i]), es[i], p) <= Changes(es, p)
  {
    var front := es[..|es| - 1];
    if i == |es| - 1 {
      assert es[..i] == front;
    } else {
      ChangeAt(front, i, p);
      assert front[..i] == es[..i];
    }
  }

  lemma {:induction false} ChangesGrow(es: seq<Event>, i: nat, p: PoolKey)
    requires i <= |es|
    ensures Changes(es[..i], p) <= Changes(es, p)
  {
    if i < |es| {
      ChangesGrow(es[..|es| - 1], i, p);
      assert es[..|es| - 1][..i] == es[..i];
    } else {
      assert es[..i] == es;
    }
  }

  lemma {:induction false} RunConcat(sub: Subnet, s: State, es: seq<Event>, fs: seq<Event>)
    requires sub.step > 0
    ensures After(s, es + fs) == After(After(s, es), fs)
    ensures Legal(sub, s, es + fs) <==> Legal(sub, s, es) && Legal(sub, After(s, es), fs)
  {
    if fs == [] {
      assert es + fs == es;
    } else {
      var front, e := fs[..|fs| - 1], fs[|fs| - 1];
      assert es + fs == (es + front) + [e];
      assert fs == front + [e];
      RunConcat(sub, s, es, front);
      RunAppend(sub, s, es + front, e);
      RunAppend(sub, After(s, es), front, e);
    }
  }

  lemma {:induction false} RunKeepsBlocks(sub: Subnet, s: State, es: seq<Event>)
    requires sub.step > 0 && Legal(sub, s, es) && forall n :: n in s.blocks ==> IsBlock(sub, n)
    ensures forall n :: n in After(s, es).blocks ==> IsBlock(sub, n)
  {
    if es != [] { RunKeepsBlocks(sub, s, es[..|es| - 1]); }
  }

  /** Safety: the invariant holds at every point of every run. */
  lemma {:induction false} RunKeepsInv(sub: Subnet, s: State, es: seq<Event>, k: nat)
    requires Named(sub) && Inv(sub, s) && Legal(sub, s, es) && k <= |es|
    ensures Inv(sub, After(s, es[..k]))
  {
    if k == |es| {
      assert es[..k] == es;
      if k > 0 {
        RunKeepsInv(sub, s, es[..k - 1], k - 1);
        assert es[..k - 1][..k - 1] == es[..k - 1];
        StepKeepsInv(sub, After(s, es[..k - 1]), es[k - 1]);
      }
    } else {
      RunKeepsInv(sub, s, es[..|es| - 1], k);
      assert es[..|es| - 1][..k] == es[..k];
    }
  }

  /** Different blocks share no address. */
  lemma BlocksDisjoint(sub: Subnet, s: State, m: string, n: string, a: int)
    requires Named(sub) && Inv(sub, s) && m in s.blocks && n in s.blocks && m != n
    requires a / sub.step == NumberOf(sub, m)
    ensures InGrid(sub, NumberOf(sub, m)) && InGrid(sub, NumberOf(sub, n))
    ensures a / sub.step != NumberOf(sub, n)
  {
    NumberName(sub, m);
    NumberName(sub, n);
  }

  /** Different pools share no address. */
  lemma PoolsDisjoint(sub: Subnet, s: State, p: PoolKey, r: PoolKey, a: int)
    requires sub.step > 0 && Inv(sub, s) && Active(s, p) && Active(s, r) && p != r
    requires In(s.pools[p], a)
    ensures !In(s.pools[r], a)
  {
    assert Contained(sub, s, p) && Contained(sub, s, r);
  }

  /** All of it for every run from the empty store, at every point where it may stop. */
  lemma Safety(sub: Subnet, es: seq<Event>, k: nat)
    requires Named(sub) && Legal(sub, EMPTY, es) && k <= |es|
    ensures var s := After(EMPTY, es[..k]);
            && (forall n :: n in s.blocks ==> InGrid(sub, NumberOf(sub, n)) && s.blocks[n] in s.pools)
            && (forall m, n :: m in s.blocks && n in s.blocks && m != n ==> NumberOf(sub, m) != NumberOf(sub, n))
            && (forall p, r, a :: Active(s, p) && Active(s, r) && p != r && In(s.pools[p], a) ==> !In(s.pools[r], a))
  {
    RunKeepsInv(sub, EMPTY, es, k);
    var s := After(EMPTY, es[..k]);
    forall m, n | m in s.blocks && n in s.blocks && m != n ensures NumberOf(sub, m) != NumberOf(sub, n) {
      DivOffset(NumberOf(sub, m), 0, sub.step);
      BlocksDisjoint(sub, s, m, n, NumberOf(sub, m) * sub.step);
    }
    forall n | n in s.blocks ensures InGrid(sub, NumberOf(sub, n)) { NumberName(sub, n); }
    forall p, r, a | Active(s, p) && Active(s, r) && p != r && In(s.pools[p], a) ensures !In(s.pools[r], a) {
      PoolsDisjoint(sub, s, p, r, a);
    }
  }

  // ---------------------------------------------------------------- rely and guarantee

  /** Events that are not the claim controller's or clean-up's work on pool p. */
  predicate Rival(p: PoolKey, e: Event) {
    e.CreateIP? || e.DeleteIP? || e.pool != p
  }

  /** Pool p exists, and its clean-up has begun as much as before. */
  ghost predicate Carried(p: PoolKey, s: State, t: State) {
    p in t.pools && (p in s.cleaning <==> p in t.cleaning)
  }

  /** Nothing a reconcile of p relies on has changed. */
  ghost predicate SameView(p: PoolKey, s: State, t: State) {
    && (p in s.pools <==> p in t.pools) && (p in s.pools ==> s.pools[p] == t.pools[p])
    && (p in s.cleaning <==> p in t.cleaning)
    && OwnNames(s, p) == OwnNames(t, p)
  }

  lemma RivalKeepsView(sub: Subnet, p: PoolKey, s: State, e: Event)
    requires sub.step > 0 && Enabled(sub, s, e) && Rival(p, e)
    ensures SameView(p, s, Apply(s, e))
  {
    var t := Apply(s, e);
    forall n ensures n in OwnNames(s, p) <==> n in OwnNames(t, p) {}
  }

  /** However long rivals are at work, p's view stands still. */
  lemma {:induction false} RivalRunKeepsView(sub: Subnet, p: PoolKey, s: State, es: seq<Event>)
    requires sub.step > 0 && Legal(sub, s, es)
    requires forall e :: e in es ==> Rival(p, e)
    ensures SameView(p, s, After(s, es))
  {
    if es != [] {
      var front := es[..|es| - 1];
      RivalRunKeepsView(sub, p, s, front);
      assert es[|es| - 1] in es;
      RivalKeepsView(sub, p, After(s, front), es[|es| - 1]);
    }
  }

  // ---------------------------------------------------------------- addresses

  /** The write leaves every live address inside its pool. That the controllers' writes do so when
      their statuses are current is shown in `FreshRuns`. */
  ghost predicate Harmless(sub: Subnet, s: State, e: Event) {
    match e
    case CreateIP(k, p) =>
      Active(s, p) && p.ns == k.ns && exists a :: In(s.pools[p], a) && k.name == sub.ipName(a)
    case PatchRanges(p, rs) =>
      forall k :: k in s.ips && s.ips[k] == p ==> sub.ipParse(k.name).Some? && In(rs, sub.ipParse(k.name).value)
    case BeginCleanUp(p) => forall k :: k in s.ips ==> s.ips[k] != p
    case _ => true
  }

  /** Every live address stays inside the ranges of its own pool. */
  ghost predicate Housed(sub: Subnet, s: State) {
    forall k :: k in s.ips ==>
      && Active(s, s.ips[k]) && s.ips[k].ns == k.ns
      && sub.ipParse(k.name).Some? && In(s.pools[s.ips[k]], sub.ipParse(k.name).value)
  }

  lemma StepKeepsHoused(sub: Subnet, s: State, e: Event)
    requires Named(sub) && Inv(sub, s) && Housed(sub, s) && Enabled(sub, s, e) && Harmless(sub, s, e)
    ensures Housed(sub, Apply(s, e))
  {
    var t := Apply(s, e);
    if e.CreateIP? {
      var a :| In(s.pools[e.pool], a) && e.key.name == sub.ipName(a);
      assert Contained(sub, s, e.pool);
      assert Owns(sub, s, e.pool, a);
    }
    forall k | k in t.ips
      ensures Active(t, t.ips[k]) && t.ips[k].ns == k.ns &&
              sub.ipParse(k.name).Some? && In(t.pools[t.ips[k]], sub.ipParse(k.name).value)
    {
      if k in s.ips && !e.CreateIP? {
        assert Active(s, s.ips[k]);
      }
    }
  }

  /** Addresses inside their pools are held once, even across namespaces. */
  lemma HousedUnique(sub: Subnet, s: State, j: IPKey, k: IPKey)
    requires Named(sub) && Inv(sub, s) && Housed(sub, s)
    requires j in s.ips && k in s.ips && j != k
    ensures sub.ipParse(j.name) != sub.ipParse(k.name)
  {
    if sub.ipParse(j.name) == sub.ipParse(k.name) {
      assert Canonical(sub, j.name) && Canonical(sub, k.name);
      if s.ips[j] != s.ips[k] {
        PoolsDisjoint(sub, s, s.ips[j], s.ips[k], sub.ipParse(j.name).value);
      }
    }
  }

  /** Within one namespace that holds over every run. */
  lemma NamespaceUnique(sub: Subnet, es: seq<Event>, j: IPKey, k: IPKey)
    requires Named(sub) && Legal(sub, EMPTY, es)
    requires j in After(EMPTY, es).ips && k in After(EMPTY, es).ips && j != k && j.ns == k.ns
    ensures sub.ipParse(j.name) != sub.ipParse(k.name)
  {
    RunKeepsInv(sub, EMPTY, es, |es|);
    assert es[..|es|] == es;
    assert Canonical(sub, j.name) && Canonical(sub, k.name);
  }
}
