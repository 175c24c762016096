/** Runs in which the controllers act on current statuses: every live address stays inside its
    pool, and no address is recorded twice, as long as none is assigned from a pool in clean-up. */
module FreshRuns {
  import opened Wrappers
  import opened Ranges
  import opened Subnets
  import opened Cluster
  import opened ClaimController
  import opened PoolController
  import Allocator

  // ---------------------------------------------------------------- single writes

  /** Growing a pool loses no live address. */
  lemma GrowthIsFresh(sub: Subnet, s: State, p: PoolKey, now: seq<Range>)
    requires Housed(sub, s) && p in s.pools && forall a :: In(s.pools[p], a) ==> In(now, a)
    ensures Harmless(sub, s, PatchRanges(p, now))
  {}

  /** Nor does a scale-down on a status that lists the pool's addresses. */
  lemma ShrinkIsFresh(sub: Subnet, s: State, p: PoolKey, names: seq<string>, st: FullStatus, now: seq<Range>,
                      replicas: int)
    requires Housed(sub, s) && p in s.pools && Listed(s, p, names) && Exact(sub, s.pools[p], names, st)
    requires Shrunk(now, s.pools[p], Seen(st), replicas)
    ensures Harmless(sub, s, PatchRanges(p, now))
  {
    forall k | k in s.ips && s.ips[k] == p ensures sub.ipParse(k.name).Some? && In(now, sub.ipParse(k.name).value) {
      assert k == IPKey(p.ns, k.name);
      assert k.name in names;
    }
  }

  /** An address of the subnet that a pool lists may be recorded if its name is free, and is housed
      if the pool is in use. */
  lemma AssignIsFresh(sub: Subnet, s: State, p: PoolKey, free: seq<Range>, a: int)
    requires Named(sub) && Inv(sub, s) && p in s.pools && Within(free, s.pools[p]) && In(free, a)
    requires Active(s, p) || InGrid(sub, a / sub.step)
    requires IPKey(p.ns, sub.ipName(a)) !in s.ips
    ensures var e := CreateIP(IPKey(p.ns, sub.ipName(a)), p);
            Enabled(sub, s, e) && (Active(s, p) ==> Harmless(sub, s, e))
  {
    if Active(s, p) {
      assert Contained(sub, s, p);
      assert Owns(sub, s, p, a);
    }
  }

  // ---------------------------------------------------------------- runs

  /** A write together with what the controller that made it had read: scaling up, scaling down
      by a pool status, assigning by a free list, starting a clean-up by a status, and everything
      else. */
  datatype Act =
    | Grow(pool: PoolKey, now: seq<Range>)
    | Shrink(pool: PoolKey, names: seq<string>, st: FullStatus, replicas: int, now: seq<Range>)
    | Assign(pool: PoolKey, free: seq<Range>, a: int)
    | CleanUp(pool: PoolKey, names: seq<string>, st: FullStatus)
    | Other(event: Event)

  function EventOf(sub: Subnet, act: Act): Event {
    match act
    case Grow(p, now) => PatchRanges(p, now)
    case Shrink(p, _, _, _, now) => PatchRanges(p, now)
    case Assign(p, _, a) => CreateIP(IPKey(p.ns, sub.ipName(a)), p)
    case CleanUp(p, _, _) => BeginCleanUp(p)
    case Other(e) => e
  }

  function Events(sub: Subnet, acts: seq<Act>): (es: seq<Event>)
    ensures |es| == |acts|
  {
    if acts == [] then [] else Events(sub, acts[..|acts| - 1]) + [EventOf(sub, acts[|acts| - 1])]
  }

  function Outcome(sub: Subnet, s: State, acts: seq<Act>): State {
    After(s, Events(sub, acts))
  }

  /** What the code makes of what it read: scaling up keeps the old addresses, scaling down
      follows the status, an address comes from the free list, a clean-up starts when the status
      counts no address. */
  ghost predicate Meant(sub: Subnet, s: State, act: Act) {
    match act
    case Grow(p, now) => p in s.pools && forall a :: In(s.pools[p], a) ==> In(now, a)
    case Shrink(p, _, st, replicas, now) => p in s.pools && Shrunk(now, s.pools[p], Seen(st), replicas)
    case Assign(p, free, a) => p in s.pools && In(free, a)
    case CleanUp(p, _, st) => p in s.pools && Seen(st).used <= 0
    case Other(e) => !e.PatchRanges? && !e.CreateIP? && !e.BeginCleanUp?
  }

  /** The status is the one of the pool's ranges and addresses at the time of the write. For an
      assignment it is enough that the free list names addresses of the pool: addresses taken
      since are what it tries names for. */
  ghost predicate Current(sub: Subnet, s: State, act: Act) {
    match act
    case Shrink(p, names, st, _, _) => p in s.pools && Listed(s, p, names) && Exact(sub, s.pools[p], names, st)
    case Assign(p, free, _) => p in s.pools && Within(free, s.pools[p])
    case CleanUp(p, names, st) => p in s.pools && Listed(s, p, names) && Exact(sub, s.pools[p], names, st)
    case _ => true
  }

  ghost predicate May(sub: Subnet, s: State, act: Act)
    requires sub.step > 0
  {
    Enabled(sub, s, EventOf(sub, act)) && Meant(sub, s, act) && Current(sub, s, act)
  }

  ghost predicate ActRun(sub: Subnet, s: State, acts: seq<Act>)
    requires sub.step > 0
  {
    acts == [] ||
    var front := acts[..|acts| - 1];
    ActRun(sub, s, front) && May(sub, Outcome(sub, s, front), acts[|acts| - 1])
  }

  /** No address is assigned from a pool in clean-up. The code does not see to that. */
  ghost predicate FromUse(sub: Subnet, s: State, acts: seq<Act>) {
    acts == [] ||
    var front, act := acts[..|acts| - 1], acts[|acts| - 1];
    FromUse(sub, s, front) && (act.Assign? ==> Active(Outcome(sub, s, front), act.pool))
  }

  lemma OutcomeAppend(sub: Subnet, s: State, acts: seq<Act>, act: Act)
    requires sub.step > 0
    ensures Outcome(sub, s, acts + [act]) == Apply(Outcome(sub, s, acts), EventOf(sub, act))
    ensures ActRun(sub, s, acts + [act]) <==> ActRun(sub, s, acts) && May(sub, Outcome(sub, s, acts), act)
    ensures FromUse(sub, s, acts + [act]) <==>
            FromUse(sub, s, acts) && (act.Assign? ==> Active(Outcome(sub, s, acts), act.pool))
  {
    assert (acts + [act])[..|acts|] == acts;
    RunAppend(sub, s, Events(sub, acts), EventOf(sub, act));
  }

  lemma {:induction false} ActRunLegal(sub: Subnet, s: State, acts: seq<Act>)
    requires sub.step > 0 && ActRun(sub, s, acts)
    ensures Legal(sub, s, Events(sub, acts))
  {
    if acts != [] {
      var front := acts[..|acts| - 1];
      ActRunLegal(sub, s, front);
      RunAppend(sub, s, Events(sub, front), EventOf(sub, acts[|acts| - 1]));
    }
  }

  /** Acting on a current status is harmless, save for assigning from a pool in clean-up. */
  lemma CurrentIsHarmless(sub: Subnet, s: State, act: Act)
    requires Named(sub) && Inv(sub, s) && Housed(sub, s) && May(sub, s, act)
    requires act.Assign? ==> Active(s, act.pool)
    ensures Harmless(sub, s, EventOf(sub, act))
  {
    match act
    case Grow(p, now) => GrowthIsFresh(sub, s, p, now);
    case Shrink(p, names, st, replicas, now) => ShrinkIsFresh(sub, s, p, names, st, now, replicas);
    case Assign(p, free, a) => AssignIsFresh(sub, s, p, free, a);
    case CleanUp(p, names, st) => CleanUpIsFresh(sub, s, p, names, st);
    case Other(_) =>
  }

  /** Over such a run, from any state in order, every live address stays inside its own pool. */
  lemma {:induction false} FreshRunHoused(sub: Subnet, s: State, acts: seq<Act>)
    requires Named(sub) && Inv(sub, s) && Housed(sub, s) && ActRun(sub, s, acts) && FromUse(sub, s, acts)
    ensures Inv(sub, Outcome(sub, s, acts)) && Housed(sub, Outcome(sub, s, acts))
  {
    if acts != [] {
      var front, act := acts[..|acts| - 1], acts[|acts| - 1];
      var t := Outcome(sub, s, front);
      OutcomeAppend(sub, s, front, act);
      assert acts == front + [act];
      FreshRunHoused(sub, s, front);
      CurrentIsHarmless(sub, t, act);
      StepKeepsInv(sub, t, EventOf(sub, act));
      StepKeepsHoused(sub, t, EventOf(sub, act));
    }
  }

  /** Two records stand for the same address. */
  ghost predicate Twice(sub: Subnet, s: State) {
    exists j, k :: j in s.ips && k in s.ips && j != k && sub.ipParse(j.name) == sub.ipParse(k.name)
  }

  /** Hence no address is held by two live IPs, even across namespaces. */
  lemma AddressesUnique(sub: Subnet, s: State, acts: seq<Act>)
    requires Named(sub) && Inv(sub, s) && Housed(sub, s) && ActRun(sub, s, acts) && FromUse(sub, s, acts)
    ensures !Twice(sub, Outcome(sub, s, acts))
  {
    var t := Outcome(sub, s, acts);
    FreshRunHoused(sub, s, acts);
    forall j, k | j in t.ips && k in t.ips && j != k ensures sub.ipParse(j.name) != sub.ipParse(k.name) {
      HousedUnique(sub, t, j, k);
    }
  }

  // ---------------------------------------------------------------- where the acts come from

  /** If one change of a pool came about, a write that changes it is that change. */
  lemma OnlyChange(es: seq<Event>, fs: seq<Event>, p: PoolKey, cs: seq<Change>, i: nat)
    requires es <= fs && Changes(fs, p) == Changes(es, p) + cs && |cs| <= 1 && |es| <= i < |fs|
    requires ChangeBy(After(EMPTY, fs[..i]), fs[i], p) != []
    ensures cs == ChangeBy(After(EMPTY, fs[..i]), fs[i], p)
  {
    assert fs[..i][..|es|] == es;
    ChangesGrow(fs[..i], |es|, p);
    ChangeAt(fs, i, p);
    Squeezed(Changes(es, p), Changes(fs[..i], p), ChangeBy(After(EMPTY, fs[..i]), fs[i], p), cs);
  }

  lemma Squeezed<T>(a: seq<T>, b: seq<T>, d: seq<T>, c: seq<T>)
    requires a <= b && b + d <= a + c && |c| <= 1 && d != []
    ensures c == d
  {
    assert |b + d| <= |a + c|;
    assert b == a && (a + c)[|a|..] == c && (b + d)[|a|..] == d;
  }

  /** Every patch that a scale-down makes, whatever others write meanwhile, is a `Shrink` by the
      status it was given, in the state in which it is written. */
  lemma ScaleDownShrinks(sub: Subnet, es: seq<Event>, fs: seq<Event>, p: PoolKey, was: seq<Range>, names: seq<string>,
                         st: FullStatus, replicas: int, i: nat)
    requires es <= fs && ShrankOnce(Changes(es, p), Changes(fs, p), was, Seen(st), replicas)
    requires |es| <= i < |fs| && fs[i].PatchRanges? && fs[i].pool == p
    ensures var act := Shrink(p, names, st, replicas, fs[i].ranges);
            EventOf(sub, act) == fs[i] && Meant(sub, After(EMPTY, fs[..i]), act)
  {
    if Changes(fs, p) == Changes(es, p) {
      OnlyChange(es, fs, p, [], i);
    } else {
      var now :| Changes(fs, p) == Changes(es, p) + [Patched(Some(was), now)] && Shrunk(now, was, Seen(st), replicas);
      OnlyChange(es, fs, p, [Patched(Some(was), now)], i);
    }
  }

  /** Every patch that a scale-up makes is a `Grow` there. */
  lemma ScaleUpGrows(sub: Subnet, es: seq<Event>, fs: seq<Event>, p: PoolKey, was: seq<Range>, i: nat)
    requires es <= fs && GrewOnce(Changes(es, p), Changes(fs, p), was)
    requires |es| <= i < |fs| && fs[i].PatchRanges? && fs[i].pool == p
    ensures var act := Grow(p, fs[i].ranges); EventOf(sub, act) == fs[i] && Meant(sub, After(EMPTY, fs[..i]), act)
  {
    if Changes(fs, p) == Changes(es, p) {
      OnlyChange(es, fs, p, [], i);
    } else {
      var now :| Changes(fs, p) == Changes(es, p) + [Patched(Some(was), now)] && forall a :: In(was, a) ==> In(now, a);
      OnlyChange(es, fs, p, [Patched(Some(was), now)], i);
    }
  }

  /** A clean-up that begins does so as a `CleanUp` by the status it was given. */
  lemma CleanUpBegins(sub: Subnet, es: seq<Event>, fs: seq<Event>, p: PoolKey, was: Option<seq<Range>>,
                      names: seq<string>, st: FullStatus, i: nat)
    requires es <= fs && BegunOnce(Changes(es, p), Changes(fs, p), was, Some(Seen(st)))
    requires |es| <= i < |fs| && fs[i] == BeginCleanUp(p)
    ensures Meant(sub, After(EMPTY, fs[..i]), CleanUp(p, names, st))
  {
    if Changes(fs, p) == Changes(es, p) {
      OnlyChange(es, fs, p, [], i);
    } else {
      OnlyChange(es, fs, p, [Begun(was)], i);
    }
  }

  /** Every record a `Get` makes is an `Assign` in any state whose pool has the addresses that the
      cache showed as free; those that the same call recorded before are no obstacle. */
  lemma GetAssigns(store: Allocator.IPStore, sub: Subnet, s: State, p: PoolKey, was: Allocator.Records,
                   now: Allocator.Records, n: string)
    requires p in s.pools
    requires Allocator.FromFree(store, was, now) && n in now && n !in was && now[n].version == Some(sub.version)
    requires forall a :: store.codec.ipName(sub.version, a) == sub.ipName(a)
    requires forall k, m :: store.views(k, sub.version, m).Some? ==>
               Within(store.views(k, sub.version, m).value, s.pools[p])
    ensures exists free, a :: var act := Assign(p, free, a);
                              && Meant(sub, s, act) && Current(sub, s, act)
                              && EventOf(sub, act) == CreateIP(IPKey(p.ns, n), p)
  {
    assert Allocator.Shown(store, sub.version, n);
    var k, m, a :| store.views(k, sub.version, m).Some? && In(store.views(k, sub.version, m).value, a) &&
                   n == store.codec.ipName(sub.version, a);
    var act := Assign(p, store.views(k, sub.version, m).value, a);
    assert Meant(sub, s, act) && Current(sub, s, act) && EventOf(sub, act) == CreateIP(IPKey(p.ns, n), p);
  }
}
