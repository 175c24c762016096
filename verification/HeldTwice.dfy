/** When two pods can come to hold one address although every status was current: the allocator
    does not ask whether a pool is being cleaned up. */
module HeldTwice {
  import opened Wrappers
  import opened Ranges
  import opened Subnets
  import opened Cluster
  import opened PoolController
  import opened Runs
  import opened FreshRuns

  // ---------------------------------------------------------------- runs of acts

  /** Some acts on current statuses, none of them an assignment from a pool in clean-up, lead from
      s to t. */
  ghost predicate ActsLead(sub: Subnet, s: State, t: State)
    requires sub.step > 0
  {
    exists acts :: ActRun(sub, s, acts) && FromUse(sub, s, acts) && Outcome(sub, s, acts) == t
  }

  lemma StayActs(sub: Subnet, s: State)
    requires sub.step > 0
    ensures ActsLead(sub, s, s)
  {
    var acts: seq<Act> := [];
    assert ActRun(sub, s, acts) && FromUse(sub, s, acts) && Outcome(sub, s, acts) == s;
  }

  lemma ThenAct(sub: Subnet, s: State, t: State, act: Act)
    requires sub.step > 0 && ActsLead(sub, s, t) && May(sub, t, act) && (act.Assign? ==> Active(t, act.pool))
    ensures ActsLead(sub, s, Apply(t, EventOf(sub, act)))
  {
    var acts :| ActRun(sub, s, acts) && FromUse(sub, s, acts) && Outcome(sub, s, acts) == t;
    OutcomeAppend(sub, s, acts, act);
  }

  lemma ActsKeepInv(sub: Subnet, s: State, t: State)
    requires Named(sub) && Inv(sub, s) && ActsLead(sub, s, t)
    ensures Inv(sub, t)
  {
    var acts :| ActRun(sub, s, acts) && FromUse(sub, s, acts) && Outcome(sub, s, acts) == t;
    ActRunLegal(sub, s, acts);
    var es := Events(sub, acts);
    RunKeepsInv(sub, s, es, |es|);
    assert es[..|es|] == es;
  }

  /** The status of a pool without recorded address. */
  function Unused(rs: seq<Range>): FullStatus {
    FullStatus(rs, PoolCount(|Flat(rs)|, 0, |Flat(rs)|))
  }

  lemma UnusedIsExact(sub: Subnet, s: State, p: PoolKey)
    requires p in s.pools && Merged(s.pools[p]) && forall k :: k in s.ips ==> s.ips[k] != p
    ensures Listed(s, p, []) && Exact(sub, s.pools[p], [], Unused(s.pools[p]))
  {}

  /** A new pool with one block. */
  lemma NewPool(sub: Subnet, s: State, t: State, p: PoolKey, q: int) returns (u: State)
    requires Named(sub) && ActsLead(sub, s, t) && p !in t.pools && p !in t.cleaning
    requires InGrid(sub, q) && Name(sub, q) !in t.blocks
    ensures u == t.(pools := t.pools[p := []], blocks := t.blocks[Name(sub, q) := p]) && ActsLead(sub, s, u)
  {
    NameNumber(sub, q);
    ThenAct(sub, s, t, Other(Event.CreatePool(p)));
    var t1 := t.(pools := t.pools[p := []]);
    ThenAct(sub, s, t1, Other(CreateBlock(p, Name(sub, q))));
    u := t1.(blocks := t1.blocks[Name(sub, q) := p]);
  }

  /** A pool without addresses lists some of its blocks. */
  lemma Lists(sub: Subnet, s: State, t: State, p: PoolKey, rs: seq<Range>) returns (u: State)
    requires sub.step > 0 && ActsLead(sub, s, t) && Active(t, p) && t.pools[p] == []
    requires Merged(rs) && Covered(sub, t, p, rs)
    ensures u == t.(pools := t.pools[p := rs]) && ActsLead(sub, s, u)
  {
    ThenAct(sub, s, t, Grow(p, rs));
    u := t.(pools := t.pools[p := rs]);
  }

  // ---------------------------------------------------------------- one run

  /** Pool p, whose clean-up gave up its block and stopped, and pool r, which claimed the block: both
      list addresses number 4 to 7. */
  function Sharing(sub: Subnet, p: PoolKey, r: PoolKey): State {
    State(map[p := [At(sub, 4, 7)], r := [At(sub, 4, 7)]], {p}, map[Nth(sub, 1) := r], map[])
  }

  /** A new pool in use with block 1 in full. */
  lemma TakesFirst(sub: Subnet, s0: State, s: State, p: PoolKey)
    requires Roomy(sub) && ActsLead(sub, s0, s) && p !in s.pools && p !in s.cleaning && Nth(sub, 1) !in s.blocks
    ensures ActsLead(sub, s0, s.(pools := s.pools[p := [At(sub, 4, 7)]], blocks := s.blocks[Nth(sub, 1) := p]))
  {
    OneAt(sub, 4, 7);
    FirstCovers(sub, s.(pools := s.pools[p := []], blocks := s.blocks[Nth(sub, 1) := p]), p);
    NewPoolLists(sub, s0, s, p, sub.lo + 1, [At(sub, 4, 7)]);
  }

  lemma NewPoolLists(sub: Subnet, s: State, t: State, p: PoolKey, q: int, rs: seq<Range>)
    requires Named(sub) && ActsLead(sub, s, t) && p !in t.pools && p !in t.cleaning
    requires InGrid(sub, q) && Name(sub, q) !in t.blocks && Merged(rs)
    requires Covered(sub, t.(pools := t.pools[p := []], blocks := t.blocks[Name(sub, q) := p]), p, rs)
    ensures ActsLead(sub, s, t.(pools := t.pools[p := rs], blocks := t.blocks[Name(sub, q) := p]))
  {
    var v := NewPool(sub, s, t, p, q);
    ListsNew(sub, s, t, v, p, Name(sub, q), rs);
  }

  lemma ListsNew(sub: Subnet, s: State, t: State, v: State, p: PoolKey, n: string, rs: seq<Range>)
    requires sub.step > 0 && ActsLead(sub, s, v) && p !in v.cleaning && Merged(rs) && Covered(sub, v, p, rs)
    requires v == t.(pools := t.pools[p := []], blocks := t.blocks[n := p])
    ensures ActsLead(sub, s, t.(pools := t.pools[p := rs], blocks := t.blocks[n := p]))
  {
    var u := Lists(sub, s, v, p, rs);
    assert v.pools[p := rs] == t.pools[p := rs];
  }

  lemma FirstCovers(sub: Subnet, s: State, p: PoolKey)
    requires Roomy(sub) && Nth(sub, 1) in s.blocks && s.blocks[Nth(sub, 1)] == p
    ensures Covered(sub, s, p, [At(sub, 4, 7)])
  {
    OneAt(sub, 4, 7);
    forall a | In([At(sub, 4, 7)], a) ensures Owns(sub, s, p, a) { assert a / 4 == sub.lo + 1; }
  }

  lemma ReachSharing(sub: Subnet, p: PoolKey, r: PoolKey)
    requires Roomy(sub) && p != r
    ensures ActsLead(sub, EMPTY, Sharing(sub, p, r))
  {
    StayActs(sub, EMPTY);
    TakesFirst(sub, EMPTY, EMPTY, p);
    var s1 := State(map[p := [At(sub, 4, 7)]], {}, map[Nth(sub, 1) := p], map[]);
    OneAt(sub, 4, 7);
    UnusedIsExact(sub, s1, p);
    ThenAct(sub, EMPTY, s1, CleanUp(p, [], Unused(s1.pools[p])));
    var s2 := s1.(cleaning := {p});
    ThenAct(sub, EMPTY, s2, Other(CleanBlock(p, Nth(sub, 1))));
    var s3 := State(s1.pools, {p}, map[], map[]);
    assert s3.blocks == s2.blocks - {Nth(sub, 1)};
    TakesFirst(sub, EMPTY, s3, r);
    assert Sharing(sub, p, r) == s3.(pools := s3.pools[r := [At(sub, 4, 7)]], blocks := s3.blocks[Nth(sub, 1) := r]);
  }

  /** The status of either pool as long as no address of it is recorded, and an assignment by it. */
  function Fresh(sub: Subnet): FullStatus {
    Unused([At(sub, 4, 7)])
  }

  function First(sub: Subnet, p: PoolKey): Act {
    Assign(p, Fresh(sub).free, 4 * sub.lo + 4)
  }

  /** The status is exact and complete, and the pool may record the address by it. */
  ghost predicate HandsOut(sub: Subnet, s: State, p: PoolKey)
    requires sub.step > 0
  {
    && p in s.pools && Listed(s, p, []) && Exact(sub, s.pools[p], [], Fresh(sub))
    && May(sub, s, First(sub, p))
  }

  /** A pool that lists 4 to 7 and has no address recorded may record 4, in clean-up or not. */
  lemma MayHandOut(sub: Subnet, s: State, p: PoolKey)
    requires Roomy(sub) && Inv(sub, s) && p in s.pools && s.pools[p] == [At(sub, 4, 7)]
    requires (forall k :: k in s.ips ==> s.ips[k] != p) && IPKey(p.ns, sub.ipName(4 * sub.lo + 4)) !in s.ips
    ensures HandsOut(sub, s, p)
  {
    OneAt(sub, 4, 7);
    assert InGrid(sub, (4 * sub.lo + 4) / sub.step);
    UnusedIsExact(sub, s, p);
    AssignIsFresh(sub, s, p, Fresh(sub).free, 4 * sub.lo + 4);
  }

  /** After a clean-up that stopped half-way, two assignments, each by a status that is exact and
      complete when the record is made, give one address to pods of two namespaces. */
  lemma HandedOutTwice(sub: Subnet, p: PoolKey, r: PoolKey)
    requires Roomy(sub) && p.ns != r.ns
    ensures var s := Sharing(sub, p, r);
            var t := Apply(s, EventOf(sub, First(sub, p)));
            && ActsLead(sub, EMPTY, s) && Inv(sub, s) && Housed(sub, s)
            && HandsOut(sub, s, p) && HandsOut(sub, t, r) && Active(t, r)
            && Twice(sub, Apply(t, EventOf(sub, First(sub, r))))
  {
    var s := Sharing(sub, p, r);
    ReachSharing(sub, p, r);
    ActsKeepInv(sub, EMPTY, s);
    MayHandOut(sub, s, p);
    HandedOutAgain(sub, s, Apply(s, EventOf(sub, First(sub, p))), p, r);
  }

  lemma HandedOutAgain(sub: Subnet, s: State, t: State, p: PoolKey, r: PoolKey)
    requires Roomy(sub) && p.ns != r.ns && s == Sharing(sub, p, r) && Inv(sub, s) && HandsOut(sub, s, p)
    requires t == Apply(s, EventOf(sub, First(sub, p)))
    ensures HandsOut(sub, t, r) && Active(t, r) && Twice(sub, Apply(t, EventOf(sub, First(sub, r))))
  {
    StepKeepsInv(sub, s, EventOf(sub, First(sub, p)));
    MayHandOut(sub, t, r);
    TwoKeys(sub, Apply(t, EventOf(sub, First(sub, r))), p, r, sub.ipName(4 * sub.lo + 4));
  }

  lemma TwoKeys(sub: Subnet, s: State, p: PoolKey, r: PoolKey, name: string)
    requires p.ns != r.ns && IPKey(p.ns, name) in s.ips && IPKey(r.ns, name) in s.ips
    ensures Twice(sub, s)
  {
    var j, k := IPKey(p.ns, name), IPKey(r.ns, name);
    assert j != k && sub.ipParse(j.name) == sub.ipParse(k.name);
  }

  // ---------------------------------------------------------------- exactly when

  /** After the act, others on current statuses, none an assignment from a pool in clean-up, can
      lead to an address held twice. */
  ghost predicate CanSpoil(sub: Subnet, s: State, act: Act)
    requires sub.step > 0
  {
    exists u :: ActsLead(sub, Apply(s, EventOf(sub, act)), u) && Twice(sub, u)
  }

  /** From a state in order, after an assignment by a current free list, acts on current statuses
      can lead to an address held twice exactly when the pool it came from is in clean-up. */
  lemma AssignTwiceIff(sub: Subnet, s: State, p: PoolKey, free: seq<Range>, a: int)
    requires Named(sub) && Inv(sub, s) && Housed(sub, s) && InGrid(sub, a / sub.step)
    requires Meant(sub, s, Assign(p, free, a)) && Current(sub, s, Assign(p, free, a))
    requires IPKey(p.ns, sub.ipName(a)) !in s.ips
    ensures Enabled(sub, s, EventOf(sub, Assign(p, free, a))) &&
            (CanSpoil(sub, s, Assign(p, free, a)) <==> p in s.cleaning)
  {
    var e := EventOf(sub, Assign(p, free, a));
    var t := Apply(s, e);
    AssignIsFresh(sub, s, p, free, a);
    StepKeepsInv(sub, s, e);
    if p in s.cleaning {
      var u := SecondHolder(sub, t, p, a);
    } else {
      StepKeepsHoused(sub, s, e);
      forall u | ActsLead(sub, t, u) ensures !Twice(sub, u) {
        var acts :| ActRun(sub, t, acts) && FromUse(sub, t, acts) && Outcome(sub, t, acts) == u;
        AddressesUnique(sub, t, acts);
      }
    }
  }

  /** The same behind a run from the empty store. */
  lemma RunTwiceIff(sub: Subnet, acts: seq<Act>, act: Act)
    requires Named(sub) && ActRun(sub, EMPTY, acts) && FromUse(sub, EMPTY, acts)
    requires act.Assign? && InGrid(sub, act.a / sub.step) && May(sub, Outcome(sub, EMPTY, acts), act)
    ensures CanSpoil(sub, Outcome(sub, EMPTY, acts), act) <==> act.pool in Outcome(sub, EMPTY, acts).cleaning
  {
    FreshRunHoused(sub, EMPTY, acts);
    AssignTwiceIff(sub, Outcome(sub, EMPTY, acts), act.pool, act.free, act.a);
  }

  /** A pool of another namespace gets the block and hands the address out once more. */
  lemma SecondHolder(sub: Subnet, t: State, p: PoolKey, a: int) returns (u: State)
    requires Named(sub) && Inv(sub, t) && p in t.cleaning && InGrid(sub, a / sub.step)
    requires IPKey(p.ns, sub.ipName(a)) in t.ips && t.ips[IPKey(p.ns, sub.ipName(a))] == p
    ensures ActsLead(sub, t, u) && Twice(sub, u)
  {
    var n := Name(sub, a / sub.step);
    StayActs(sub, t);
    if IPKey(p.ns + "x", sub.ipName(a)) in t.ips {
      TwoKeys(sub, t, p, PoolKey(p.ns + "x", ""), sub.ipName(a));
      return t;
    }
    var v := FreeBlock(sub, t, p, n);
    ActsKeepInv(sub, t, v);
    var r := NewKey(p.ns + "x", v.pools.Keys);
    u := NewPoolAssigns(sub, t, v, r, a);
    TwoKeys(sub, u, p, r, sub.ipName(a));
  }

  /** A new pool claims the block of an address, lists it and assigns it. */
  lemma NewPoolAssigns(sub: Subnet, s: State, t: State, r: PoolKey, a: int) returns (u: State)
    requires Named(sub) && ActsLead(sub, s, t) && r !in t.pools && r !in t.cleaning && InGrid(sub, a / sub.step)
    requires Name(sub, a / sub.step) !in t.blocks && IPKey(r.ns, sub.ipName(a)) !in t.ips
    ensures ActsLead(sub, s, u) && u.ips == t.ips[IPKey(r.ns, sub.ipName(a)) := r]
  {
    var free := [Range(a, a)];
    One(a, a);
    var v := NewPool(sub, s, t, r, a / sub.step);
    assert Covered(sub, v, r, free);
    v := Lists(sub, s, v, r, free);
    u := Assigned(sub, s, v, r, free, a);
  }

  lemma Assigned(sub: Subnet, s: State, t: State, r: PoolKey, free: seq<Range>, a: int) returns (u: State)
    requires Named(sub) && ActsLead(sub, s, t) && Active(t, r) && free == t.pools[r] && In(free, a)
    requires InGrid(sub, a / sub.step) && IPKey(r.ns, sub.ipName(a)) !in t.ips
    ensures ActsLead(sub, s, u) && u.ips == t.ips[IPKey(r.ns, sub.ipName(a)) := r]
  {
    var act := Assign(r, free, a);
    assert sub.ipParse(sub.ipName(a)) == Some(a);
    assert May(sub, t, act);
    ThenAct(sub, s, t, act);
    u := Apply(t, EventOf(sub, act));
  }

  /** The block becomes free, whoever has it, and what pool p recorded stays: the owner is cleaned
      up, if it is not already, once its pods are gone. */
  lemma FreeBlock(sub: Subnet, s: State, p: PoolKey, n: string) returns (t: State)
    requires Named(sub) && Inv(sub, s) && p in s.cleaning
    ensures ActsLead(sub, s, t) && n !in t.blocks
    ensures forall k :: k in t.ips ==> k in s.ips
    ensures forall k :: k in s.ips && s.ips[k] == p ==> k in t.ips
  {
    StayActs(sub, s);
    t := s;
    if n in s.blocks {
      var q := s.blocks[n];
      if q !in s.cleaning { t := Abandon(sub, s, q); }
      ThenAct(sub, s, t, Other(CleanBlock(q, n)));
      t := Apply(t, CleanBlock(q, n));
    }
  }

  /** The clean-up of a pool begins once its pods are gone. */
  lemma Abandon(sub: Subnet, s: State, q: PoolKey) returns (t: State)
    requires Named(sub) && Inv(sub, s) && Active(s, q)
    ensures ActsLead(sub, s, t) && t.blocks == s.blocks && q in t.cleaning
    ensures forall k :: k in t.ips <==> k in s.ips && s.ips[k] != q
  {
    StayActs(sub, s);
    t := Depart(sub, s, s, q);
    UnusedIsExact(sub, t, q);
    ThenAct(sub, s, t, CleanUp(q, [], Unused(t.pools[q])));
    t := Apply(t, BeginCleanUp(q));
  }

  /** The pods of a pool go, one by one. */
  lemma {:induction false} Depart(sub: Subnet, s: State, t: State, q: PoolKey) returns (u: State)
    requires Named(sub) && ActsLead(sub, s, t)
    ensures ActsLead(sub, s, u) && u.pools == t.pools && u.blocks == t.blocks && u.cleaning == t.cleaning
    ensures forall k :: k in u.ips <==> k in t.ips && t.ips[k] != q
    ensures forall k :: k in u.ips ==> u.ips[k] == t.ips[k]
    decreases t.ips.Keys
  {
    if k :| k in t.ips && t.ips[k] == q {
      ThenAct(sub, s, t, Other(DeleteIP(k)));
      assert Apply(t, DeleteIP(k)).ips.Keys == t.ips.Keys - {k};
      u := Depart(sub, s, Apply(t, DeleteIP(k)), q);
    } else {
      u := t;
    }
  }
}
