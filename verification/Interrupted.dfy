/** What an interrupted clean-up and an interrupted scale-down leave behind. */
module Interrupted {
  import opened Wrappers
  import opened Ranges
  import opened Subnets
  import opened Cluster
  import opened Runs
  import opened ClaimController
  import opened ClaimReconciler

  // ---------------------------------------------------------------- clean-up

  /** Deleting a block in clean-up leaves the pool within its blocks exactly when the block holds
      none of its addresses. */
  lemma CleanBlockKeepsInsideIff(sub: Subnet, s: State, p: PoolKey, n: string)
    requires Named(sub) && Inv(sub, s) && p in s.cleaning && Contained(sub, s, p) && n in OwnNames(s, p)
    ensures var t := Apply(s, CleanBlock(p, n));
            Contained(sub, t, p) <==> Vacant(sub, s, p, n)
  {
    var t := Apply(s, CleanBlock(p, n));
    NumberName(sub, n);
    forall a | In(s.pools[p], a) ensures Owns(sub, t, p, a) <==> a / sub.step != NumberOf(sub, n) {
      assert Owns(sub, s, p, a);
      NameNumber(sub, a / sub.step);
    }
  }

  /** Pool p and some pool in use share an address. */
  ghost predicate Overlaps(s: State, p: PoolKey) {
    p in s.pools && exists q, a :: q != p && Active(s, q) && In(s.pools[p], a) && In(s.pools[q], a)
  }

  /** Pool p lists an address of the subnet that lies in none of its blocks. */
  ghost predicate Exposed(sub: Subnet, s: State, p: PoolKey)
    requires sub.step > 0 && p in s.pools
  {
    exists a :: In(s.pools[p], a) && InGrid(sub, a / sub.step) && !Owns(sub, s, p, a)
  }

  /** A pool can come to share an address with a pool in use, without a write of its own, exactly
      when it lists an address outside its blocks. Pools in use never do. */
  lemma OverlapPossibleIff(sub: Subnet, s: State, p: PoolKey)
    requires Named(sub) && Inv(sub, s) && p in s.pools
    ensures (exists t :: RivalsLead(sub, p, s, t) && Overlaps(t, p)) <==> Exposed(sub, s, p)
    ensures Active(s, p) ==> !Exposed(sub, s, p)
  {
    if Exposed(sub, s, p) {
      var a :| In(s.pools[p], a) && InGrid(sub, a / sub.step) && !Owns(sub, s, p, a);
      var r := NewKey(p.ns, s.pools.Keys);
      var t := OverlapComes(sub, s, p, r, a);
    }
    forall t | RivalsLead(sub, p, s, t) && Overlaps(t, p) ensures Exposed(sub, s, p) {
      OverlapNeedsExposure(sub, s, t, p);
    }
    if Active(s, p) { assert Contained(sub, s, p); }
  }

  lemma OverlapNeedsExposure(sub: Subnet, s: State, t: State, p: PoolKey)
    requires Named(sub) && Inv(sub, s) && p in s.pools && RivalsLead(sub, p, s, t) && Overlaps(t, p)
    ensures Exposed(sub, s, p)
  {
    RivalsKeep(sub, p, s, t);
    var q, a :| q != p && Active(t, q) && In(t.pools[p], a) && In(t.pools[q], a);
    assert Contained(sub, t, q);
    assert Owns(sub, t, q, a);
    var n := Name(sub, a / sub.step);
    assert n !in OwnNames(t, p);
    assert n !in OwnNames(s, p);
    assert In(s.pools[p], a) && InGrid(sub, a / sub.step) && !Owns(sub, s, p, a);
  }

  lemma OverlapComes(sub: Subnet, s: State, p: PoolKey, r: PoolKey, a: int) returns (t: State)
    requires Named(sub) && Inv(sub, s) && p in s.pools && r !in s.pools
    requires In(s.pools[p], a) && InGrid(sub, a / sub.step) && !Owns(sub, s, p, a)
    ensures RivalsLead(sub, p, s, t) && Overlaps(t, p)
  {
    var n := Name(sub, a / sub.step);
    NameNumber(sub, a / sub.step);
    StayRivals(sub, p, s);
    if n !in s.blocks {
      t := NewcomerTakes(sub, s, s, p, r, a);
    } else {
      var q := s.blocks[n];
      One(a, a);
      if q in s.cleaning {
        ThenRivals(sub, p, s, s, CleanBlock(q, n));
        RivalsKeep(sub, p, s, Apply(s, CleanBlock(q, n)));
        t := NewcomerTakes(sub, s, Apply(s, CleanBlock(q, n)), p, r, a);
      } else {
        ThenRivals(sub, p, s, s, PatchRanges(q, [Range(a, a)]));
        t := Apply(s, PatchRanges(q, [Range(a, a)]));
        assert Active(t, q) && In(t.pools[p], a) && In(t.pools[q], a);
      }
    }
  }

  /** A new pool claims the block and lists the address. */
  lemma NewcomerTakes(sub: Subnet, s: State, u: State, p: PoolKey, r: PoolKey, a: int) returns (t: State)
    requires Named(sub) && Inv(sub, u) && RivalsLead(sub, p, s, u) && p in u.pools && r !in u.pools && In(u.pools[p], a)
    requires InGrid(sub, a / sub.step) && Name(sub, a / sub.step) !in u.blocks
    ensures RivalsLead(sub, p, s, t) && Overlaps(t, p)
  {
    var n := Name(sub, a / sub.step);
    NameNumber(sub, a / sub.step);
    One(a, a);
    ThenRivals(sub, p, s, u, Event.CreatePool(r));
    var u1 := Apply(u, Event.CreatePool(r));
    ThenRivals(sub, p, s, u1, CreateBlock(r, n));
    var u2 := Apply(u1, CreateBlock(r, n));
    ThenRivals(sub, p, s, u2, PatchRanges(r, [Range(a, a)]));
    t := Apply(u2, PatchRanges(r, [Range(a, a)]));
    assert Active(t, r) && In(t.pools[p], a) && In(t.pools[r], a);
  }

  /** Pool p in use, with one block. */
  function Used(sub: Subnet, p: PoolKey): State {
    State(map[p := [At(sub, 4, 7)]], {}, map[Nth(sub, 1) := p], map[])
  }

  /** Its clean-up deleted the block and stopped before the finalizer. */
  function Stopped(sub: Subnet, p: PoolKey): State {
    State(map[p := [At(sub, 4, 7)]], {p}, map[], map[])
  }

  lemma ReachStopped(sub: Subnet, p: PoolKey)
    requires Roomy(sub)
    ensures Leads(sub, EMPTY, Used(sub, p)) && Leads(sub, EMPTY, Stopped(sub, p))
  {
    Stay(sub, EMPTY);
    Then(sub, EMPTY, EMPTY, Event.CreatePool(p));
    var s1 := State(map[p := []], {}, map[], map[]);
    TakeBlock(sub, EMPTY, s1, p, 1);
    var s2 := State(map[p := []], {}, map[Nth(sub, 1) := p], map[]);
    assert s2 == s1.(blocks := s1.blocks[Nth(sub, 1) := p]);
    OneAt(sub, 4, 7);
    forall a | In([At(sub, 4, 7)], a) ensures Owns(sub, s2, p, a) { assert a / 4 == sub.lo + 1; }
    Patch(sub, EMPTY, s2, p, [At(sub, 4, 7)]);
    assert Used(sub, p) == s2.(pools := s2.pools[p := [At(sub, 4, 7)]]);
    Then(sub, EMPTY, Used(sub, p), BeginCleanUp(p));
    var s3 := Used(sub, p).(cleaning := {p});
    assert Apply(Used(sub, p), BeginCleanUp(p)) == s3;
    Then(sub, EMPTY, s3, CleanBlock(p, Nth(sub, 1)));
    assert Stopped(sub, p).blocks == s3.blocks - {Nth(sub, 1)};
  }

  /** So disjointness fails for a pool whose clean-up stopped half-way: it keeps its ranges, its
      block is free for anyone, and another pool may come to list the same addresses. No block is
      without pool all the same. */
  lemma InterruptedCleanUpOverlap(sub: Subnet, p: PoolKey)
    requires Roomy(sub)
    ensures Leads(sub, EMPTY, Stopped(sub, p)) && Inv(sub, Stopped(sub, p)) && !Contained(sub, Stopped(sub, p), p)
    ensures exists t :: RivalsLead(sub, p, Stopped(sub, p), t) && Overlaps(t, p)
  {
    ReachStopped(sub, p);
    LeadsKeepsInv(sub, Stopped(sub, p));
    OneAt(sub, 4, 7);
    var a := 4 * sub.lo + 4;
    assert In(Stopped(sub, p).pools[p], a) && InGrid(sub, a / sub.step) && !Owns(sub, Stopped(sub, p), p, a);
    OverlapPossibleIff(sub, Stopped(sub, p), p);
  }

  // ---------------------------------------------------------------- scale-down

  /** Pool p with two full blocks, and after the patch of a scale-down that went no further. */
  function Full(sub: Subnet, p: PoolKey): State {
    State(map[p := [At(sub, 4, 11)]], {}, map[Nth(sub, 1) := p, Nth(sub, 2) := p], map[])
  }

  function Patched(sub: Subnet, p: PoolKey): State {
    Full(sub, p).(pools := map[p := [At(sub, 4, 7)]])
  }

  lemma ReachPatched(sub: Subnet, p: PoolKey)
    requires Roomy(sub)
    ensures Leads(sub, EMPTY, Full(sub, p)) && Leads(sub, EMPTY, Patched(sub, p))
  {
    Stay(sub, EMPTY);
    Then(sub, EMPTY, EMPTY, Event.CreatePool(p));
    var s1 := State(map[p := []], {}, map[], map[]);
    TakeBlock(sub, EMPTY, s1, p, 1);
    RoomyNames(sub, 1, 2);
    var s2 := State(map[p := []], {}, map[Nth(sub, 1) := p], map[]);
    assert s2 == s1.(blocks := s1.blocks[Nth(sub, 1) := p]);
    TakeBlock(sub, EMPTY, s2, p, 2);
    var s3 := State(map[p := []], {}, map[Nth(sub, 1) := p, Nth(sub, 2) := p], map[]);
    assert s3 == s2.(blocks := s2.blocks[Nth(sub, 2) := p]);
    OneAt(sub, 4, 11);
    forall a | In([At(sub, 4, 11)], a) ensures Owns(sub, s3, p, a) {
      assert a / 4 == sub.lo + 1 || a / 4 == sub.lo + 2;
    }
    Patch(sub, EMPTY, s3, p, [At(sub, 4, 11)]);
    assert Full(sub, p) == s3.(pools := s3.pools[p := [At(sub, 4, 11)]]);
    OneAt(sub, 4, 7);
    forall a | In([At(sub, 4, 7)], a) ensures Owns(sub, Full(sub, p), p, a) { assert a / 4 == sub.lo + 1; }
    Patch(sub, EMPTY, Full(sub, p), p, [At(sub, 4, 7)]);
    assert Patched(sub, p) == Full(sub, p).(pools := Full(sub, p).pools[p := [At(sub, 4, 7)]]);
  }

  /** A scale-down to 4 that stopped after its patch: the next reconcile finds the pool at its
      size, completes, and leaves the idle block. */
  lemma IdleBlockStays(sub: Subnet, p: PoolKey, status: Option<PoolStatus>, workload: bool)
    requires Roomy(sub)
    ensures var s := Patched(sub, p);
            && Leads(sub, EMPTY, s) && Contained(sub, s, p) && !NoIdle(sub, s, p)
            && Scaled(sub, s, p, s.pools[p], OwnNames(s, p), true, status, workload, 4)
  {
    ReachPatched(sub, p);
    RoomyNames(sub, 1, 2);
    RoomyNames(sub, 2, 2);
    OneAt(sub, 4, 7);
    FlatOne(At(sub, 4, 7));
    var s := Patched(sub, p);
    forall a | In(s.pools[p], a) ensures Owns(sub, s, p, a) && a / sub.step != sub.lo + 2 {
      assert a / 4 == sub.lo + 1;
    }
    assert Nth(sub, 2) in OwnNames(s, p) && Vacant(sub, s, p, Nth(sub, 2));
  }
}
