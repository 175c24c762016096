/** Why a scale-down relies on a status whose free list lies within the pool's ranges. */
module StaleStatus {
  import opened Ranges
  import opened Subnets
  import opened Cluster
  import opened ClaimController
  import opened Runs

  /** Pool p at its largest: blocks number 1 to 3, addresses number 4 to 13. */
  function Early(sub: Subnet, p: PoolKey): State {
    State(map[p := [At(sub, 4, 13)]], {}, map[Nth(sub, 1) := p, Nth(sub, 2) := p, Nth(sub, 3) := p], map[])
  }

  /** Its status then: 4 addresses in use, 8 to 13 free. */
  function Stale(sub: Subnet): PoolStatus {
    PoolStatus(4, [At(sub, 8, 13)])
  }

  /** Shrunk to 4 to 9, without block 3, which pool r took. */
  function Middle(sub: Subnet, p: PoolKey, r: PoolKey): State {
    State(map[p := [At(sub, 4, 9)], r := []], {}, map[Nth(sub, 1) := p, Nth(sub, 2) := p, Nth(sub, 3) := r], map[])
  }

  /** Both pools in use; p grew again, with block 5. */
  function Late(sub: Subnet, p: PoolKey, r: PoolKey): State {
    State(map[p := [At(sub, 4, 11), At(sub, 20, 21)], r := [At(sub, 12, 12)]], {},
          map[Nth(sub, 1) := p, Nth(sub, 2) := p, Nth(sub, 3) := r, Nth(sub, 5) := p], map[])
  }

  lemma ReachEarly(sub: Subnet, p: PoolKey)
    requires Roomy(sub)
    ensures Leads(sub, EMPTY, Early(sub, p))
  {
    var s := Early(sub, p).(pools := map[p := []]);
    ThreeBlocks(sub, p, s);
    OneAt(sub, 4, 13);
    forall a | In([At(sub, 4, 13)], a) ensures Owns(sub, s, p, a) {
      assert a / 4 == sub.lo + 1 || a / 4 == sub.lo + 2 || a / 4 == sub.lo + 3;
    }
    Patch(sub, EMPTY, s, p, [At(sub, 4, 13)]);
    Rewritten(p, [], [At(sub, 4, 13)]);
  }

  lemma ThreeBlocks(sub: Subnet, p: PoolKey, s: State)
    requires Roomy(sub) && s == Early(sub, p).(pools := map[p := []])
    ensures Leads(sub, EMPTY, s)
  {
    Stay(sub, EMPTY);
    Then(sub, EMPTY, EMPTY, Event.CreatePool(p));
    var s1 := State(map[p := []], {}, map[], map[]);
    RoomyNames(sub, 1, 2);
    RoomyNames(sub, 1, 3);
    RoomyNames(sub, 2, 3);
    TakeBlock(sub, EMPTY, s1, p, 1);
    var s2 := s1.(blocks := map[Nth(sub, 1) := p]);
    assert s2.blocks == s1.blocks[Nth(sub, 1) := p];
    TakeBlock(sub, EMPTY, s2, p, 2);
    var s3 := s1.(blocks := map[Nth(sub, 1) := p, Nth(sub, 2) := p]);
    assert s3.blocks == s2.blocks[Nth(sub, 2) := p];
    TakeBlock(sub, EMPTY, s3, p, 3);
    assert s.blocks == s3.blocks[Nth(sub, 3) := p];
  }

  lemma Rewritten(p: PoolKey, was: seq<Range>, now: seq<Range>)
    ensures map[p := was][p := now] == map[p := now]
  {}

  /** p gives up block 3 ... */
  function Shorter(sub: Subnet, p: PoolKey): State {
    State(map[p := [At(sub, 4, 9)]], {}, map[Nth(sub, 1) := p, Nth(sub, 2) := p], map[])
  }

  lemma ReachShorter(sub: Subnet, p: PoolKey)
    requires Roomy(sub)
    ensures Leads(sub, Early(sub, p), Shorter(sub, p))
  {
    var s := Early(sub, p);
    Stay(sub, s);
    RoomyNames(sub, 1, 3);
    RoomyNames(sub, 2, 3);
    OneAt(sub, 4, 9);
    forall a | In([At(sub, 4, 9)], a) ensures Owns(sub, s, p, a) {
      assert a / 4 == sub.lo + 1 || a / 4 == sub.lo + 2;
    }
    Patch(sub, s, s, p, [At(sub, 4, 9)]);
    Rewritten(p, [At(sub, 4, 13)], [At(sub, 4, 9)]);
    ReleaseThird(sub, s, State(map[p := [At(sub, 4, 9)]], {}, s.blocks, map[]), p);
  }

  lemma ReleaseThird(sub: Subnet, s: State, t: State, p: PoolKey)
    requires Roomy(sub) && Leads(sub, s, t)
    requires t == State(map[p := [At(sub, 4, 9)]], {}, Early(sub, p).blocks, map[])
    ensures Leads(sub, s, Shorter(sub, p))
  {
    RoomyNames(sub, 1, 3);
    RoomyNames(sub, 2, 3);
    OneAt(sub, 4, 9);
    Then(sub, s, t, ReleaseBlock(p, Nth(sub, 3)));
    assert Shorter(sub, p).blocks == t.blocks - {Nth(sub, 3)};
  }

  /** ... and r takes it. */
  lemma ReachMiddle(sub: Subnet, p: PoolKey, r: PoolKey)
    requires Roomy(sub) && p != r
    ensures Leads(sub, Early(sub, p), Middle(sub, p, r))
  {
    var s, t := Early(sub, p), Shorter(sub, p);
    ReachShorter(sub, p);
    Then(sub, s, t, Event.CreatePool(r));
    var u := t.(pools := t.pools[r := []]);
    RoomyNames(sub, 1, 3);
    RoomyNames(sub, 2, 3);
    TakeBlock(sub, s, u, r, 3);
    MiddleState(sub, p, r);
  }

  lemma MiddleState(sub: Subnet, p: PoolKey, r: PoolKey)
    requires p != r
    ensures Middle(sub, p, r).pools == Shorter(sub, p).pools[r := []]
    ensures Middle(sub, p, r).blocks == Shorter(sub, p).blocks[Nth(sub, 3) := r]
  {}

  /** r uses its block. */
  function Rising(sub: Subnet, p: PoolKey, r: PoolKey): State {
    State(map[p := [At(sub, 4, 9)], r := [At(sub, 12, 12)]], {}, Middle(sub, p, r).blocks, map[])
  }

  lemma ReachRising(sub: Subnet, p: PoolKey, r: PoolKey)
    requires Roomy(sub) && p != r
    ensures Leads(sub, Middle(sub, p, r), Rising(sub, p, r))
  {
    var s := Middle(sub, p, r);
    Stay(sub, s);
    OneAt(sub, 12, 12);
    Patch(sub, s, s, r, [At(sub, 12, 12)]);
    assert s.(pools := s.pools[r := [At(sub, 12, 12)]]) == Rising(sub, p, r);
  }

  lemma GrowBy(sub: Subnet, s: State, t: State, p: PoolKey, i: int, rs: seq<Range>)
    requires Roomy(sub) && Leads(sub, s, t) && Active(t, p) && 1 <= i <= 5 && Nth(sub, i) !in t.blocks && Merged(rs)
    requires Covered(sub, t.(blocks := t.blocks[Nth(sub, i) := p]), p, rs)
    ensures Leads(sub, s, t.(pools := t.pools[p := rs], blocks := t.blocks[Nth(sub, i) := p]))
  {
    TakeBlock(sub, s, t, p, i);
    Patch(sub, s, t.(blocks := t.blocks[Nth(sub, i) := p]), p, rs);
  }

  lemma ReachLate(sub: Subnet, p: PoolKey, r: PoolKey)
    requires Roomy(sub) && p != r
    ensures Leads(sub, Middle(sub, p, r), Late(sub, p, r))
  {
    ReachRising(sub, p, r);
    LateBlocks(sub, p, r);
    var rs := [At(sub, 4, 11), At(sub, 20, 21)];
    LateState(sub, p, r);
    LateCovered(sub, p, r, Rising(sub, p, r).(blocks := Late(sub, p, r).blocks));
    TwoAt(sub, 4, 11, 20, 21);
    GrowBy(sub, Middle(sub, p, r), Rising(sub, p, r), p, 5, rs);
  }

  lemma LateState(sub: Subnet, p: PoolKey, r: PoolKey)
    requires p != r
    ensures Late(sub, p, r).pools == Rising(sub, p, r).pools[p := [At(sub, 4, 11), At(sub, 20, 21)]]
  {}

  lemma LateBlocks(sub: Subnet, p: PoolKey, r: PoolKey)
    requires Roomy(sub) && p != r
    ensures Nth(sub, 5) !in Middle(sub, p, r).blocks
    ensures Late(sub, p, r).blocks == Middle(sub, p, r).blocks[Nth(sub, 5) := p]
  {
    RoomyNames(sub, 1, 5);
    RoomyNames(sub, 2, 5);
    RoomyNames(sub, 3, 5);
  }

  lemma LateCovered(sub: Subnet, p: PoolKey, r: PoolKey, s: State)
    requires Roomy(sub) && p != r && s.blocks == Late(sub, p, r).blocks
    ensures Covered(sub, s, p, [At(sub, 4, 11), At(sub, 20, 21)])
  {
    TwoAt(sub, 4, 11, 20, 21);
    RoomyNames(sub, 1, 3);
    RoomyNames(sub, 2, 3);
    forall a | In([At(sub, 4, 11), At(sub, 20, 21)], a) ensures Owns(sub, s, p, a) {
      assert a / 4 == sub.lo + 1 || a / 4 == sub.lo + 2 || a / 4 == sub.lo + 5;
    }
  }

  /** A status too old for a pool without a workload label: the run is legal throughout and the
      status was exact at its first stage, yet scaling down to 9 on that status hands p an
      address of pool r. */
  lemma StaleStatusOverlap(sub: Subnet, p: PoolKey, r: PoolKey, now: seq<Range>)
    requires Roomy(sub) && p != r
    requires now == [At(sub, 4, 12), At(sub, 20, 21)]
    ensures Leads(sub, EMPTY, Early(sub, p)) && Leads(sub, Early(sub, p), Middle(sub, p, r))
    ensures Leads(sub, Middle(sub, p, r), Late(sub, p, r))
    ensures Consistent(Early(sub, p).pools[p], Stale(sub))
    ensures var s := Late(sub, p, r);
            && Active(s, p) && Active(s, r) && Shrunk(now, s.pools[p], Stale(sub), 9)
            && In(now, 4 * sub.lo + 12) && In(s.pools[r], 4 * sub.lo + 12)
  {
    ReachEarly(sub, p);
    ReachMiddle(sub, p, r);
    ReachLate(sub, p, r);
    OneAt(sub, 4, 13);
    OneAt(sub, 8, 13);
    OneAt(sub, 12, 12);
    TwoAt(sub, 4, 11, 20, 21);
    TwoAt(sub, 4, 12, 20, 21);
    FlatOne(At(sub, 4, 13));
    FlatOne(At(sub, 8, 13));
    var kept := KeptFree(Stale(sub), 9);
    var b := 4 * sub.lo;
    assert kept == Span(b + 8, b + 13)[..5];
    forall a ensures a in kept <==> b + 8 <= a <= b + 12 {
      if b + 8 <= a <= b + 12 { assert kept[a - b - 8] == a; }
    }
  }
}
