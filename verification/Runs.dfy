/** Concrete runs of the state machine, write by write. */
module Runs {
  import opened Ranges
  import opened Subnets
  import opened Cluster

  /** Some legal run leads from s to t. */
  ghost predicate Leads(sub: Subnet, s: State, t: State)
    requires sub.step > 0
  {
    exists es :: Legal(sub, s, es) && After(s, es) == t
  }

  lemma Stay(sub: Subnet, s: State)
    requires sub.step > 0
    ensures Leads(sub, s, s)
  {
    assert Legal(sub, s, []) && After(s, []) == s;
  }

  lemma Then(sub: Subnet, s: State, t: State, e: Event)
    requires sub.step > 0 && Leads(sub, s, t) && Enabled(sub, t, e)
    ensures Leads(sub, s, Apply(t, e))
  {
    var es :| Legal(sub, s, es) && After(s, es) == t;
    RunAppend(sub, s, es, e);
  }

  lemma LeadsKeepsInv(sub: Subnet, t: State)
    requires Named(sub) && Leads(sub, EMPTY, t)
    ensures Inv(sub, t)
  {
    var es :| Legal(sub, EMPTY, es) && After(EMPTY, es) == t;
    RunKeepsInv(sub, EMPTY, es, |es|);
    assert es[..|es|] == es;
  }

  /** Some legal run of others than pool p leads from s to t. */
  ghost predicate RivalsLead(sub: Subnet, p: PoolKey, s: State, t: State)
    requires sub.step > 0
  {
    exists es :: Legal(sub, s, es) && (forall e :: e in es ==> Rival(p, e)) && After(s, es) == t
  }

  lemma StayRivals(sub: Subnet, p: PoolKey, s: State)
    requires sub.step > 0
    ensures RivalsLead(sub, p, s, s)
  {
    var es: seq<Event> := [];
    assert Legal(sub, s, es) && After(s, es) == s;
  }

  lemma ThenRivals(sub: Subnet, p: PoolKey, s: State, t: State, e: Event)
    requires sub.step > 0 && RivalsLead(sub, p, s, t) && Enabled(sub, t, e) && Rival(p, e)
    ensures RivalsLead(sub, p, s, Apply(t, e))
  {
    var es :| Legal(sub, s, es) && (forall d :: d in es ==> Rival(p, d)) && After(s, es) == t;
    RunAppend(sub, s, es, e);
    assert forall d :: d in es + [e] ==> Rival(p, d);
  }

  /** Such a run keeps the invariant and p's view. */
  lemma RivalsKeep(sub: Subnet, p: PoolKey, s: State, t: State)
    requires Named(sub) && Inv(sub, s) && RivalsLead(sub, p, s, t)
    ensures Inv(sub, t) && SameView(p, s, t)
  {
    var es :| Legal(sub, s, es) && (forall e :: e in es ==> Rival(p, e)) && After(s, es) == t;
    RunKeepsInv(sub, s, es, |es|);
    assert es[..|es|] == es;
    RivalRunKeepsView(sub, p, s, es);
  }

  /** There are always further pool names. */
  lemma {:induction false} NewKey(ns: string, keys: set<PoolKey>) returns (r: PoolKey)
    ensures r.ns == ns && forall k :: k in keys ==> |k.name| < |r.name|
    decreases keys
  {
    if k :| k in keys {
      var q := NewKey(ns, keys - {k});
      r := PoolKey(ns, q.name + k.name + "x");
      forall l | l in keys ensures |l.name| < |r.name| {
        if l != k { assert l in keys - {k}; }
      }
    } else {
      r := PoolKey(ns, "");
    }
  }

  /** A subnet of at least six blocks of four addresses. */
  ghost predicate Roomy(sub: Subnet) {
    Named(sub) && sub.step == 4 && sub.lo + 5 < sub.hi
  }

  /** The name of its i-th block, counted from 0. */
  function Nth(sub: Subnet, i: int): string {
    Name(sub, sub.lo + i)
  }

  /** Addresses number a to b of such a subnet, counted from 0. */
  function At(sub: Subnet, a: int, b: int): Range {
    Range(4 * sub.lo + a, 4 * sub.lo + b)
  }

  lemma RoomyNames(sub: Subnet, i: int, j: int)
    requires Roomy(sub) && 1 <= i <= 5 && 1 <= j <= 5
    ensures IsBlock(sub, Nth(sub, i)) && NumberOf(sub, Nth(sub, i)) == sub.lo + i
    ensures Nth(sub, i) == Nth(sub, j) ==> i == j
  {
    NameNumber(sub, sub.lo + i);
    NameNumber(sub, sub.lo + j);
  }

  lemma TakeBlock(sub: Subnet, s: State, t: State, p: PoolKey, i: int)
    requires Roomy(sub) && Leads(sub, s, t) && Active(t, p) && 1 <= i <= 5 && Nth(sub, i) !in t.blocks
    ensures Leads(sub, s, t.(blocks := t.blocks[Nth(sub, i) := p]))
  {
    RoomyNames(sub, i, i);
    Then(sub, s, t, CreateBlock(p, Nth(sub, i)));
  }

  ghost predicate Covered(sub: Subnet, s: State, p: PoolKey, rs: seq<Range>)
    requires sub.step > 0
  {
    forall a :: In(rs, a) ==> Owns(sub, s, p, a)
  }

  lemma Patch(sub: Subnet, s: State, t: State, p: PoolKey, rs: seq<Range>)
    requires Roomy(sub) && Leads(sub, s, t) && Active(t, p) && Merged(rs) && Covered(sub, t, p, rs)
    ensures Leads(sub, s, t.(pools := t.pools[p := rs]))
  {
    Then(sub, s, t, PatchRanges(p, rs));
  }

  lemma One(a: int, b: int)
    requires a <= b
    ensures Merged([Range(a, b)]) && forall x :: In([Range(a, b)], x) <==> a <= x <= b
  {
    assert [Range(a, b)][1..] == [];
  }

  lemma OneAt(sub: Subnet, a: int, b: int)
    requires a <= b
    ensures var rs := [At(sub, a, b)];
            Merged(rs) && forall x :: In(rs, x) <==> a <= x - 4 * sub.lo <= b
  {
    One(4 * sub.lo + a, 4 * sub.lo + b);
  }

  lemma TwoAt(sub: Subnet, a: int, b: int, c: int, d: int)
    requires a <= b && b + 1 < c <= d
    ensures var rs := [At(sub, a, b), At(sub, c, d)];
            Merged(rs) && forall x :: In(rs, x) <==> a <= x - 4 * sub.lo <= b || c <= x - 4 * sub.lo <= d
  {
    Two(4 * sub.lo + a, 4 * sub.lo + b, 4 * sub.lo + c, 4 * sub.lo + d);
  }

  lemma Two(a: int, b: int, c: int, d: int)
    requires a <= b && b + 1 < c <= d
    ensures var rs := [Range(a, b), Range(c, d)];
            Merged(rs) && forall x :: In(rs, x) <==> a <= x <= b || c <= x <= d
  {
    assert [Range(a, b), Range(c, d)][1..] == [Range(c, d)];
    One(c, d);
  }
}
