/** The API server as the claim and pool controllers use it.

    Before any call others may have changed the store: which writes they make is up to an
    arbitrary schedule. Every call may fail; a failed call ends the reconcile where it stands.
    `trace` records every write. */
module Stores {
  import opened Wrappers
  import opened SetSizes
  import opened Ranges
  import opened Subnets
  import opened Cluster

  datatype ApiResult = Done | AlreadyExists | Failed

  /** What others write before the k-th call, for a caller that works on pool p. */
  type Schedule = (nat, State, PoolKey) -> seq<Event>

  /** Others write only what they may, and leave the caller's pool alone. */
  ghost predicate Fair(sub: Subnet, rivals: Schedule)
    requires sub.step > 0
  {
    && (forall k, s, p :: Legal(sub, s, rivals(k, s, p)))
    && (forall k, s, p, e :: e in rivals(k, s, p) ==> Rival(p, e))
  }

  class Store {
    const sub: Subnet
    const rivals: Schedule
    var calls: nat
    /** No rival is at work. */
    const quiet: bool
    /** Calls fail only because a name is taken. */
    const reliable: bool
    var st: State
    ghost var trace: seq<Event>

    constructor (sub: Subnet, rivals: Schedule, quiet: bool, reliable: bool)
      requires Named(sub) && Fair(sub, rivals) && (quiet ==> forall k, s, p :: rivals(k, s, p) == [])
      ensures this.sub == sub && this.rivals == rivals && this.quiet == quiet && this.reliable == reliable
      ensures st == EMPTY && Sound() && IsLegal()
    {
      this.sub := sub;
      this.rivals := rivals;
      calls := 0;
      this.quiet := quiet;
      this.reliable := reliable;
      st := EMPTY;
      trace := [];
    }

    ghost predicate Sound()
      reads this
    {
      && Named(sub) && Fair(sub, rivals) && (quiet ==> forall k, s, p :: rivals(k, s, p) == [])
      && st == After(EMPTY, trace) && forall n :: n in st.blocks ==> IsBlock(sub, n)
    }

    /** Every write so far was one the controllers may make. */
    ghost predicate IsLegal()
      reads this
      requires Sound()
    {
      Legal(sub, EMPTY, trace)
    }

    /** What was changed of pool p so far. */
    ghost function Written(p: PoolKey): seq<Change>
      reads this
    {
      Changes(trace, p)
    }

    /** So the invariant holds, here and wherever the run may have stopped before. */
    lemma LegalInv()
      requires Sound() && IsLegal()
      ensures Inv(sub, st)
    {
      RunKeepsInv(sub, EMPTY, trace, |trace|);
      assert trace[..|trace|] == trace;
    }

    ghost method Record(e: Event, s: State)
      requires Named(sub) && s == After(EMPTY, trace)
      modifies this`trace
      ensures trace == old(trace) + [e] && After(EMPTY, trace) == Apply(s, e)
      ensures Legal(sub, EMPTY, trace) <==> Legal(sub, EMPTY, old(trace)) && Enabled(sub, s, e)
      ensures forall p :: Written(p) == old(Written(p)) + ChangeBy(s, e, p)
    {
      RunAppend(sub, EMPTY, trace, e);
      assert (trace + [e])[..|trace|] == trace;
      trace := trace + [e];
    }

    /** Others get their turn. */
    method Interfere(p: PoolKey)
      requires Sound()
      modifies this
      ensures Sound() && old(trace) <= trace && (old(IsLegal()) ==> IsLegal())
      ensures SameView(p, old(st), st) && Written(p) == old(Written(p))
      ensures quiet ==> st == old(st)
    {
      var es := rivals(calls, st, p);
      calls := calls + 1;
      RivalRunKeepsView(sub, p, st, es);
      RunConcat(sub, EMPTY, trace, es);
      ChangesConcat(trace, es, p);
      RunKeepsBlocks(sub, st, es);
      trace := trace + es;
      st := After(st, es);
    }

    /** The names of p's blocks, in some order. */
    method ListBlocks(p: PoolKey) returns (ok: bool, items: seq<string>)
      requires Sound()
      modifies this
      ensures Sound() && old(trace) <= trace && (old(IsLegal()) ==> IsLegal()) && Written(p) == old(Written(p))
      ensures SameView(p, old(st), st) && (quiet ==> st == old(st))
      ensures ok ==> Distinct(items) && (set n | n in items) == OwnNames(st, p)
      ensures reliable ==> ok
    {
      Interfere(p);
      items := [];
      ok := *;
      ok := ok || reliable;
      if !ok {
        return;
      }
      var left := OwnNames(st, p);
      while left != {}
        invariant Distinct(items) && (set n | n in items) + left == OwnNames(st, p)
        invariant forall n :: n in items ==> n !in left
        decreases left
      {
        var n :| n in left;
        left := left - {n};
        items := items + [n];
      }
    }

    /** Reads pool p past the cache. */
    method GetPool(p: PoolKey) returns (ok: bool, ranges: Option<seq<Range>>)
      requires Sound()
      modifies this
      ensures Sound() && old(trace) <= trace && (old(IsLegal()) ==> IsLegal()) && Written(p) == old(Written(p))
      ensures SameView(p, old(st), st) && (quiet ==> st == old(st))
      ensures ok ==> ranges == if p in st.pools then Some(st.pools[p]) else None
      ensures reliable ==> ok
    {
      Interfere(p);
      ok := *;
      ok := ok || reliable;
      ranges := if p in st.pools then Some(st.pools[p]) else None;
    }

    method CreatePool(p: PoolKey) returns (r: ApiResult)
      requires Sound()
      modifies this
      ensures Sound() && old(trace) <= trace && (old(IsLegal()) ==> IsLegal())
      ensures Written(p) == old(Written(p))
      ensures r == Done ==> p !in old(st.pools) && p in st.pools && st.pools[p] == []
      ensures r != Done ==> SameView(p, old(st), st)
      ensures (p in st.cleaning <==> p in old(st.cleaning)) && OwnNames(st, p) == old(OwnNames(st, p))
      ensures quiet ==> st.blocks == old(st.blocks)
      ensures reliable && p !in old(st.pools) ==> r == Done
    {
      Interfere(p);
      var down: bool := *;
      if down && !reliable {
        return Failed;
      }
      if p in st.pools {
        return AlreadyExists;
      }
      Record(Event.CreatePool(p), st);
      st := st.(pools := st.pools[p := []]);
      r := Done;
    }

    /** Fails if the name is taken, by whomever. */
    method CreateBlock(p: PoolKey, name: string) returns (r: ApiResult)
      requires Sound() && IsBlock(sub, name)
      modifies this
      ensures Sound() && old(trace) <= trace
      ensures old(IsLegal()) && p in old(st.pools) ==> IsLegal()
      ensures Written(p) == old(Written(p))
      ensures r != Done ==> SameView(p, old(st), st) && (quiet ==> st == old(st))
      ensures r == AlreadyExists ==> name in st.blocks
      ensures r == Done ==>
                && (p in st.pools <==> p in old(st.pools)) && (p in st.pools ==> st.pools[p] == old(st).pools[p])
                && (p in st.cleaning <==> p in old(st.cleaning))
                && name !in old(OwnNames(st, p)) && OwnNames(st, p) == old(OwnNames(st, p)) + {name}
                && (quiet ==> name !in old(st.blocks) && st == old(st).(blocks := old(st).blocks[name := p]))
      ensures reliable ==> r != Failed
    {
      Interfere(p);
      var down: bool := *;
      if down && !reliable {
        return Failed;
      }
      if name in st.blocks {
        return AlreadyExists;
      }
      Record(Event.CreateBlock(p, name), st);
      ghost var before := st;
      st := st.(blocks := st.blocks[name := p]);
      assert OwnNames(st, p) == OwnNames(before, p) + {name};
      r := Done;
    }

    method PatchRanges(p: PoolKey, ranges: seq<Range>) returns (ok: bool)
      requires Sound()
      modifies this
      ensures Sound() && old(trace) <= trace
      ensures old(IsLegal() && MayPatch(sub, st, p, ranges)) ==> IsLegal()
      ensures Written(p) == old(Written(p)) + (if ok then [Patched(old(RangesOf(st, p)), ranges)] else [])
      ensures ok ==> p in st.pools && st.pools[p] == ranges &&
                     (p in st.cleaning <==> p in old(st.cleaning)) && OwnNames(st, p) == old(OwnNames(st, p))
      ensures !ok ==> SameView(p, old(st), st)
      ensures reliable && p in old(st.pools) ==> ok
    {
      Interfere(p);
      var down: bool := *;
      if down && !reliable {
        return false;
      }
      if p !in st.pools {
        return false;
      }
      forall a | Owns(sub, old(st), p, a) ensures Owns(sub, st, p, a) {
        OwnsByView(sub, old(st), st, p, a);
      }
      Record(Event.PatchRanges(p, ranges), st);
      st := st.(pools := st.pools[p := ranges]);
      ok := true;
    }

    /** Pool p, on its way out, is found unused: from here on its blocks may go. */
    method BeginCleanUp(p: PoolKey)
      requires Sound()
      modifies this
      ensures Sound() && old(trace) <= trace && (old(IsLegal()) ==> IsLegal())
      ensures Written(p) == old(Written(p)) + (if p in old(st.pools) then [Begun(old(RangesOf(st, p)))] else [])
      ensures st == if p in old(st.pools) then old(st).(cleaning := old(st.cleaning) + {p}) else old(st)
    {
      if p in st.pools {
        Record(Event.BeginCleanUp(p), st);
        st := st.(cleaning := st.cleaning + {p});
      }
    }

    /** Removes the finalizer, and with it the pool. */
    method DropPool(p: PoolKey) returns (ok: bool)
      requires Sound()
      modifies this
      ensures Sound() && old(trace) <= trace
      ensures old(IsLegal()) && (p in old(st.pools) ==> p in old(st.cleaning)) && old(OwnNames(st, p)) == {} ==>
                IsLegal()
      ensures OwnNames(st, p) == old(OwnNames(st, p)) && Written(p) == old(Written(p))
      ensures if ok then p in old(st.pools) && p !in st.pools && p !in st.cleaning else SameView(p, old(st), st)
      ensures reliable && p in old(st.pools) ==> ok
    {
      Interfere(p);
      var down: bool := *;
      if (down && !reliable) || p !in st.pools {
        return false;
      }
      Record(Event.DropPool(p), st);
      st := st.(pools := st.pools - {p}, cleaning := st.cleaning - {p});
      ok := true;
    }

    /** Deletes one block. */
    method DeleteBlock(p: PoolKey, name: string) returns (ok: bool)
      requires Sound()
      modifies this
      ensures Sound() && old(trace) <= trace
      ensures old(IsLegal() && name in OwnNames(st, p) && MayDelete(sub, st, p, name)) ==> IsLegal()
      ensures (p in st.pools <==> p in old(st.pools)) && (p in st.pools ==> st.pools[p] == old(st).pools[p])
      ensures p in st.cleaning <==> p in old(st.cleaning)
      ensures OwnNames(st, p) == old(OwnNames(st, p)) - (if ok then {name} else {})
      ensures Written(p) == old(Written(p))
      ensures reliable && name in old(OwnNames(st, p)) ==> ok
    {
      Interfere(p);
      var down: bool := *;
      if down && !reliable {
        return false;
      }
      if name !in st.blocks {
        return false;
      }
      if old(name in OwnNames(st, p) && MayDelete(sub, st, p, name)) {
        MayDeleteEnabled(sub, old(st), st, p, name);
      }
      OwnNamesLess(st, p, name);
      Remove(p, name);
      ok := true;
    }

    /** The deletion itself. */
    method Remove(p: PoolKey, name: string)
      requires Sound() && name in st.blocks
      modifies this
      ensures Sound() && old(trace) <= trace && st == old(st).(blocks := old(st).blocks - {name})
      ensures IsLegal() <==> old(IsLegal()) && Enabled(sub, old(st), Deletion(old(st), p, name))
      ensures Written(p) == old(Written(p))
    {
      Record(Deletion(st, p, name), st);
      st := st.(blocks := st.blocks - {name});
    }
  }

  lemma OwnNamesLess(s: State, p: PoolKey, name: string)
    ensures OwnNames(s.(blocks := s.blocks - {name}), p) == OwnNames(s, p) - {name}
  {}

  ghost function Deletion(s: State, p: PoolKey, name: string): Event {
    if p in s.cleaning then Event.CleanBlock(p, name) else Event.ReleaseBlock(p, name)
  }

  lemma MayDeleteEnabled(sub: Subnet, s: State, t: State, p: PoolKey, name: string)
    requires sub.step > 0 && SameView(p, s, t) && name in OwnNames(s, p) && MayDelete(sub, s, p, name)
    ensures Enabled(sub, t, Deletion(t, p, name))
  {}

  /** The block holds no pool address, or the whole pool is on its way out. */
  ghost predicate MayDelete(sub: Subnet, s: State, p: PoolKey, name: string)
    requires sub.step > 0
  {
    p in s.cleaning || (p in s.pools && Vacant(sub, s, p, name))
  }

  ghost predicate MayEmpty(s: State, p: PoolKey) {
    (Active(s, p) && s.pools[p] == []) || p in s.cleaning || OwnNames(s, p) == {}
  }

  /** Deletes p's blocks one by one; a failure leaves the rest. */
  method DeleteAllOf(store: Store, p: PoolKey) returns (ok: bool)
    requires store.Sound()
    modifies store
    ensures store.Sound() && old(store.trace) <= store.trace
    ensures old(store.IsLegal() && MayEmpty(store.st, p)) ==> store.IsLegal()
    ensures store.Written(p) == old(store.Written(p))
    ensures p in store.st.pools <==> p in old(store.st.pools)
    ensures p in store.st.pools ==> store.st.pools[p] == old(store.st).pools[p]
    ensures p in store.st.cleaning <==> p in old(store.st.cleaning)
    ensures ok ==> OwnNames(store.st, p) == {}
    ensures store.reliable ==> ok
  {
    var items: seq<string>;
    ok, items := store.ListBlocks(p);
    if !ok {
      return;
    }
    ghost var wasLegal := store.IsLegal();
    ghost var may := MayEmpty(store.st, p) && items != [];
    if items != [] { assert items[0] in OwnNames(store.st, p); }
    for i := 0 to |items|
      invariant store.Sound() && old(store.trace) <= store.trace
      invariant wasLegal && (may || i == 0) ==> store.IsLegal()
      invariant store.Written(p) == old(store.Written(p))
      invariant p in store.st.pools <==> p in old(store.st.pools)
      invariant p in store.st.pools ==> store.st.pools[p] == old(store.st).pools[p]
      invariant p in store.st.cleaning <==> p in old(store.st.cleaning)
      invariant OwnNames(store.st, p) == SetOf(items[i..])
    {
      RestLess(items, i);
      ok := store.DeleteBlock(p, items[i]);
      if !ok {
        return;
      }
    }
    ok := true;
  }

  lemma RestLess(items: seq<string>, i: nat)
    requires Distinct(items) && i < |items|
    ensures items[i] in items[i..] && SetOf(items[i + 1..]) == SetOf(items[i..]) - {items[i]}
  {
    assert items[i..] == [items[i]] + items[i + 1..];
    assert items[i] !in items[i + 1..];
  }

  /** Ownership is part of the view. */
  lemma OwnsByView(sub: Subnet, s: State, t: State, p: PoolKey, a: int)
    requires sub.step > 0 && OwnNames(s, p) == OwnNames(t, p)
    ensures Owns(sub, s, p, a) <==> Owns(sub, t, p, a)
  {
    var n := Name(sub, a / sub.step);
    assert n in OwnNames(s, p) <==> n in OwnNames(t, p);
  }
}
