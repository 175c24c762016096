/** The IP allocator: finds the addresses a pod already has and assigns the missing ones. */
module Allocator {
  import opened Wrappers
  import opened SetSizes
  import opened Ranges
  import opened Iterators
  import opened Subnets
  import opened Stores
  import opened Texts

  /** Address texts as object names. */
  datatype Codec = Codec(ipName: (Family, int) -> string, ipParse: (Family, string) -> Option<int>)

  /** An IP object: the pod it is for, its version label, whether it is being deleted. */
  datatype Record = Record(pod: string, version: Option<Family>, terminating: bool)

  type Records = map<string, Record>

  /** The records of one pod. */
  function Mine(recs: Records, me: string): Records {
    map n | n in recs && recs[n].pod == me :: recs[n]
  }

  function Live(m: Records): set<string> {
    set n | n in m && !m[n].terminating
  }

  function LiveOf(m: Records, v: Family): set<string> {
    set n | n in m && !m[n].terminating && m[n].version == Some(v)
  }

  function Add(m: Records, me: string, name: string, v: Family): Records {
    m[name := Record(me, Some(v), false)]
  }

  lemma AddLive(m: Records, me: string, name: string, v: Family)
    requires name !in m
    ensures Live(Add(m, me, name, v)) == Live(m) + {name} && name !in Live(m)
    ensures forall w :: LiveOf(Add(m, me, name, v), w) == LiveOf(m, w) + (if w == v then {name} else {})
    ensures forall w :: name !in LiveOf(m, w)
  {}

  /** The IP objects of one namespace. Others write between any two calls but leave this pod's
      records alone; the pool status read may be of any age. */
  class IPStore {
    const me: string
    const codec: Codec
    const rivals: (nat, Records) -> Records
    const views: (nat, Family, Records) -> Option<seq<Range>>
    /** Calls fail only because a name is taken. */
    const reliable: bool
    var recs: Records
    var calls: nat

    constructor (me: string, codec: Codec, rivals: (nat, Records) -> Records,
                 views: (nat, Family, Records) -> Option<seq<Range>>,
                 reliable: bool, recs: Records)
      requires Usable(me, codec, rivals, views) && (reliable ==> forall k, v, m :: views(k, v, m).Some?)
      ensures this.me == me && this.codec == codec && this.reliable == reliable && this.recs == recs && Sound()
    {
      this.reliable := reliable;
      this.me := me;
      this.codec := codec;
      this.rivals := rivals;
      this.views := views;
      this.recs := recs;
      calls := 0;
    }

    ghost predicate Sound()
      reads this
    {
      Usable(me, codec, rivals, views) && (reliable ==> forall k, v, m :: views(k, v, m).Some?)
    }

    function Own(): Records
      reads this
    {
      Mine(recs, me)
    }

    method Interfere()
      requires Sound()
      modifies this
      ensures Sound() && Own() == old(Own())
      ensures recs == rivals(old(calls), old(recs)) && calls == old(calls) + 1
    {
      recs := rivals(calls, recs);
      calls := calls + 1;
    }

    /** A failed call may have taken effect all the same. */
    method Create(name: string, v: Family) returns (r: ApiResult)
      requires Sound()
      modifies this
      ensures Sound()
      ensures r == AlreadyExists ==> name in recs && Own() == old(Own())
      ensures r == Done ==> name !in old(Own()) && Own() == Add(old(Own()), me, name, v)
      ensures r == Failed ==> Own() == old(Own()) || (name !in old(Own()) && Own() == Add(old(Own()), me, name, v))
      ensures reliable ==> r != Failed
      ensures calls == old(calls) + 1
      ensures reliable && Idle(this) ==> r == if name in old(recs) then AlreadyExists else Done
      ensures reliable && Idle(this) ==>
                recs == if r == Done then old(recs)[name := Record(me, Some(v), false)] else old(recs)
    {
      Interfere();
      var down: bool := *;
      down := down && !reliable;
      var lost: bool := *;
      if down && lost {
        return Failed;
      }
      if name in recs {
        return if down then Failed else AlreadyExists;
      }
      ghost var before := recs;
      recs := recs[name := Record(me, Some(v), false)];
      assert Own() == Add(Mine(before, me), me, name, v);
      r := if down then Failed else Done;
    }

    /** This pod's records from a synced cache. */
    method ListOwn() returns (ok: bool, names: seq<string>, own: Records)
      requires Sound()
      modifies this
      ensures Sound() && own == Own() == old(Own())
      ensures ok ==> Distinct(names) && SetOf(names) == own.Keys
      ensures reliable ==> ok
      ensures Idle(this) ==> recs == old(recs)
    {
      Interfere();
      own := Own();
      names := [];
      ok := *;
      ok := ok || reliable;
      if !ok {
        return;
      }
      var left := own.Keys;
      while left != {}
        invariant Distinct(names) && SetOf(names) + left == own.Keys
        invariant forall n :: n in names ==> n !in left
        decreases left
      {
        var n :| n in left;
        left := left - {n};
        names := names + [n];
      }
    }

    /** The free list of the pool for version `v`, as the cache shows it now. */
    method ReadFree(v: Family) returns (free: Option<seq<Range>>)
      requires Sound()
      modifies this
      ensures Sound() && Own() == old(Own())
      ensures free.Some? ==> Offer(codec, v, free.value)
      ensures reliable ==> free.Some?
      ensures free == views(old(calls), v, old(recs)) && calls == old(calls) + 1
      ensures Idle(this) ==> recs == old(recs)
    {
      free := views(calls, v, recs);
      Interfere();
    }
  }

  /** A merged list of addresses whose names are invertible. */
  ghost predicate Offer(codec: Codec, v: Family, free: seq<Range>) {
    Merged(free) && forall a :: In(free, a) ==> codec.ipParse(v, codec.ipName(v, a)) == Some(a)
  }

  /** The name of an address that some read of the pool's status showed as free. */
  ghost predicate Shown(store: IPStore, v: Family, n: string) {
    exists k, m, a :: store.views(k, v, m).Some? && In(store.views(k, v, m).value, a) && n == store.codec.ipName(v, a)
  }

  /** Others leave all records alone. */
  ghost predicate Idle(store: IPStore) {
    forall k, m :: store.rivals(k, m) == m
  }

  ghost predicate Usable(me: string, codec: Codec, rivals: (nat, Records) -> Records,
                         views: (nat, Family, Records) -> Option<seq<Range>>)
  {
    && (forall k, m :: Mine(rivals(k, m), me) == Mine(m, me))
    && (forall k, v, m :: views(k, v, m).Some? ==> Offer(codec, v, views(k, v, m).value))
    && (forall n :: codec.ipParse(Unknown, n) == None)
  }

  // ---------------------------------------------------------------- one attempt

  /** The two names an attempt may take: that of the address at the hashed index and that of
      its cyclic successor, in sorted order of the free list. */
  method Aim(codec: Codec, v: Family, free: seq<Range>, hash: nat) returns (first: string, second: string)
    requires Offer(codec, v, free) && |Flat(free)| > 0
    ensures var f := Flat(free); var k := Mod(hash, |f|);
            first == codec.ipName(v, f[k]) && second == codec.ipName(v, f[Following(k, |f|)])
  {
    MergedProper(free);
    SizeIsFlat(free);
    var index := Mod(hash, Size(free)) + 1;
    var iter := new IPIterator(free);
    var ip := iter.NextN(index);
    first := codec.ipName(v, ip.value);
    var next := iter.Next();
    if next == None {
      iter.Reset();
      next := iter.Next();
    }
    second := codec.ipName(v, next.value);
  }

  /** An address one of whose version a worker is to assign: the num-th of those missing. */
  datatype Slot = Slot(version: Family, num: nat)

  function HashOf(hash: (Family, nat) -> nat, slot: Slot): nat {
    hash(slot.version, slot.num)
  }

  /** The name of the address that a hash points at in a free list, and that of its cyclic
      successor. */
  ghost function FirstName(codec: Codec, free: seq<Range>, hash: (Family, nat) -> nat, slot: Slot): string {
    var f := Flat(free);
    if f == [] then "" else codec.ipName(slot.version, f[Mod(HashOf(hash, slot), |f|)])
  }

  ghost function SecondName(codec: Codec, free: seq<Range>, hash: (Family, nat) -> nat, slot: Slot): string {
    var f := Flat(free);
    if f == [] then "" else codec.ipName(slot.version, f[Following(Mod(HashOf(hash, slot), |f|), |f|)])
  }

  /** The name is one of the two, in a free list that some read showed; if `straight`, the first. */
  ghost predicate PointedAt(store: IPStore, hash: (Family, nat) -> nat, slot: Slot, n: string, straight: bool) {
    exists k, m ::
      && store.views(k, slot.version, m).Some? && |Flat(store.views(k, slot.version, m).value)| > 0
      && var free := store.views(k, slot.version, m).value;
         n == FirstName(store.codec, free, hash, slot) || (!straight && n == SecondName(store.codec, free, hash, slot))
  }

  lemma PointedIs(store: IPStore, hash: (Family, nat) -> nat, slot: Slot, n: string, straight: bool, k: nat, m: Records)
    requires store.views(k, slot.version, m).Some? && |Flat(store.views(k, slot.version, m).value)| > 0
    requires var free := store.views(k, slot.version, m).value;
             n == FirstName(store.codec, free, hash, slot) ||
             (!straight && n == SecondName(store.codec, free, hash, slot))
    ensures PointedAt(store, hash, slot, n, straight)
  {}

  /** So it is the name of an address shown as free. */
  lemma PointedShown(store: IPStore, hash: (Family, nat) -> nat, slot: Slot, n: string, straight: bool)
    requires PointedAt(store, hash, slot, n, straight)
    ensures Shown(store, slot.version, n)
  {
    var k, m :| store.views(k, slot.version, m).Some? && |Flat(store.views(k, slot.version, m).value)| > 0 &&
                var free := store.views(k, slot.version, m).value;
                n == FirstName(store.codec, free, hash, slot) ||
                (!straight && n == SecondName(store.codec, free, hash, slot));
    var free := store.views(k, slot.version, m).value;
    var f, i := Flat(free), Mod(HashOf(hash, slot), |Flat(free)|);
    var a := if n == FirstName(store.codec, free, hash, slot) then f[i] else f[Following(i, |f|)];
    FlatInAll(free);
    assert a in f;
    assert In(store.views(k, slot.version, m).value, a) && n == store.codec.ipName(slot.version, a);
  }

  /** Names of offered addresses are canonical. */
  lemma OfferCanonical(codec: Codec, v: Family, free: seq<Range>, k: nat)
    requires Offer(codec, v, free) && k < |Flat(free)|
    ensures var a := Flat(free)[k]; codec.ipParse(v, codec.ipName(v, a)) == Some(a)
  {
    FlatInAll(free);
    assert Flat(free)[k] in Flat(free);
  }

  datatype IPConfig = IPConfig(version: Family, address: int)

  const STEPS: nat := 6

  /** A worker assigning one address: attempts made so far, and the successor still to probe
      in the current attempt. */
  datatype Worker = Worker(version: Family, num: nat, tries: nat, probe: Option<string>)

  datatype Outcome = Got(config: IPConfig) | Again(worker: Worker) | Lost

  ghost predicate Sane(codec: Codec, w: Worker) {
    && w.tries < STEPS && (w.version == IPv4 || w.version == IPv6)
    && (w.probe.Some? ==> Canonical(codec, w.version, w.probe.value))
  }

  ghost predicate Canonical(codec: Codec, v: Family, n: string) {
    codec.ipParse(v, n).Some? && codec.ipName(v, codec.ipParse(v, n).value) == n
  }

  function Left(w: Worker): nat {
    if w.tries < STEPS then 2 * (STEPS - w.tries) - (if w.probe.Some? then 1 else 0) else 0
  }

  function SlotOf(w: Worker): Slot {
    Slot(w.version, w.num)
  }

  /** The next attempt, unless this was the last one. */
  function Retry(w: Worker): Outcome {
    if w.tries + 1 < STEPS then Again(w.(tries := w.tries + 1, probe := None)) else Lost
  }

  /** The worker goes on to its next attempt, or gives up after its sixth. */
  ghost predicate MovesOn(w: Worker, out: Outcome) {
    if w.tries < 5 then out == Again(Worker(w.version, w.num, w.tries + 1, None)) else out == Lost
  }

  /** Half an attempt counts as one that has begun. */
  function Begun(w: Worker): nat {
    w.tries + if w.probe.Some? then 1 else 0
  }

  /** What a worker's step did to the pod's records. */
  ghost predicate Stepped(codec: Codec, me: string, was: Records, now: Records, w: Worker, out: Outcome) {
    match out
    case Got(c) => c.version == w.version && exists n :: Gained(codec, me, was, now, c, n)
    case Again(w') => now == was && Sane(codec, w') && w'.version == w.version && Left(w') < Left(w)
    case Lost =>
      now == was || exists c: IPConfig, n: string :: c.version == w.version && Gained(codec, me, was, now, c, n)
  }

  /** The records gained name n, which stands for address c. */
  ghost predicate Gained(codec: Codec, me: string, was: Records, now: Records, c: IPConfig, n: string) {
    && n !in was && now == Add(was, me, n, c.version)
    && codec.ipParse(c.version, n) == Some(c.address) && codec.ipName(c.version, c.address) == n
  }

  ghost predicate Probing(store: IPStore, hash: (Family, nat) -> nat, w: Worker) {
    w.probe.Some? ==> PointedAt(store, hash, SlotOf(w), w.probe.value, false)
  }

  /** Every new record is labelled and for an address the worker points at. */
  ghost predicate AllPointed(store: IPStore, hash: (Family, nat) -> nat, w: Worker, was: Records, now: Records) {
    forall n :: n in now && n !in was ==>
                  now[n].version == Some(w.version) && PointedAt(store, hash, SlotOf(w), n, w.probe == None)
  }

  /** One create call of one worker. An attempt moves on only past a taken name, and ends
      without an address only if both names were taken or nothing was free. */
  method Attempt(store: IPStore, w: Worker, hash: (Family, nat) -> nat)
    returns (out: Outcome, ghost free: Option<seq<Range>>)
    requires store.Sound() && Sane(store.codec, w) && Probing(store, hash, w)
    modifies store
    ensures store.Sound() && Stepped(store.codec, store.me, old(store.Own()), store.Own(), w, out)
    ensures out.Again? ==>
              SlotOf(out.worker) == SlotOf(w) && Probing(store, hash, out.worker) && Begun(out.worker) <= Begun(w) + 1
    ensures AllPointed(store, hash, w, old(store.Own()), store.Own())
    ensures free == if w.probe == None then store.views(old(store.calls), w.version, old(store.recs)) else None
    ensures w.probe == None && free.Some? && |Flat(free.value)| > 0 ==>
              var f := Flat(free.value);
              (out.Got? ==> out.config == IPConfig(w.version, f[Mod(HashOf(hash, SlotOf(w)), |f|)])) &&
              (out.Again? ==> FirstName(store.codec, free.value, hash, SlotOf(w)) in store.recs &&
                              out.worker.probe == Some(SecondName(store.codec, free.value, hash, SlotOf(w))))
    ensures w.probe == None && free.Some? && |Flat(free.value)| == 0 ==> MovesOn(w, out)
    ensures w.probe.Some? && MovesOn(w, out) && out.Again? ==> w.probe.value in store.recs
    ensures w.probe.Some? && out.Got? ==> store.codec.ipName(w.version, out.config.address) == w.probe.value
    ensures store.reliable && w.probe == None ==> free.Some? && (|Flat(free.value)| > 0 ==> !out.Lost?)
    ensures store.reliable && w.probe.Some? && !out.Got? ==> MovesOn(w, out) && w.probe.value in store.recs
    ensures store.calls > old(store.calls) && (store.reliable && out.Lost? ==> w.tries == 5)
    ensures store.reliable && Idle(store) && w.probe == None && |Flat(free.value)| > 0 ==>
              var n := FirstName(store.codec, free.value, hash, SlotOf(w));
              n !in old(store.recs) ==>
                out.Got? && store.recs == old(store.recs)[n := Record(store.me, Some(w.version), false)]
  {
    var v := w.version;
    free := None;
    if w.probe.Some? {
      out := Take(store, w, w.probe.value);
      if out == Again(w) {
        out := Retry(w);
      }
      return;
    }
    ghost var calls, recs := store.calls, store.recs;
    var view := store.ReadFree(v);
    free := view;
    if view == None {
      return Lost, free;
    }
    MergedProper(view.value);
    SizeIsFlat(view.value);
    if Size(view.value) == 0 {
      return Retry(w), free;
    }
    var first, second := Aim(store.codec, v, view.value, HashOf(hash, SlotOf(w)));
    ghost var k := Mod(HashOf(hash, SlotOf(w)), |Flat(view.value)|);
    PointedIs(store, hash, SlotOf(w), first, true, calls, recs);
    PointedIs(store, hash, SlotOf(w), second, false, calls, recs);
    OfferCanonical(store.codec, v, view.value, k);
    OfferCanonical(store.codec, v, view.value, Following(k, |Flat(view.value)|));
    out := Take(store, w, first);
    if out == Again(w) {
      out := Again(w.(probe := Some(second)));
    }
  }

  /** The create call itself; a taken name leaves the worker as it was. */
  method Take(store: IPStore, w: Worker, name: string) returns (out: Outcome)
    requires store.Sound() && Canonical(store.codec, w.version, name)
    modifies store
    ensures store.Sound()
    ensures out.Again? ==> out == Again(w) && name in store.recs && store.Own() == old(store.Own())
    ensures out.Got? ==> out.config == IPConfig(w.version, store.codec.ipParse(w.version, name).value) &&
                         Gained(store.codec, store.me, old(store.Own()), store.Own(), out.config, name)
    ensures out.Lost? ==>
              (store.Own() == old(store.Own()) ||
               Gained(store.codec, store.me, old(store.Own()), store.Own(),
                      IPConfig(w.version, store.codec.ipParse(w.version, name).value), name))
    ensures store.reliable ==> !out.Lost?
    ensures store.calls == old(store.calls) + 1
    ensures store.reliable && Idle(store) && name !in old(store.recs) ==>
              out.Got? && store.recs == old(store.recs)[name := Record(store.me, Some(w.version), false)]
  {
    var r := store.Create(name, w.version);
    match r
    case Done => out := Got(IPConfig(w.version, store.codec.ipParse(w.version, name).value));
    case AlreadyExists => out := Again(w);
    case Failed => out := Lost;
  }

  // ---------------------------------------------------------------- all workers

  function CountOf(ws: seq<Worker>, v: Family): nat {
    if ws == [] then 0 else (if ws[0].version == v then 1 else 0) + CountOf(ws[1..], v)
  }

  function Remaining(ws: seq<Worker>): nat {
    if ws == [] then 0 else Left(ws[0]) + Remaining(ws[1..])
  }

  lemma {:induction false} Replaced(ws: seq<Worker>, k: nat, w: Worker)
    requires k < |ws|
    ensures Remaining(ws[k := w]) + Left(ws[k]) == Remaining(ws) + Left(w)
    ensures w.version == ws[k].version ==> forall v :: CountOf(ws[k := w], v) == CountOf(ws, v)
  {
    if k == 0 {
      assert ws[0 := w][1..] == ws[1..];
    } else {
      assert ws[k := w][1..] == ws[1..][k - 1 := w];
      Replaced(ws[1..], k - 1, w);
    }
  }

  lemma {:induction false} Removed(ws: seq<Worker>, k: nat)
    requires k < |ws|
    ensures Remaining(ws[..k] + ws[k + 1..]) + Left(ws[k]) == Remaining(ws)
    ensures forall v :: CountOf(ws[..k] + ws[k + 1..], v) + (if v == ws[k].version then 1 else 0) == CountOf(ws, v)
  {
    if k == 0 {
      assert ws[..0] + ws[1..] == ws[1..];
    } else {
      var rest := ws[1..];
      assert (ws[..k] + ws[k + 1..])[1..] == rest[..k - 1] + rest[k..];
      Removed(rest, k - 1);
    }
  }

  lemma Others(ws: seq<Worker>, k: nat)
    requires k < |ws|
    ensures forall w :: w in ws[..k] + ws[k + 1..] ==> w in ws
  {}

  /** One worker per address. */
  method Team(v: Family, n: nat, team: seq<Worker>) returns (ws: seq<Worker>)
    requires v == IPv4 || v == IPv6
    requires SlotsDiffer(team) && forall w :: w in team ==> w.version != v
    ensures CountOf(ws, v) == CountOf(team, v) + n && forall u :: u != v ==> CountOf(ws, u) == CountOf(team, u)
    ensures forall w :: w in ws ==> w in team || (w.version == v && w.num < n && w.tries == 0 && w.probe == None)
    ensures SlotsDiffer(ws)
  {
    ws := team;
    for i := 0 to n
      invariant CountOf(ws, v) == CountOf(team, v) + i && forall u :: u != v ==> CountOf(ws, u) == CountOf(team, u)
      invariant forall w :: w in ws ==> w in team || (w.version == v && w.num < i && w.tries == 0 && w.probe == None)
      invariant SlotsDiffer(ws)
    {
      assert ([Worker(v, i, 0, None)] + ws)[1..] == ws;
      ws := [Worker(v, i, 0, None)] + ws;
    }
  }

  ghost predicate SlotsDiffer(ws: seq<Worker>) {
    forall i, j :: 0 <= i < j < |ws| ==> SlotOf(ws[i]) != SlotOf(ws[j])
  }

  /** Every live record is labelled and canonically named. */
  ghost predicate Tidy(codec: Codec, m: Records) {
    forall n :: n in Live(m) ==> m[n].version.Some? && Canonical(codec, m[n].version.value, n)
  }

  ghost function ConfigOf(codec: Codec, m: Records, n: string): IPConfig
    requires n in m
  {
    match m[n].version
    case None => IPConfig(Unknown, 0)
    case Some(v) => match codec.ipParse(v, n) case None => IPConfig(v, 0) case Some(a) => IPConfig(v, a)
  }

  /** The list names each live record's address, each once. */
  ghost predicate Recorded(codec: Codec, m: Records, ips: seq<IPConfig>) {
    && Distinct(ips) && |ips| == |Live(m)|
    && (forall n :: n in Live(m) ==> ConfigOf(codec, m, n) in ips)
    && (forall c :: c in ips ==> exists n :: n in Live(m) && c == ConfigOf(codec, m, n))
  }

  /** A new canonical record has an address no other record has. */
  lemma NewAddress(codec: Codec, me: string, was: Records, now: Records, ips: seq<IPConfig>, c: IPConfig, n: string)
    requires Tidy(codec, was) && Recorded(codec, was, ips) && Gained(codec, me, was, now, c, n)
    ensures Tidy(codec, now) && c !in ips && ConfigOf(codec, now, n) == c
    ensures Live(now) == Live(was) + {n} && n !in Live(was)
    ensures forall m :: m in Live(was) ==> ConfigOf(codec, now, m) == ConfigOf(codec, was, m)
  {
    AddLive(was, me, n, c.version);
    forall m | m in Live(was) ensures ConfigOf(codec, was, m) != c {
      assert Canonical(codec, was[m].version.value, m);
    }
  }

  lemma RecordedGains(codec: Codec, me: string, was: Records, now: Records, ips: seq<IPConfig>, c: IPConfig, n: string)
    requires Tidy(codec, was) && Recorded(codec, was, ips) && Gained(codec, me, was, now, c, n)
    ensures Tidy(codec, now) && Recorded(codec, now, ips + [c])
  {
    NewAddress(codec, me, was, now, ips, c, n);
    forall d | d in ips + [c] ensures exists m :: m in Live(now) && d == ConfigOf(codec, now, m) {
      if d in ips {
        var m :| m in Live(was) && d == ConfigOf(codec, was, m);
        assert m in Live(now);
      } else {
        assert n in Live(now);
      }
    }
  }

  /** Where an assignment stands; `goal` is how many live records a version may reach. */
  ghost predicate Underway(codec: Codec, start: Records, now: Records, goal: Family -> int, ws: seq<Worker>,
                           ok: bool, ips: seq<IPConfig>)
  {
    && (forall w :: w in ws ==> Sane(codec, w))
    && (forall v :: |LiveOf(now, v)| + CountOf(ws, v) <= goal(v))
    && (ok ==> forall v :: |LiveOf(now, v)| + CountOf(ws, v) == goal(v))
    && (forall n :: n in start ==> n in now && now[n] == start[n])
    && (ok && Tidy(codec, start) ==> Tidy(codec, now) && Recorded(codec, now, ips))
  }

  lemma AgainUnderway(codec: Codec, start: Records, now: Records, goal: Family -> int, ws: seq<Worker>, k: nat,
                      ok: bool, ips: seq<IPConfig>, w: Worker)
    requires Underway(codec, start, now, goal, ws, ok, ips) && k < |ws|
    requires Sane(codec, w) && w.version == ws[k].version && Left(w) < Left(ws[k])
    ensures Remaining(ws[k := w]) < Remaining(ws) && Underway(codec, start, now, goal, ws[k := w], ok, ips)
  {
    Replaced(ws, k, w);
  }

  lemma GotUnderway(codec: Codec, me: string, start: Records, was: Records, now: Records, goal: Family -> int,
                    ws: seq<Worker>, k: nat, ok: bool, ips: seq<IPConfig>, c: IPConfig, n: string)
    requires Underway(codec, start, was, goal, ws, ok, ips) && k < |ws| && c.version == ws[k].version
    requires Gained(codec, me, was, now, c, n) && Sane(codec, ws[k])
    ensures Remaining(ws[..k] + ws[k + 1..]) < Remaining(ws)
    ensures Underway(codec, start, now, goal, ws[..k] + ws[k + 1..], ok, ips + [c])
  {
    Removed(ws, k);
    Others(ws, k);
    CountsShift(was, now, me, c.version, n, goal, ws, k, ok);
    if ok && Tidy(codec, start) { RecordedGains(codec, me, was, now, ips, c, n); }
  }

  /** What one worker leaves undone its record makes up for. */
  lemma CountsShift(was: Records, now: Records, me: string, v: Family, n: string, goal: Family -> int,
                    ws: seq<Worker>, k: nat, ok: bool)
    requires k < |ws| && ws[k].version == v && n !in was && now == Add(was, me, n, v)
    requires forall u :: |LiveOf(was, u)| + CountOf(ws, u) <= goal(u)
    requires ok ==> forall u :: |LiveOf(was, u)| + CountOf(ws, u) == goal(u)
    ensures forall u :: |LiveOf(now, u)| + CountOf(ws[..k] + ws[k + 1..], u) <= goal(u)
    ensures ok ==> forall u :: |LiveOf(now, u)| + CountOf(ws[..k] + ws[k + 1..], u) == goal(u)
  {
    Removed(ws, k);
    AddLive(was, me, n, v);
  }

  lemma LostUnderway(codec: Codec, start: Records, now: Records, goal: Family -> int,
                     ws: seq<Worker>, k: nat, ok: bool, ips: seq<IPConfig>)
    requires Underway(codec, start, now, goal, ws, ok, ips) && k < |ws| && Sane(codec, ws[k])
    ensures Remaining(ws[..k] + ws[k + 1..]) < Remaining(ws)
    ensures Underway(codec, start, now, goal, ws[..k] + ws[k + 1..], false, ips)
  {
    Removed(ws, k);
    Others(ws, k);
  }

  /** A failed assignment remains one with other addresses listed. */
  lemma FailedUnderway(codec: Codec, start: Records, now: Records, goal: Family -> int, ws: seq<Worker>,
                       ok: bool, ips: seq<IPConfig>, other: seq<IPConfig>)
    requires Underway(codec, start, now, goal, ws, ok, ips)
    ensures Underway(codec, start, now, goal, ws, false, other)
  {}

  /** One step of worker k and what it leaves. */
  lemma StepUnderway(codec: Codec, me: string, start: Records, was: Records, now: Records, goal: Family -> int,
                     ws: seq<Worker>, k: nat, ok: bool, ips: seq<IPConfig>, out: Outcome)
    requires Underway(codec, start, was, goal, ws, ok, ips) && k < |ws| && Stepped(codec, me, was, now, ws[k], out)
    ensures var ws' := if out.Again? then ws[k := out.worker] else ws[..k] + ws[k + 1..];
            Remaining(ws') < Remaining(ws) &&
            Underway(codec, start, now, goal, ws', ok && !out.Lost?, if out.Got? then ips + [out.config] else ips)
  {
    assert ws[k] in ws;
    match out
    case Again(w) =>
      AgainUnderway(codec, start, now, goal, ws, k, ok, ips, w);
    case Got(c) =>
      var n :| Gained(codec, me, was, now, c, n);
      GotUnderway(codec, me, start, was, now, goal, ws, k, ok, ips, c, n);
    case Lost =>
      if now == was {
        LostUnderway(codec, start, now, goal, ws, k, ok, ips);
      } else {
        var c: IPConfig, n: string :| c.version == ws[k].version && Gained(codec, me, was, now, c, n);
        GotUnderway(codec, me, start, was, now, goal, ws, k, ok, ips, c, n);
        FailedUnderway(codec, start, now, goal, ws[..k] + ws[k + 1..], ok, ips + [c], ips);
      }
  }

  /** The live records each version may reach. */
  function Goal(m: Records, v4: int, v6: int): Family -> int {
    v => |LiveOf(m, v)| + (if v == IPv4 then v4 else if v == IPv6 then v6 else 0)
  }

  /** Every new record is labelled and for an address that was shown as free. */
  ghost predicate FromFree(store: IPStore, was: Records, now: Records) {
    forall n :: n in now && n !in was ==> now[n].version.Some? && Shown(store, now[n].version.value, n)
  }

  function Want(v: Family, v4: int, v6: int): int {
    if v == IPv4 then v4 else if v == IPv6 then v6 else 0
  }

  function IsReady(ready: Family -> bool, v: Family): bool {
    ready(v)
  }

  /** The slot is one of those to fill. */
  ghost predicate Due(ready: Family -> bool, v4: int, v6: int, slot: Slot) {
    IsReady(ready, slot.version) && slot.num < Want(slot.version, v4, v6)
  }

  ghost predicate OneCredit(store: IPStore, hash: (Family, nat) -> nat, ready: Family -> bool, v4: int, v6: int,
                            now: Records, n: string, slot: Slot, straight: bool)
  {
    && n in now && now[n].version == Some(slot.version) && Due(ready, v4, v6, slot)
    && PointedAt(store, hash, slot, n, straight)
  }

  /** Every new record fills a slot of its own that no worker is at, under a name the slot's hash
      points at. */
  ghost predicate Credits(store: IPStore, hash: (Family, nat) -> nat, ready: Family -> bool, v4: int, v6: int,
                          start: Records, now: Records, team: seq<Worker>, who: map<string, Slot>, straight: bool)
  {
    && NewOnes(who, start, now) && Apart(who) && Clear(who, team)
    && (forall n :: n in who ==> OneCredit(store, hash, ready, v4, v6, now, n, who[n], straight))
    && SlotsDiffer(team)
    && (forall w :: w in team ==> Due(ready, v4, v6, SlotOf(w)) && Probing(store, hash, w))
  }

  ghost predicate NewOnes(who: map<string, Slot>, start: Records, now: Records) {
    forall n :: n in who <==> n in now && n !in start
  }

  /** No record fills a slot that a worker is at. */
  ghost predicate Clear(who: map<string, Slot>, team: seq<Worker>) {
    forall n, w :: n in who && w in team ==> who[n] != SlotOf(w)
  }

  ghost predicate Credited(store: IPStore, hash: (Family, nat) -> nat, ready: Family -> bool, v4: int, v6: int,
                           start: Records, now: Records, straight: bool)
  {
    exists who :: Credits(store, hash, ready, v4, v6, start, now, [], who, straight)
  }

  /** One step of worker k. */
  lemma StepCredits(store: IPStore, hash: (Family, nat) -> nat, ready: Family -> bool, v4: int, v6: int,
                    start: Records, was: Records, now: Records, ws: seq<Worker>, k: nat, who: map<string, Slot>,
                    straight: bool, out: Outcome) returns (who': map<string, Slot>)
    requires Credits(store, hash, ready, v4, v6, start, was, ws, who, straight) && k < |ws|
    requires Stepped(store.codec, store.me, was, now, ws[k], out) && AllPointed(store, hash, ws[k], was, now)
    requires forall n :: n in start ==> n in was
    requires straight ==> ws[k].probe == None
    requires out.Again? ==> SlotOf(out.worker) == SlotOf(ws[k]) && Probing(store, hash, out.worker)
    ensures Credits(store, hash, ready, v4, v6, start, now,
                    if out.Again? then ws[k := out.worker] else ws[..k] + ws[k + 1..], who', straight)
  {
    assert ws[k] in ws;
    match out
    case Again(w) =>
      who' := who;
      AgainCredits(store, hash, ready, v4, v6, start, was, ws, k, who, straight, w);
    case Got(c) =>
      var n :| Gained(store.codec, store.me, was, now, c, n);
      who' := GainCredits(store, hash, ready, v4, v6, start, was, now, ws, k, who, straight, c, n);
    case Lost =>
      if now == was {
        who' := who;
        LeavesNone(store, hash, ready, v4, v6, start, was, ws, k, who, straight);
      } else {
        var c: IPConfig, n: string :| c.version == ws[k].version && Gained(store.codec, store.me, was, now, c, n);
        who' := GainCredits(store, hash, ready, v4, v6, start, was, now, ws, k, who, straight, c, n);
      }
  }

  lemma GainCredits(store: IPStore, hash: (Family, nat) -> nat, ready: Family -> bool, v4: int, v6: int,
                    start: Records, was: Records, now: Records, ws: seq<Worker>, k: nat, who: map<string, Slot>,
                    straight: bool, c: IPConfig, n: string) returns (who': map<string, Slot>)
    requires Credits(store, hash, ready, v4, v6, start, was, ws, who, straight) && k < |ws|
    requires Gained(store.codec, store.me, was, now, c, n) && c.version == ws[k].version
    requires AllPointed(store, hash, ws[k], was, now) && (forall m :: m in start ==> m in was)
    requires straight ==> ws[k].probe == None
    ensures Credits(store, hash, ready, v4, v6, start, now, ws[..k] + ws[k + 1..], who', straight)
  {
    assert n in now && n !in was;
    Straighten(store, hash, SlotOf(ws[k]), n, ws[k].probe == None, straight);
    who' := who[n := SlotOf(ws[k])];
    LeavesNone(store, hash, ready, v4, v6, start, was, ws, k, who, straight);
    LeavesOne(store, hash, ready, v4, v6, start, was, now, ws[..k] + ws[k + 1..], who, SlotOf(ws[k]), n, straight);
  }

  lemma Straighten(store: IPStore, hash: (Family, nat) -> nat, slot: Slot, n: string, b: bool, straight: bool)
    requires PointedAt(store, hash, slot, n, b) && (straight ==> b)
    ensures PointedAt(store, hash, slot, n, straight)
  {
    var k, m :| store.views(k, slot.version, m).Some? && |Flat(store.views(k, slot.version, m).value)| > 0 &&
                var free := store.views(k, slot.version, m).value;
                n == FirstName(store.codec, free, hash, slot) || (!b && n == SecondName(store.codec, free, hash, slot));
    PointedIs(store, hash, slot, n, straight, k, m);
  }

  lemma AgainCredits(store: IPStore, hash: (Family, nat) -> nat, ready: Family -> bool, v4: int, v6: int,
                     start: Records, now: Records, ws: seq<Worker>, k: nat, who: map<string, Slot>, straight: bool,
                     w: Worker)
    requires Credits(store, hash, ready, v4, v6, start, now, ws, who, straight) && k < |ws|
    requires SlotOf(w) == SlotOf(ws[k]) && Probing(store, hash, w)
    ensures Credits(store, hash, ready, v4, v6, start, now, ws[k := w], who, straight)
  {
    assert ws[k] in ws;
    forall u | u in ws[k := w] ensures u == w || u in ws {}
  }

  lemma LeavesNone(store: IPStore, hash: (Family, nat) -> nat, ready: Family -> bool, v4: int, v6: int,
                   start: Records, now: Records, ws: seq<Worker>, k: nat, who: map<string, Slot>, straight: bool)
    requires Credits(store, hash, ready, v4, v6, start, now, ws, who, straight) && k < |ws|
    ensures Credits(store, hash, ready, v4, v6, start, now, ws[..k] + ws[k + 1..], who, straight)
    ensures forall w :: w in ws[..k] + ws[k + 1..] ==> SlotOf(w) != SlotOf(ws[k])
    ensures forall n :: n in who ==> who[n] != SlotOf(ws[k])
    ensures Due(ready, v4, v6, SlotOf(ws[k]))
  {
    assert ws[k] in ws;
    Others(ws, k);
    OthersDiffer(ws, k);
  }

  lemma OthersDiffer(ws: seq<Worker>, k: nat)
    requires SlotsDiffer(ws) && k < |ws|
    ensures SlotsDiffer(ws[..k] + ws[k + 1..])
    ensures forall w :: w in ws[..k] + ws[k + 1..] ==> SlotOf(w) != SlotOf(ws[k])
  {
    var rest := ws[..k] + ws[k + 1..];
    forall i | 0 <= i < |rest| ensures rest[i] == if i < k then ws[i] else ws[i + 1] {}
    forall w | w in rest ensures SlotOf(w) != SlotOf(ws[k]) {
      var i :| 0 <= i < |rest| && rest[i] == w;
    }
  }

  lemma LeavesOne(store: IPStore, hash: (Family, nat) -> nat, ready: Family -> bool, v4: int, v6: int,
                  start: Records, was: Records, now: Records, ws: seq<Worker>, who: map<string, Slot>, slot: Slot,
                  n: string, straight: bool)
    requires Credits(store, hash, ready, v4, v6, start, was, ws, who, straight)
    requires (forall m :: m in who ==> who[m] != slot) && (forall w :: w in ws ==> SlotOf(w) != slot)
    requires n !in was && n !in start && now == Add(was, store.me, n, slot.version)
    requires Due(ready, v4, v6, slot) && PointedAt(store, hash, slot, n, straight)
    ensures Credits(store, hash, ready, v4, v6, start, now, ws, who[n := slot], straight)
  {
    var who' := who[n := slot];
    StillNew(who, start, was, now, n, slot);
    StillClear(who, ws, n, slot);
    forall m | m in who' ensures OneCredit(store, hash, ready, v4, v6, now, m, who'[m], straight) {
      if m != n { assert OneCredit(store, hash, ready, v4, v6, was, m, who[m], straight); }
    }
    StillApart(who, n, slot);
  }

  lemma StillNew(who: map<string, Slot>, start: Records, was: Records, now: Records, n: string, slot: Slot)
    requires NewOnes(who, start, was) && n !in was && n !in start && now.Keys == was.Keys + {n}
    ensures NewOnes(who[n := slot], start, now)
  {
    forall m ensures m in who[n := slot] <==> m in now && m !in start { assert m in now <==> m in was.Keys + {n}; }
  }

  lemma StillClear(who: map<string, Slot>, ws: seq<Worker>, n: string, slot: Slot)
    requires Clear(who, ws) && forall w :: w in ws ==> SlotOf(w) != slot
    ensures Clear(who[n := slot], ws)
  {}

  lemma StillApart(who: map<string, Slot>, n: string, slot: Slot)
    requires Apart(who) && forall m :: m in who ==> who[m] != slot
    ensures Apart(who[n := slot])
  {}

  ghost predicate Apart(who: map<string, Slot>) {
    forall l, m :: l in who && m in who && l != m ==> who[l] != who[m]
  }

  lemma CreditsFromFree(store: IPStore, hash: (Family, nat) -> nat, ready: Family -> bool, v4: int, v6: int,
                        start: Records, now: Records, straight: bool)
    requires Credited(store, hash, ready, v4, v6, start, now, straight)
    ensures FromFree(store, start, now)
  {
    var who :| Credits(store, hash, ready, v4, v6, start, now, [], who, straight);
    forall n | n in now && n !in start ensures now[n].version.Some? && Shown(store, now[n].version.value, n) {
      assert n in who;
      PointedShown(store, hash, who[n], n, straight);
    }
  }

  // ---------------------------------------------------------------- when nothing is in the way

  /** The records have grown by live ones of this pod. */
  ghost predicate Grown(store: IPStore, was: Records, now: Records) {
    && (forall n :: n in was ==> n in now && now[n] == was[n])
    && (forall n :: n in now && n !in was ==>
                      now[n] == Record(store.me, Some(IPv4), false) || now[n] == Record(store.me, Some(IPv6), false))
  }

  /** As long as the pod lacks addresses of a version, what the cache shows is free, none of it recorded
      yet. */
  ghost predicate Plenty(store: IPStore, recs: Records, v4: int, v6: int) {
    forall k, v, m :: Grown(store, recs, m) && AtMost(Mine(m, store.me), v4, v6) &&
                      |LiveOf(Mine(m, store.me), v)| < Want(v, v4, v6) ==>
                        Current(store, store.views(k, v, m), v, m)
  }

  ghost predicate Current(store: IPStore, view: Option<seq<Range>>, v: Family, m: Records) {
    view.Some? && |Flat(view.value)| > 0 && forall a :: a in Flat(view.value) ==> store.codec.ipName(v, a) !in m
  }

  /** No other writer, no failure, and free addresses up to a total of v4 and v6. */
  ghost predicate Unhindered(store: IPStore, v4: int, v6: int)
    reads store
  {
    store.reliable && Idle(store) && Plenty(store, store.recs, v4, v6)
  }

  /** Where an assignment stands that nothing is in the way of. */
  ghost predicate Smooth(store: IPStore, ready: Family -> bool, v4: int, v6: int, recs0: Records, recs: Records,
                         team: seq<Worker>)
  {
    && Grown(store, recs0, recs) && (forall w :: w in team ==> w.probe == None)
    && |LiveOf(Mine(recs, store.me), IPv4)| + CountOf(team, IPv4) <= v4
    && |LiveOf(Mine(recs, store.me), IPv6)| + CountOf(team, IPv6) <= v6
    && (IsReady(ready, IPv4) ==> |LiveOf(Mine(recs, store.me), IPv4)| + CountOf(team, IPv4) == v4)
    && (IsReady(ready, IPv6) ==> |LiveOf(Mine(recs, store.me), IPv6)| + CountOf(team, IPv6) == v6)
  }

  lemma {:induction false} Counts(ws: seq<Worker>, k: nat)
    requires k < |ws|
    ensures CountOf(ws, ws[k].version) > 0
  {
    if k > 0 { Counts(ws[1..], k - 1); }
  }

  /** A worker at its turn finds a free address. */
  lemma FindsFree(store: IPStore, ready: Family -> bool, v4: nat, v6: nat, recs0: Records, recs: Records,
                  team: seq<Worker>, i: nat, k: nat, hash: (Family, nat) -> nat)
    requires Plenty(store, recs0, v4, v6) && Smooth(store, ready, v4, v6, recs0, recs, team) && i < |team|
    requires (team[i].version == IPv4 || team[i].version == IPv6) && IsReady(ready, team[i].version)
    ensures var view := store.views(k, team[i].version, recs);
            && view.Some? && |Flat(view.value)| > 0 && team[i].probe == None
            && FirstName(store.codec, view.value, hash, SlotOf(team[i])) !in recs
  {
    Counts(team, i);
    var view := store.views(k, team[i].version, recs);
    assert Current(store, view, team[i].version, recs);
    var f := Flat(view.value);
    var a := f[Mod(HashOf(hash, SlotOf(team[i])), |f|)];
    assert a in f && store.codec.ipName(team[i].version, a) !in recs;
    assert team[i] in team;
  }

  lemma StaysSmooth(store: IPStore, ready: Family -> bool, v4: int, v6: int, recs0: Records, recs: Records,
                    team: seq<Worker>, i: nat, n: string)
    requires Smooth(store, ready, v4, v6, recs0, recs, team) && i < |team| && n !in recs
    requires team[i].version == IPv4 || team[i].version == IPv6
    ensures Smooth(store, ready, v4, v6, recs0, recs[n := Record(store.me, Some(team[i].version), false)],
                   team[..i] + team[i + 1..])
  {
    var now := recs[n := Record(store.me, Some(team[i].version), false)];
    assert Mine(now, store.me) == Add(Mine(recs, store.me), store.me, n, team[i].version);
    TurnKeepsCount(Mine(recs, store.me), store.me, n, team, i, IPv4);
    TurnKeepsCount(Mine(recs, store.me), store.me, n, team, i, IPv6);
    Others(team, i);
    GrownOne(store, recs0, recs, n, team[i].version);
  }

  lemma GrownOne(store: IPStore, recs0: Records, recs: Records, n: string, v: Family)
    requires Grown(store, recs0, recs) && n !in recs && (v == IPv4 || v == IPv6)
    ensures Grown(store, recs0, recs[n := Record(store.me, Some(v), false)])
  {}

  lemma TurnKeepsCount(m: Records, me: string, n: string, team: seq<Worker>, i: nat, v: Family)
    requires n !in m && i < |team|
    ensures |LiveOf(Add(m, me, n, team[i].version), v)| + CountOf(team[..i] + team[i + 1..], v) ==
            |LiveOf(m, v)| + CountOf(team, v)
  {
    AddLive(m, me, n, team[i].version);
    Removed(team, i);
  }

  /** Both versions are ready or not wanted. */
  predicate Servable(ready: Family -> bool, v4: int, v6: int) {
    (v4 == 0 || IsReady(ready, IPv4)) && (v6 == 0 || IsReady(ready, IPv6))
  }

  /** Each ready version has all its addresses. */
  ghost predicate Served(ready: Family -> bool, m: Records, v4: int, v6: int) {
    (IsReady(ready, IPv4) ==> |LiveOf(m, IPv4)| == v4) && (IsReady(ready, IPv6) ==> |LiveOf(m, IPv6)| == v6)
  }

  /** Assigns v4 and v6 more addresses with one worker each, in any interleaving. `ready` says
      for which versions a ready pool was found. One failure fails the call, and what other
      workers created stays. With nothing in the way every ready version is served, and only an
      unready one fails the call; otherwise a worker fails it only after six attempts. */
  method Assign(store: IPStore, v4: nat, v6: nat, ready: Family -> bool, hash: (Family, nat) -> nat,
                ips: seq<IPConfig>, ghost t4: nat, ghost t6: nat)
    returns (ok: bool, all: seq<IPConfig>)
    requires t4 == |LiveOf(store.Own(), IPv4)| + v4 && t6 == |LiveOf(store.Own(), IPv6)| + v6
    requires store.Sound() && (Tidy(store.codec, store.Own()) ==> Recorded(store.codec, store.Own(), ips))
    modifies store
    ensures store.Sound() && FromFree(store, old(store.Own()), store.Own())
    ensures Underway(store.codec, old(store.Own()), store.Own(), Goal(old(store.Own()), v4, v6), [], ok, all)
    ensures Assigned(store, hash, ready, old(store.Own()), store.Own(), v4, v6, old(Unhindered(store, t4, t6)), ok)
    ensures store.reliable && Servable(ready, v4, v6) && !ok ==> store.calls >= old(store.calls) + 6
  {
    ghost var start, goal := store.Own(), Goal(store.Own(), v4, v6);
    ghost var round := Round(start, store.recs, store.calls, v4, v6, t4, t6, Unhindered(store, t4, t6),
                             Servable(ready, v4, v6));
    var team := Assemble(ready, v4, v6);
    ok := Servable(ready, v4, v6);
    RoundStarts(store, hash, ready, round, team);
    UnderwayStarts(store.codec, start, ready, v4, v6, team, ok, ips);
    ghost var who;
    ok, all, who := RunTeam(store, goal, team, hash, ready, round, ok, ips);
    RoundEnds(store, hash, ready, round, store.Own(), store.recs, store.calls, who, ok);
  }

  /** The new records are those of workers for missing addresses. With nothing in the way every ready
      version is served, and the call succeeds exactly if all wanted ones are ready. */
  ghost predicate Assigned(store: IPStore, hash: (Family, nat) -> nat, ready: Family -> bool, was: Records,
                           now: Records, v4: int, v6: int, exact: bool, ok: bool)
  {
    && Credited(store, hash, ready, v4, v6, was, now, exact)
    && (exact ==> (ok <==> Servable(ready, v4, v6)) &&
                  Served(ready, now, |LiveOf(was, IPv4)| + v4, |LiveOf(was, IPv6)| + v6))
  }

  /** The workers of both versions. */
  method Assemble(ready: Family -> bool, v4: nat, v6: nat) returns (team: seq<Worker>)
    ensures SlotsDiffer(team)
    ensures forall v :: CountOf(team, v) == if IsReady(ready, v) then Want(v, v4, v6) else 0
    ensures forall w :: w in team ==> Due(ready, v4, v6, SlotOf(w)) && w.tries == 0 && w.probe == None &&
                                      (w.version == IPv4 || w.version == IPv6)
  {
    team := Team(IPv4, if IsReady(ready, IPv4) then v4 else 0, []);
    team := Team(IPv6, if IsReady(ready, IPv6) then v6 else 0, team);
  }

  lemma UnderwayStarts(codec: Codec, start: Records, ready: Family -> bool, v4: nat, v6: nat, team: seq<Worker>,
                       ok: bool, ips: seq<IPConfig>)
    requires forall v :: CountOf(team, v) == if IsReady(ready, v) then Want(v, v4, v6) else 0
    requires forall w :: w in team ==> Sane(codec, w)
    requires ok == Servable(ready, v4, v6) && (Tidy(codec, start) ==> Recorded(codec, start, ips))
    ensures Underway(codec, start, start, Goal(start, v4, v6), team, ok, ips)
  {}

  lemma RoundStarts(store: IPStore, hash: (Family, nat) -> nat, ready: Family -> bool, r: Round, team: seq<Worker>)
    requires SlotsDiffer(team)
    requires forall v :: CountOf(team, v) == if IsReady(ready, v) then Want(v, r.v4, r.v6) else 0
    requires forall w :: w in team ==> Due(ready, r.v4, r.v6, SlotOf(w)) && w.tries == 0 && w.probe == None
    requires r.servable == Servable(ready, r.v4, r.v6) && r.start == Mine(r.recs, store.me)
    requires r.t4 == |LiveOf(r.start, IPv4)| + r.v4 && r.t6 == |LiveOf(r.start, IPv6)| + r.v6
    requires r.exact ==> store.reliable && Idle(store) && Plenty(store, r.recs, r.t4, r.t6)
    ensures Midway(store, hash, ready, r, r.start, r.recs, r.calls, team, map[], r.servable)
  {}

  lemma RoundEnds(store: IPStore, hash: (Family, nat) -> nat, ready: Family -> bool, r: Round, now: Records,
                  recs: Records, calls: nat, who: map<string, Slot>, ok: bool)
    requires Midway(store, hash, ready, r, now, recs, calls, [], who, ok) && now == Mine(recs, store.me)
    requires r.t4 == |LiveOf(r.start, IPv4)| + r.v4 && r.t6 == |LiveOf(r.start, IPv6)| + r.v6
    requires r.servable == Servable(ready, r.v4, r.v6)
    ensures Assigned(store, hash, ready, r.start, now, r.v4, r.v6, r.exact, ok) && FromFree(store, r.start, now)
    ensures store.reliable && r.servable && !ok ==> calls >= r.calls + 6
  {
    CreditsFromFree(store, hash, ready, r.v4, r.v6, r.start, now, r.exact);
  }

  /** Lets the workers run until all are done. */
  method RunTeam(store: IPStore, ghost goal: Family -> int, ws: seq<Worker>, hash: (Family, nat) -> nat,
                 ghost ready: Family -> bool, ghost round: Round, good: bool, ips: seq<IPConfig>)
    returns (ok: bool, all: seq<IPConfig>, ghost who: map<string, Slot>)
    requires store.Sound() && Underway(store.codec, round.start, store.Own(), goal, ws, good, ips)
    requires Midway(store, hash, ready, round, store.Own(), store.recs, store.calls, ws, map[], good)
    modifies store
    ensures store.Sound() && Underway(store.codec, round.start, store.Own(), goal, [], ok, all)
    ensures Midway(store, hash, ready, round, store.Own(), store.recs, store.calls, [], who, ok)
  {
    var team := ws;
    ok, all, who := good, ips, map[];
    while team != []
      invariant store.Sound() && Underway(store.codec, round.start, store.Own(), goal, team, ok, all)
      invariant Midway(store, hash, ready, round, store.Own(), store.recs, store.calls, team, who, ok)
      decreases Remaining(team)
    {
      var k: int :| 0 <= k < |team|;
      team, ok, all, who := Advance(store, goal, team, k, hash, ready, round, who, ok, all);
    }
  }

  /** The free list that is shown is always what is left of a pool's ranges, however the records
      are. */
  ghost predicate Synced(store: IPStore, pool: Family -> seq<Range>) {
    forall k, v, m :: store.views(k, v, m).Some? &&
                      forall a :: In(store.views(k, v, m).value, a) <==>
                                  In(pool(v), a) && store.codec.ipName(v, a) !in m
  }

  /** A cache that is in sync shows plenty as long as each pool has more addresses than there are
      records in all and asked for. */
  lemma SyncedIsPlenty(store: IPStore, recs: Records, pool: Family -> seq<Range>, v4: nat, v6: nat)
    requires Synced(store, pool) && forall v :: Offer(store.codec, v, pool(v)) && |Flat(pool(v))| > |recs| + v4 + v6
    ensures Plenty(store, recs, v4, v6)
  {
    forall k, v, m | Grown(store, recs, m) && AtMost(Mine(m, store.me), v4, v6)
      ensures Current(store, store.views(k, v, m), v, m)
    {
      var view := store.views(k, v, m).value;
      FewRecords(store, recs, m, v4, v6);
      assert Offer(store.codec, v, pool(v)) && |Flat(pool(v))| > |recs| + v4 + v6;
      var a := Unrecorded(store.codec, v, pool(v), m);
      FlatInAll(view);
      assert In(view, a);
      assert a in Flat(view);
    }
  }

  lemma FewRecords(store: IPStore, recs: Records, m: Records, v4: nat, v6: nat)
    requires Grown(store, recs, m) && AtMost(Mine(m, store.me), v4, v6)
    ensures |m| <= |recs| + v4 + v6
  {
    var a, b := LiveOf(Mine(m, store.me), IPv4), LiveOf(Mine(m, store.me), IPv6);
    forall n | n in m.Keys ensures n in recs.Keys + a + b {
      if n !in recs { assert n in Mine(m, store.me); }
    }
    SubsetCard(m.Keys, recs.Keys + a + b);
    assert |recs.Keys + a + b| <= |recs.Keys| + |a| + |b|;
  }

  /** More addresses than records: one is not recorded. */
  lemma Unrecorded(codec: Codec, v: Family, free: seq<Range>, m: Records) returns (a: int)
    requires Offer(codec, v, free) && |Flat(free)| > |m|
    ensures In(free, a) && codec.ipName(v, a) !in m
  {
    FlatInAll(free);
    MergedIncreasing(free);
    var f := Flat(free);
    if forall i :: 0 <= i < |f| ==> codec.ipName(v, f[i]) in m {
      NamesCard(codec, v, f, m.Keys);
    }
    var i :| 0 <= i < |f| && codec.ipName(v, f[i]) !in m;
    a := f[i];
    assert a in f;
  }

  lemma {:induction false} NamesCard(codec: Codec, v: Family, f: seq<int>, keys: set<string>)
    requires Increasing(f) && forall a :: a in f ==> codec.ipParse(v, codec.ipName(v, a)) == Some(a)
    requires forall i :: 0 <= i < |f| ==> codec.ipName(v, f[i]) in keys
    ensures |f| <= |keys|
  {
    if f != [] {
      var n := codec.ipName(v, f[0]);
      assert f[0] in f;
      forall i | 0 <= i < |f[1..]| ensures codec.ipName(v, f[1..][i]) in keys - {n} {
        assert f[1..][i] == f[i + 1] && f[i + 1] in f && f[0] < f[i + 1];
      }
      NamesCard(codec, v, f[1..], keys - {n});
    }
  }

  /** What stays the same during an assignment. */
  datatype Round = Round(start: Records, recs: Records, calls: nat, v4: nat, v6: nat, t4: nat, t6: nat, exact: bool,
                         servable: bool)

  /** Where it stands apart from the counts. */
  ghost predicate Midway(store: IPStore, hash: (Family, nat) -> nat, ready: Family -> bool, r: Round, now: Records,
                         recs: Records, calls: nat, team: seq<Worker>, who: map<string, Slot>, ok: bool)
  {
    && Credits(store, hash, ready, r.v4, r.v6, r.start, now, team, who, r.exact)
    && (r.exact ==>
          && store.reliable && Idle(store) && Plenty(store, r.recs, r.t4, r.t6)
          && Smooth(store, ready, r.t4, r.t6, r.recs, recs, team) && ok == r.servable)
    && (forall w :: w in team ==> calls >= r.calls + Begun(w))
    && (store.reliable && r.servable && !ok ==> calls >= r.calls + 6)
  }

  /** Worker k makes its next call. */
  method Advance(store: IPStore, ghost goal: Family -> int, ws: seq<Worker>, k: nat, hash: (Family, nat) -> nat,
                 ghost ready: Family -> bool, ghost round: Round, ghost who: map<string, Slot>, good: bool,
                 ips: seq<IPConfig>)
    returns (team: seq<Worker>, ok: bool, all: seq<IPConfig>, ghost who': map<string, Slot>)
    requires store.Sound() && k < |ws| && Underway(store.codec, round.start, store.Own(), goal, ws, good, ips)
    requires Midway(store, hash, ready, round, store.Own(), store.recs, store.calls, ws, who, good)
    modifies store
    ensures store.Sound() && Underway(store.codec, round.start, store.Own(), goal, team, ok, all)
    ensures Midway(store, hash, ready, round, store.Own(), store.recs, store.calls, team, who', ok)
    ensures Remaining(team) < Remaining(ws)
  {
    ghost var was, recs, calls := store.Own(), store.recs, store.calls;
    assert ws[k] in ws;
    if round.exact { FindsFree(store, ready, round.t4, round.t6, round.recs, recs, ws, k, calls, hash); }
    var out, free := Attempt(store, ws[k], hash);
    Others(ws, k);
    StepUnderway(store.codec, store.me, round.start, was, store.Own(), goal, ws, k, good, ips, out);
    who' := StepCredits(store, hash, ready, round.v4, round.v6, round.start, was, store.Own(), ws, k, who, round.exact,
                        out);
    if round.exact {
      StaysSmooth(store, ready, round.t4, round.t6, round.recs, recs, ws, k,
                  FirstName(store.codec, free.value, hash, SlotOf(ws[k])));
    }
    ok, all := good && !out.Lost?, if out.Got? then ips + [out.config] else ips;
    team := if out.Again? then ws[k := out.worker] else ws[..k] + ws[k + 1..];
  }

  // ---------------------------------------------------------------- earlier addresses

  datatype Problem = Unavailable | Unlabelled | Malformed | TooMany | Unassigned

  datatype Assignment = Assignment(v4: nat, v6: nat, ips: seq<IPConfig>)

  /** The members of `seen` of version v. */
  function Found(m: Records, seen: set<string>, v: Family): set<string> {
    set n | n in seen && n in LiveOf(m, v)
  }

  ghost predicate Counted(m: Records, seen: set<string>, v4: int, v6: int, left4: int, left6: int) {
    && left4 + |Found(m, seen, IPv4)| == v4 && left6 + |Found(m, seen, IPv6)| == v6
    && forall n :: n in seen ==> n in Live(m) && (m[n].version == Some(IPv4) || m[n].version == Some(IPv6))
  }

  /** The list names the address of each record seen. */
  ghost predicate Collected(codec: Codec, m: Records, seen: set<string>, ips: seq<IPConfig>) {
    && |ips| == |seen|
    && (forall n :: n in seen ==> n in m && ConfigOf(codec, m, n) in ips)
    && (forall n :: n in seen ==> m[n].version.Some? && codec.ipParse(m[n].version.value, n).Some?)
    && (forall c :: c in ips ==> exists n :: n in seen && n in m && c == ConfigOf(codec, m, n))
    && (Tidy(codec, m) ==> Distinct(ips))
  }

  lemma CountOne(m: Records, seen: set<string>, v4: int, v6: int, left4: int, left6: int, name: string, v: Family)
    requires Counted(m, seen, v4, v6, left4, left6) && name !in seen
    requires name in LiveOf(m, v) && (v == IPv4 || v == IPv6)
    ensures Counted(m, seen + {name}, v4, v6, if v == IPv4 then left4 - 1 else left4,
                    if v == IPv4 then left6 else left6 - 1)
  {
    assert Found(m, seen + {name}, v) == Found(m, seen, v) + {name};
    var u := if v == IPv4 then IPv6 else IPv4;
    assert Found(m, seen + {name}, u) == Found(m, seen, u);
  }

  lemma CollectOne(codec: Codec, m: Records, seen: set<string>, ips: seq<IPConfig>, name: string, v: Family, a: int)
    requires Collected(codec, m, seen, ips) && seen <= Live(m) && name !in seen
    requires name in LiveOf(m, v) && codec.ipParse(v, name) == Some(a)
    ensures Collected(codec, m, seen + {name}, ips + [IPConfig(v, a)])
  {
    var c := IPConfig(v, a);
    assert ConfigOf(codec, m, name) == c;
    if Tidy(codec, m) {
      assert Canonical(codec, v, name);
      forall n | n in seen ensures ConfigOf(codec, m, n) != c {
        assert Canonical(codec, m[n].version.value, n);
      }
      assert c !in ips;
    }
    forall d | d in ips + [c] ensures exists n :: n in seen + {name} && n in m && d == ConfigOf(codec, m, n) {
      if d in ips {
        var n :| n in seen && n in m && d == ConfigOf(codec, m, n);
        assert n in seen + {name};
      } else {
        assert name in seen + {name};
      }
    }
  }

  /** What retrieving makes of the pod's records: the missing counts and all recorded
      addresses, or the reason why not. */
  ghost predicate Retrieved(codec: Codec, m: Records, v4: int, v6: int, r: Result<Assignment, Problem>) {
    match r
    case Ok(x) =>
      && x.v4 == v4 - |LiveOf(m, IPv4)| && x.v6 == v6 - |LiveOf(m, IPv6)|
      && (forall n :: n in Live(m) ==> m[n].version == Some(IPv4) || m[n].version == Some(IPv6))
      && Readable(codec, m)
      && (Tidy(codec, m) ==> Recorded(codec, m, x.ips))
    case Err(e) =>
      match e
      case TooMany => |LiveOf(m, IPv4)| > v4 || |LiveOf(m, IPv6)| > v6
      case _ => e == Unavailable || Unreadable(codec, m, e)
  }

  /** Some live record has no label, or a name that does not parse under it. */
  ghost predicate Unreadable(codec: Codec, m: Records, e: Problem) {
    || (e == Unlabelled && exists n :: n in Live(m) && m[n].version == None)
    || (e == Malformed &&
        exists n :: n in Live(m) && m[n].version.Some? && codec.ipParse(m[n].version.value, n) == None)
  }

  /** The addresses the pod already has and how many of each version are missing. */
  method RetrieveExistingIPs(store: IPStore, v4: int, v6: int) returns (r: Result<Assignment, Problem>)
    requires store.Sound()
    modifies store
    ensures store.Sound() && store.Own() == old(store.Own())
    ensures Retrieved(store.codec, old(store.Own()), v4, v6, r)
    ensures store.reliable ==> r != Err(Unavailable)
    ensures Idle(store) ==> store.recs == old(store.recs)
  {
    var ok, names, m := store.ListOwn();
    if !ok {
      return Err(Unavailable);
    }
    r := Tally(store.codec, m, names, v4, v6);
  }

  /** Where the walk over the listed records stands. */
  ghost predicate Tallied(codec: Codec, m: Records, names: seq<string>, v4: int, v6: int, left4: int, left6: int,
                          ips: seq<IPConfig>)
  {
    Counted(m, Seen(m, names), v4, v6, left4, left6) && Collected(codec, m, Seen(m, names), ips)
  }

  /** The live ones among the listed records. */
  function Seen(m: Records, names: seq<string>): set<string> {
    set n | n in names && n in Live(m)
  }

  lemma TallyNone(codec: Codec, m: Records, names: seq<string>, v4: int, v6: int, left4: int, left6: int,
                  ips: seq<IPConfig>, n: string)
    requires Tallied(codec, m, names, v4, v6, left4, left6, ips) && n !in Live(m)
    ensures Tallied(codec, m, names + [n], v4, v6, left4, left6, ips)
  {
    assert Seen(m, names + [n]) == Seen(m, names);
  }

  lemma TallyOne(codec: Codec, m: Records, names: seq<string>, v4: int, v6: int, left4: int, left6: int,
                 ips: seq<IPConfig>, n: string, c: IPConfig)
    requires Tallied(codec, m, names, v4, v6, left4, left6, ips) && n !in names
    requires n in LiveOf(m, c.version) && codec.ipParse(c.version, n) == Some(c.address) && c.version != Unknown
    ensures Tallied(codec, m, names + [n], v4, v6, if c.version == IPv4 then left4 - 1 else left4,
                    if c.version == IPv4 then left6 else left6 - 1, ips + [c])
  {
    assert Seen(m, names + [n]) == Seen(m, names) + {n};
    CountOne(m, Seen(m, names), v4, v6, left4, left6, n, c.version);
    CollectOne(codec, m, Seen(m, names), ips, n, c.version, c.address);
  }

  lemma TallyDone(codec: Codec, m: Records, names: seq<string>, v4: int, v6: int, left4: int, left6: int,
                  ips: seq<IPConfig>)
    requires Tallied(codec, m, names, v4, v6, left4, left6, ips) && SetOf(names) == m.Keys
    ensures left4 >= 0 && left6 >= 0 ==> Retrieved(codec, m, v4, v6, Ok(Assignment(left4, left6, ips)))
    ensures left4 < 0 || left6 < 0 ==> Retrieved(codec, m, v4, v6, Err(TooMany))
  {
    forall n | n in Live(m) ensures n in Seen(m, names) { assert n in SetOf(names); }
    assert Seen(m, names) == Live(m);
    assert Found(m, Live(m), IPv4) == LiveOf(m, IPv4) && Found(m, Live(m), IPv6) == LiveOf(m, IPv6);
  }

  lemma NextName(names: seq<string>, i: nat, m: Records)
    requires i < |names| && Distinct(names) && SetOf(names) == m.Keys
    ensures names[i] in m && names[i] !in names[..i] && names[..i + 1] == names[..i] + [names[i]]
  {
    assert names[i] in SetOf(names);
  }

  /** Goes through the listed records. */
  method Tally(codec: Codec, m: Records, names: seq<string>, v4: int, v6: int) returns (r: Result<Assignment, Problem>)
    requires Distinct(names) && SetOf(names) == m.Keys && forall n :: codec.ipParse(Unknown, n) == None
    ensures Retrieved(codec, m, v4, v6, r) && r != Err(Unavailable)
  {
    var left4, left6 := v4, v6;
    var ips := [];
    for i := 0 to |names|
      invariant Tallied(codec, m, names[..i], v4, v6, left4, left6, ips)
    {
      var n := names[i];
      NextName(names, i, m);
      if m[n].terminating {
        TallyNone(codec, m, names[..i], v4, v6, left4, left6, ips, n);
        continue;
      }
      var one := ReadRecord(codec, m, n);
      if one.Err? {
        return Err(one.error);
      }
      TallyOne(codec, m, names[..i], v4, v6, left4, left6, ips, n, one.value);
      if one.value.version == IPv4 {
        left4 := left4 - 1;
      } else {
        left6 := left6 - 1;
      }
      ips := ips + [one.value];
    }
    assert names[..|names|] == names;
    TallyDone(codec, m, names, v4, v6, left4, left6, ips);
    if left4 < 0 || left6 < 0 {
      return Err(TooMany);
    }
    r := Ok(Assignment(left4, left6, ips));
  }

  /** The address of one live record, from its label and its name. */
  method ReadRecord(codec: Codec, m: Records, n: string) returns (r: Result<IPConfig, Problem>)
    requires n in Live(m) && forall k :: codec.ipParse(Unknown, k) == None
    ensures match r
            case Ok(c) =>
              n in LiveOf(m, c.version) && codec.ipParse(c.version, n) == Some(c.address) && c.version != Unknown
            case Err(e) => e != Unavailable && Unreadable(codec, m, e)
  {
    if m[n].version == None {
      return Err(Unlabelled);
    }
    var v := m[n].version.value;
    var a := codec.ipParse(v, n);
    if a == None {
      return Err(Malformed);
    }
    r := Ok(IPConfig(v, a.value));
  }

  // ---------------------------------------------------------------- get

  /** The pod has exactly what it asks for. */
  ghost predicate Satisfied(m: Records, v4: int, v6: int) {
    |LiveOf(m, IPv4)| == v4 && |LiveOf(m, IPv6)| == v6
  }

  /** Every live record has a label and a name that parses under it. */
  ghost predicate Readable(codec: Codec, m: Records) {
    forall n :: n in Live(m) ==> m[n].version.Some? && codec.ipParse(m[n].version.value, n).Some?
  }

  /** One call, however it ends: no record is lost and no version exceeds its request; a pod
      that has everything gets nothing new; success means exactly what was asked for, with all
      recorded addresses listed. */
  ghost predicate GetStep(codec: Codec, was: Records, now: Records, v4: int, v6: int,
                          r: Result<seq<IPConfig>, Problem>)
  {
    && (forall n :: n in was ==> n in now && now[n] == was[n])
    && |LiveOf(now, IPv4)| <= Max(v4, |LiveOf(was, IPv4)|)
    && |LiveOf(now, IPv6)| <= Max(v6, |LiveOf(was, IPv6)|)
    && (Satisfied(was, v4, v6) ==> now == was)
    && (r.Ok? ==> Satisfied(now, v4, v6))
    && (r.Ok? && Tidy(codec, was) ==> Tidy(codec, now) && Recorded(codec, now, r.value))
  }

  /** The pod asks for as many addresses as it has, or more, and they are all readable. */
  ghost predicate Fillable(codec: Codec, m: Records, v4: int, v6: int) {
    |LiveOf(m, IPv4)| <= v4 && |LiveOf(m, IPv6)| <= v6 && Readable(codec, m)
  }

  /** A call for a dead pod, or one that asks for less than it has or has unreadable records, is refused
      and changes nothing. With nothing in the way any other is granted exactly if a ready pool was
      found for each version that is short, and each ready version is served in any case. */
  ghost predicate Granted(store: IPStore, hash: (Family, nat) -> nat, ready: Family -> bool, was: Records,
                          now: Records, v4: int, v6: int, alive: bool, exact: bool, r: Result<seq<IPConfig>, Problem>)
  {
    var m4, m6 := v4 - |LiveOf(was, IPv4)|, v6 - |LiveOf(was, IPv6)|;
    if !alive || !Fillable(store.codec, was, v4, v6) then r.Err? && now == was
    else
      && Credited(store, hash, ready, m4, m6, was, now, exact)
      && (exact ==> (r.Ok? <==> Servable(ready, m4, m6)) && Served(ready, now, v4, v6))
  }

  /** The addresses of one pod: the recorded ones plus what is missing. */
  method Get(store: IPStore, alive: bool, v4: int, v6: int, ready: Family -> bool, hash: (Family, nat) -> nat)
    returns (r: Result<seq<IPConfig>, Problem>)
    requires store.Sound()
    modifies store
    ensures store.Sound() && FromFree(store, old(store.Own()), store.Own())
    ensures GetStep(store.codec, old(store.Own()), store.Own(), v4, v6, r)
    ensures alive && store.reliable && old(Satisfied(store.Own(), v4, v6) && Readable(store.codec, store.Own())) ==>
              r.Ok?
    ensures Granted(store, hash, ready, old(store.Own()), store.Own(), v4, v6, alive, old(Unhindered(store, v4, v6)), r)
  {
    if !alive {
      return Err(Unavailable);
    }
    ghost var was, exact := store.Own(), Unhindered(store, v4, v6);
    var found := RetrieveExistingIPs(store, v4, v6);
    Refused(store, hash, ready, was, v4, v6, exact, found);
    if found.Err? {
      return Err(found.error);
    }
    var x := found.value;
    if x.v4 == 0 && x.v6 == 0 {
      return Ok(x.ips);
    }
    var ok, all := Assign(store, x.v4, x.v6, ready, hash, x.ips, v4, v6);
    r := if ok then Ok(all) else Err(Unassigned);
    FilledStep(store.codec, was, store.Own(), x, v4, v6, r, ok, all);
    FilledGrants(store, hash, ready, was, store.Own(), x, v4, v6, exact, r, ok);
  }

  lemma FilledGrants(store: IPStore, hash: (Family, nat) -> nat, ready: Family -> bool, was: Records, now: Records,
                     x: Assignment, v4: int, v6: int, exact: bool, r: Result<seq<IPConfig>, Problem>, ok: bool)
    requires Retrieved(store.codec, was, v4, v6, Ok(x)) && Fillable(store.codec, was, v4, v6) && r.Ok? == ok
    requires Assigned(store, hash, ready, was, now, x.v4, x.v6, exact, ok)
    ensures Granted(store, hash, ready, was, now, v4, v6, true, exact, r)
  {}

  /** A call that assigns. */
  lemma FilledStep(codec: Codec, was: Records, now: Records, x: Assignment, v4: int, v6: int,
                   r: Result<seq<IPConfig>, Problem>, ok: bool, all: seq<IPConfig>)
    requires Retrieved(codec, was, v4, v6, Ok(x)) && (x.v4 > 0 || x.v6 > 0)
    requires Underway(codec, was, now, Goal(was, x.v4, x.v6), [], ok, all)
    requires r == if ok then Ok(all) else Err(Unassigned)
    ensures GetStep(codec, was, now, v4, v6, r)
  {}

  /** A call that ends before it assigns. */
  lemma Refused(store: IPStore, hash: (Family, nat) -> nat, ready: Family -> bool, m: Records, v4: int, v6: int,
                exact: bool, found: Result<Assignment, Problem>)
    requires Retrieved(store.codec, m, v4, v6, found)
    requires exact ==> found != Err(Unavailable)
    ensures found.Err? ==> Granted(store, hash, ready, m, m, v4, v6, true, exact, Err(found.error))
    ensures found.Ok? && found.value.v4 == 0 && found.value.v6 == 0 ==>
              Granted(store, hash, ready, m, m, v4, v6, true, exact, Ok(found.value.ips))
    ensures found.Ok? ==> Fillable(store.codec, m, v4, v6)
  {
    NothingCredited(store, hash, ready, m, v4 - |LiveOf(m, IPv4)|, v6 - |LiveOf(m, IPv6)|);
  }

  lemma NothingCredited(store: IPStore, hash: (Family, nat) -> nat, ready: Family -> bool, m: Records, v4: int,
                        v6: int)
    ensures forall straight :: Credited(store, hash, ready, v4, v6, m, m, straight)
  {
    var who: map<string, Slot> := map[];
    forall straight ensures Credited(store, hash, ready, v4, v6, m, m, straight) {
      assert Credits(store, hash, ready, v4, v6, m, m, [], who, straight);
    }
  }

  function Max(a: int, b: int): int {
    if a > b then a else b
  }

  /** Any number of calls for one pod and nothing in between; `ms` holds its records before,
      between and after them. */
  ghost predicate Calls(codec: Codec, ms: seq<Records>, rs: seq<Result<seq<IPConfig>, Problem>>, v4: int, v6: int) {
    |ms| == |rs| + 1 && forall i :: 0 <= i < |rs| ==> GetStep(codec, ms[i], ms[i + 1], v4, v6, rs[i])
  }

  /** Calls with pauses: call i takes the records from was[i] to now[i], and in the pauses records
      may be deleted or begin to terminate. */
  ghost predicate PausedCalls(codec: Codec, was: seq<Records>, now: seq<Records>,
                              rs: seq<Result<seq<IPConfig>, Problem>>, v4: int, v6: int)
  {
    && |was| == |now| == |rs|
    && (forall i :: 0 <= i < |rs| ==> GetStep(codec, was[i], now[i], v4, v6, rs[i]))
    && (forall i :: 0 < i < |rs| ==> Dwindles(now[i - 1], was[i]))
  }

  /** No record has come to life or changed its version. */
  ghost predicate Dwindles(was: Records, now: Records) {
    forall n :: n in Live(now) ==> n in Live(was) && now[n].version == was[n].version
  }

  lemma DwindlesCount(was: Records, now: Records, v: Family)
    requires Dwindles(was, now)
    ensures |LiveOf(now, v)| <= |LiveOf(was, v)|
  {
    SubsetCard(LiveOf(now, v), LiveOf(was, v));
  }

  ghost predicate AtMost(m: Records, v4: int, v6: int) {
    |LiveOf(m, IPv4)| <= v4 && |LiveOf(m, IPv6)| <= v6
  }

  /** However many calls fail, partly fail or succeed, and whatever vanishes in between, the pod
      never has more than it asks for. */
  lemma {:induction false} NeverTooMany(codec: Codec, was: seq<Records>, now: seq<Records>,
                                        rs: seq<Result<seq<IPConfig>, Problem>>, v4: int, v6: int, i: nat)
    requires PausedCalls(codec, was, now, rs, v4, v6) && i < |rs| && AtMost(was[0], v4, v6)
    ensures AtMost(was[i], v4, v6) && AtMost(now[i], v4, v6)
  {
    if i > 0 {
      NeverTooMany(codec, was, now, rs, v4, v6, i - 1);
      DwindlesCount(now[i - 1], was[i], IPv4);
      DwindlesCount(now[i - 1], was[i], IPv6);
    }
    assert GetStep(codec, was[i], now[i], v4, v6, rs[i]);
  }

  /** After a success nothing more is created, and every later success gives the same set. */
  lemma {:induction false} SuccessIsFinal(codec: Codec, ms: seq<Records>, rs: seq<Result<seq<IPConfig>, Problem>>,
                                          v4: int, v6: int, i: nat, j: nat)
    requires Calls(codec, ms, rs, v4, v6) && i <= j < |rs| && rs[i].Ok? && Tidy(codec, ms[i])
    ensures ms[j + 1] == ms[i + 1]
    ensures rs[j].Ok? ==>
              SetOf(rs[j].value) == SetOf(rs[i].value) && |rs[j].value| == |rs[i].value| && Distinct(rs[j].value)
    decreases j
  {
    assert GetStep(codec, ms[i], ms[i + 1], v4, v6, rs[i]);
    if i < j {
      SuccessIsFinal(codec, ms, rs, v4, v6, i, j - 1);
      assert GetStep(codec, ms[j], ms[j + 1], v4, v6, rs[j]);
      if rs[j].Ok? { SameSet(codec, ms[i + 1], rs[i].value, rs[j].value); }
    }
  }

  lemma SameSet(codec: Codec, m: Records, a: seq<IPConfig>, b: seq<IPConfig>)
    requires Recorded(codec, m, a) && Recorded(codec, m, b)
    ensures SetOf(a) == SetOf(b)
  {
    forall c ensures c in a <==> c in b {
      if c in a { var n :| n in Live(m) && c == ConfigOf(codec, m, n); }
      if c in b { var n :| n in Live(m) && c == ConfigOf(codec, m, n); }
    }
  }
}
