/** Garbage collection of the addresses of StatefulSet pods that were scaled away. */
module StsGC {
  import opened Wrappers
  import opened SetSizes
  import opened Strings
  import opened Texts

  datatype StatefulSet = StatefulSet(replicas: Option<int>, start: Option<int>)

  datatype BadName = BadName(name: string)

  const MAX_ORDINAL: int := 0x7fff_ffff

  /** The ordinal in a pod's name: the digits behind the last dash, within 32 bits. */
  function GetSTSPodOrdinal(podName: string): Result<int, BadName> {
    var i := LastIndex(podName, '-');
    if i < 0 then Err(BadName(podName))
    else
      match ReadNumeral(podName[i + 1..], 10)
      case None => Err(BadName(podName))
      case Some(n) => if n > MAX_ORDINAL then Err(BadName(podName)) else Ok(n)
  }

  /** The highest ordinal that is to run. */
  function LastOrdinal(sts: StatefulSet): int {
    (if sts.replicas.Some? then sts.replicas.value - 1 else 0) + (if sts.start.Some? then sts.start.value else 0)
  }

  /** The name the StatefulSet controller gives pod n of the set `name`. */
  ghost predicate Ordinal(podName: string, name: string, n: nat) {
    podName == name + "-" + Numeral(n, 10)
  }

  /** A pod is to run if its ordinal lies before the start plus the replicas, of which there is one if
      their number is not set. */
  method IsRunningSTSPod(sts: StatefulSet, podName: string) returns (r: Result<bool, BadName>)
    ensures r == Verdict(sts, podName)
    ensures forall name, n: nat :: Ordinal(podName, name, n) ==>
              r == if n > 0x7fff_ffff then Err(BadName(podName))
                   else Ok(n < (if sts.start.Some? then sts.start.value else 0) +
                               (if sts.replicas.Some? then sts.replicas.value else 1))
  {
    forall name, n: nat | Ordinal(podName, name, n)
      ensures GetSTSPodOrdinal(podName) == if n <= MAX_ORDINAL then Ok(n) else Err(BadName(podName))
    {
      OrdinalInverts(name, n);
    }
    var ordinal := GetSTSPodOrdinal(podName);
    if ordinal.Err? {
      return Err(ordinal.error);
    }
    var end := 0;
    if sts.replicas.Some? {
      end := sts.replicas.value - 1;
    }
    if sts.start.Some? {
      end := sts.start.value + end;
    }
    r := Ok(ordinal.value <= end);
  }

  function Verdict(sts: StatefulSet, podName: string): Result<bool, BadName> {
    match GetSTSPodOrdinal(podName) case Err(e) => Err(e) case Ok(n) => Ok(n <= LastOrdinal(sts))
  }

  /** The pod's name says that it is beyond the last ordinal. */
  predicate Gone(sts: StatefulSet, podName: string) {
    Verdict(sts, podName) == Ok(false)
  }

  /** Ordinals are read back from the names the StatefulSet controller makes, whatever the
      set's own name; beyond 32 bits they are refused. */
  lemma OrdinalInverts(name: string, n: nat)
    ensures GetSTSPodOrdinal(name + "-" + Numeral(n, 10)) ==
            if n <= 0x7fff_ffff then Ok(n) else Err(BadName(name + "-" + Numeral(n, 10)))
  {
    var m := Numeral(n, 10);
    NumeralReads(n, 10);
    LastIndexAcross(name, m, '-');
    BehindDash(name, m);
  }

  ghost predicate Behind(podName: string, name: string, m: string) {
    podName == name + "-" + m
  }

  /** And from no other names than those that end in a dash and digits. */
  lemma OrdinalIff(podName: string, n: nat)
    ensures GetSTSPodOrdinal(podName) == Ok(n) <==>
            n <= 0x7fff_ffff && exists name, m :: Behind(podName, name, m) && ReadNumeral(m, 10) == Some(n)
  {
    var i := LastIndex(podName, '-');
    if GetSTSPodOrdinal(podName) == Ok(n) {
      assert Behind(podName, podName[..i], podName[i + 1..]);
    }
    forall name, m | Behind(podName, name, m) && ReadNumeral(m, 10) == Some(n)
      ensures GetSTSPodOrdinal(podName) == if n <= 0x7fff_ffff then Ok(n) else Err(BadName(podName))
    {
      NumeralPlain(m);
      LastIndexAcross(name, m, '-');
      BehindDash(name, m);
    }
  }

  lemma {:induction false} NumeralPlain(m: string)
    requires ReadNumeral(m, 10).Some?
    ensures '-' !in m
  {
    if |m| > 1 {
      NumeralPlain(m[..|m| - 1]);
      assert m == m[..|m| - 1] + [m[|m| - 1]];
    }
  }

  lemma BehindDash(name: string, m: string)
    ensures name + "-" + m == name + ['-'] + m && (name + "-" + m)[|name| + 1..] == m
  {}

  /** So the pods of a set that are collected are those past its replicas. */
  lemma GoneIff(sts: StatefulSet, name: string, n: nat)
    requires n <= 0x7fff_ffff
    ensures Gone(sts, name + "-" + Numeral(n, 10)) <==>
            match (sts.start, sts.replicas)
            case (Some(s), Some(r)) => n >= s + r
            case (Some(s), None) => n >= s + 1
            case (None, Some(r)) => n >= r
            case (None, None) => n >= 1
  {
    OrdinalInverts(name, n);
  }

  /** The set's IP objects: the pod label of each, by name. */
  class STSStore {
    /** Calls do not fail. */
    const reliable: bool
    var ips: map<string, string>
    /** The deletions asked for. */
    ghost var calls: multiset<string>

    constructor (reliable: bool, ips: map<string, string>)
      ensures this.reliable == reliable && this.ips == ips
    {
      this.reliable := reliable;
      this.ips := ips;
    }

    /** Deletes every IP labelled with the pod; a failing call may have deleted some. */
    method DeleteAllOf(podName: string) returns (ok: bool)
      modifies this
      ensures ok ==> ips == Without(old(ips), {podName})
      ensures !ok ==> Spares(old(ips), ips, {podName})
      ensures reliable ==> ok
      ensures calls == old(calls) + multiset{podName}
    {
      calls := calls + multiset{podName};
      var spared: set<string> := *;
      ok := *;
      ok := ok || reliable;
      ips := map n | n in ips && (ips[n] != podName || (!ok && n in spared)) :: ips[n];
    }
  }

  function Without(ips: map<string, string>, pods: set<string>): map<string, string> {
    map n | n in ips && ips[n] !in pods :: ips[n]
  }

  /** `now` is `was` less some of the addresses of `pods`. */
  ghost predicate Spares(was: map<string, string>, now: map<string, string>, pods: set<string>) {
    && (forall n :: n in now ==> n in was && now[n] == was[n])
    && (forall n :: n in was && was[n] !in pods ==> n in now)
  }

  /** The listed pods that are gone. */
  function GonePods(sts: StatefulSet, listed: seq<string>): set<string> {
    set p | p in listed && Gone(sts, p)
  }

  /** Walks the listed IPs by their pod labels, in any order and with repeats, and deletes the
      addresses of every pod that is gone, once per pod. */
  method Collect(store: STSStore, sts: StatefulSet, listed: seq<string>) returns (ok: bool)
    modifies store
    ensures ok ==> store.ips == Without(old(store.ips), GonePods(sts, listed))
    ensures ok ==> forall p :: p in listed ==> Verdict(sts, p).Ok?
    ensures store.reliable && (forall p :: p in listed ==> Verdict(sts, p).Ok?) ==> ok
    ensures Spares(old(store.ips), store.ips, GonePods(sts, listed))
    ensures forall p :: store.calls[p] <= old(store.calls[p]) + (if p in GonePods(sts, listed) then 1 else 0)
  {
    ghost var was, calls := store.ips, store.calls;
    var deleted: map<string, bool> := map[];
    for i := 0 to |listed|
      invariant Progress(sts, was, store.ips, listed[..i], deleted)
      invariant forall p :: store.calls[p] == calls[p] + (if p in deleted then 1 else 0)
    {
      var podName := listed[i];
      assert listed[..i + 1] == listed[..i] + [podName];
      assert forall p :: p in GonePods(sts, listed[..i]) ==> p in GonePods(sts, listed);
      if podName in deleted && deleted[podName] {
        Skipped(sts, was, store.ips, listed[..i], deleted, podName);
        continue;
      }
      var running := IsRunningSTSPod(sts, podName);
      if running.Err? {
        return false;
      }
      if running.value {
        Skipped(sts, was, store.ips, listed[..i], deleted, podName);
        continue;
      }
      var done := store.DeleteAllOf(podName);
      if !done {
        return false;
      }
      Removed(sts, was, store.ips, listed[..i], deleted, podName);
      deleted := deleted[podName := true];
    }
    assert listed[..|listed|] == listed;
    ok := true;
  }

  /** The listed IPs so far are dealt with, and the memo holds the pods deleted. */
  ghost predicate Progress(sts: StatefulSet, was: map<string, string>, now: map<string, string>, seen: seq<string>,
                           deleted: map<string, bool>)
  {
    && now == Without(was, GonePods(sts, seen))
    && (forall p :: p in seen ==> Verdict(sts, p).Ok?)
    && (forall p :: p in deleted ==> deleted[p] && p in GonePods(sts, seen))
  }

  lemma Skipped(sts: StatefulSet, was: map<string, string>, now: map<string, string>, seen: seq<string>,
                deleted: map<string, bool>, p: string)
    requires Progress(sts, was, now, seen, deleted)
    requires p in deleted || Verdict(sts, p) == Ok(true)
    ensures Progress(sts, was, now, seen + [p], deleted)
  {
    assert GonePods(sts, seen + [p]) == GonePods(sts, seen);
  }

  lemma Removed(sts: StatefulSet, was: map<string, string>, now: map<string, string>, seen: seq<string>,
                deleted: map<string, bool>, p: string)
    requires Progress(sts, was, Without(was, GonePods(sts, seen)), seen, deleted) && Gone(sts, p)
    requires now == Without(Without(was, GonePods(sts, seen)), {p})
    ensures Progress(sts, was, now, seen + [p], deleted[p := true])
  {
    assert GonePods(sts, seen + [p]) == GonePods(sts, seen) + {p};
  }

  /** With a complete list exactly the addresses of running pods remain. */
  lemma ExactlyRunningRemain(sts: StatefulSet, ips: map<string, string>, listed: seq<string>)
    requires forall p :: p in listed ==> Verdict(sts, p).Ok?
    requires SetOf(listed) == ips.Values
    ensures var left := Without(ips, GonePods(sts, listed));
            forall n :: n in left <==> n in ips && Verdict(sts, ips[n]) == Ok(true)
  {
    forall n | n in ips ensures ips[n] in listed { assert ips[n] in ips.Values; assert ips[n] in SetOf(listed); }
  }
}
