/**
 * The world the session services act on: viewer pods behind an API whose calls may fail, with or
 * without taking effect, and a clock that never runs backwards.
 */
module World {
  import opened Results
  import opened Cache
  import PodPhases

  /** A pod with its viewer labels; hasFailure means a container reports a failure reason. */
  datatype Pod = Pod(
    namespace: string, name: string, isViewer: bool, pvcUID: string, sessionID: string, runtimeVersion: string,
    phase: PodPhases.Phase, ready: bool, hasFailure: bool, deleting: bool, createdAt: Time, keepaliveUntil: Option<Time>)

  predicate Live(p: Pod) { p.isViewer && !p.deleting && !PodPhases.Terminal(p.phase) }

  /** The pod serves this claim in this version of the runtime. */
  predicate Serves(p: Pod, namespace: string, pvcUID: string, version: string) {
    p.isViewer && p.namespace == namespace && p.pvcUID == pvcUID && p.runtimeVersion == version
  }

  predicate SameDuty(p: Pod, q: Pod) { Serves(q, p.namespace, p.pvcUID, p.runtimeVersion) }

  /** At most one live viewer pod per namespace, claim and runtime version. */
  ghost predicate AtMostOne(pods: seq<Pod>) {
    forall i, j :: 0 <= i < j < |pods| && Live(pods[i]) && Live(pods[j]) ==> !SameDuty(pods[i], pods[j])
  }

  /** A name is used once in a namespace. */
  ghost predicate UniqueNames(pods: seq<Pod>) {
    forall i, j :: 0 <= i < j < |pods| ==> !Named(pods[i], pods[j].namespace, pods[j].name)
  }

  /** What the API server and the services keep true of the pods. */
  ghost predicate Orderly(pods: seq<Pod>) { AtMostOne(pods) && UniqueNames(pods) }

  predicate Named(p: Pod, namespace: string, name: string) { p.namespace == namespace && p.name == name }

  predicate Exists(pods: seq<Pod>, namespace: string, name: string) {
    exists i :: 0 <= i < |pods| && Named(pods[i], namespace, name)
  }

  function Mark(p: Pod, namespace: string, name: string): Pod {
    if Named(p, namespace, name) then p.(deleting := true) else p
  }

  /** Deleting a pod marks it; it disappears later. */
  function Deleted(pods: seq<Pod>, namespace: string, name: string): (r: seq<Pod>)
    ensures |r| == |pods| && forall i :: 0 <= i < |pods| ==> r[i] == Mark(pods[i], namespace, name)
  {
    seq(|pods|, i requires 0 <= i < |pods| => Mark(pods[i], namespace, name))
  }

  /** Some of the pods are marked. */
  ghost function Marked(pods: seq<Pod>, chosen: set<Pod>): (r: seq<Pod>)
    ensures |r| == |pods|
    ensures forall i :: 0 <= i < |pods| ==> r[i] == if pods[i] in chosen then pods[i].(deleting := true) else pods[i]
  {
    seq(|pods|, i requires 0 <= i < |pods| => if pods[i] in chosen then pods[i].(deleting := true) else pods[i])
  }

  /** The pods only aged: some are marked for deletion, phases changed but never back from a terminal one. */
  ghost predicate Aged(before: seq<Pod>, after: seq<Pod>) {
    |after| == |before| && forall i :: 0 <= i < |before| ==> AgedPod(before[i], after[i])
  }

  /** The same pods are marked. */
  ghost predicate SameMarks(before: seq<Pod>, after: seq<Pod>) {
    |after| == |before| && forall i :: 0 <= i < |before| ==> after[i].deleting == before[i].deleting
  }

  predicate AgedPod(p: Pod, q: Pod) {
    && q.namespace == p.namespace && q.name == p.name && q.isViewer == p.isViewer && q.pvcUID == p.pvcUID
    && q.sessionID == p.sessionID && q.runtimeVersion == p.runtimeVersion && q.createdAt == p.createdAt
    && (p.deleting ==> q.deleting) && (PodPhases.Terminal(p.phase) ==> PodPhases.Terminal(q.phase))
  }

  lemma AgedStaysOrderly(before: seq<Pod>, after: seq<Pod>)
    requires Orderly(before) && Aged(before, after)
    ensures Orderly(after)
  {}

  lemma AgedExist(before: seq<Pod>, after: seq<Pod>, namespace: string, name: string)
    requires Aged(before, after)
    ensures Exists(before, namespace, name) == Exists(after, namespace, name)
  {
    if i :| 0 <= i < |before| && Named(before[i], namespace, name) { assert Named(after[i], namespace, name); }
    if i :| 0 <= i < |after| && Named(after[i], namespace, name) { assert Named(before[i], namespace, name); }
  }

  lemma AgedTwice(a: seq<Pod>, b: seq<Pod>, c: seq<Pod>)
    requires Aged(a, b) && Aged(b, c)
    ensures Aged(a, c)
  {}

  lemma DeletedIsAged(pods: seq<Pod>, namespace: string, name: string)
    ensures Aged(pods, Deleted(pods, namespace, name)) && Aged(pods, pods)
  {}

  lemma MarkedIsAged(pods: seq<Pod>, chosen: set<Pod>)
    ensures Aged(pods, Marked(pods, chosen)) && Marked(pods, {}) == pods
  {}

  // Deleting by name one of the pods there were marks that one only.
  lemma MarkOneMore(pods: seq<Pod>, marked: set<Pod>, p: Pod)
    requires UniqueNames(pods) && p in pods
    ensures Deleted(Marked(pods, marked), p.namespace, p.name) == Marked(pods, marked + {p})
  {
    var k :| 0 <= k < |pods| && pods[k] == p;
    var before, after := Marked(pods, marked), Marked(pods, marked + {p});
    var r := Deleted(before, p.namespace, p.name);
    forall i | 0 <= i < |pods| ensures r[i] == after[i] {
      assert r[i] == Mark(before[i], p.namespace, p.name);
      if i < k { assert !Named(pods[i], pods[k].namespace, pods[k].name); }
      if k < i { assert !Named(pods[k], pods[i].namespace, pods[i].name); }
    }
  }

  lemma GoneStaysOrderly(pods: seq<Pod>, i: nat)
    requires Orderly(pods) && i < |pods|
    ensures Orderly(pods[..i] + pods[i + 1..])
  {
    var t := pods[..i] + pods[i + 1..];
    assert forall j :: 0 <= j < |t| ==> t[j] == if j < i then pods[j] else pods[j + 1];
  }

  /** No live viewer pod serves the claim in this version. */
  ghost predicate Unserved(pods: seq<Pod>, namespace: string, pvcUID: string, version: string) {
    forall i :: 0 <= i < |pods| && Live(pods[i]) ==> !Serves(pods[i], namespace, pvcUID, version)
  }

  /** The live viewer pods that serve the claim in this version. */
  ghost function Serving(pods: seq<Pod>, namespace: string, pvcUID: string, version: string): set<Pod> {
    set p | p in pods && Live(p) && Serves(p, namespace, pvcUID, version)
  }

  /** Marking them marks the viewer pods of the claim and version that are neither deleted nor terminal, and no other pod. */
  lemma MarkedServing(pods: seq<Pod>, namespace: string, pvcUID: string, version: string)
    ensures var after := Marked(pods, Serving(pods, namespace, pvcUID, version));
      |after| == |pods| && forall i :: 0 <= i < |pods| ==> after[i] == pods[i].(deleting := pods[i].deleting
        || (pods[i].isViewer && pods[i].phase != PodPhases.Failed && pods[i].phase != PodPhases.Succeeded
            && pods[i].namespace == namespace && pods[i].pvcUID == pvcUID && pods[i].runtimeVersion == version))
  {
    assert forall i :: 0 <= i < |pods| ==> pods[i] in pods;
  }

  lemma UnservedMeans(pods: seq<Pod>, namespace: string, pvcUID: string, version: string)
    requires Unserved(pods, namespace, pvcUID, version)
    ensures Serving(pods, namespace, pvcUID, version) == {}
  {}

  // Deleting the one live pod that serves a claim leaves it unserved.
  lemma DeletingTheOne(pods: seq<Pod>, p: Pod, namespace: string, pvcUID: string, version: string)
    requires AtMostOne(pods) && p in pods && Live(p) && Serves(p, namespace, pvcUID, version)
    ensures Unserved(Deleted(pods, p.namespace, p.name), namespace, pvcUID, version)
  {
    var k :| 0 <= k < |pods| && pods[k] == p;
    var r := Deleted(pods, p.namespace, p.name);
    forall i | 0 <= i < |r| && Live(r[i]) ensures !Serves(r[i], namespace, pvcUID, version) {
      assert r[i] == Mark(pods[i], p.namespace, p.name);
      assert i != k;
      if i < k { assert !SameDuty(pods[i], pods[k]); } else { assert !SameDuty(pods[k], pods[i]); }
    }
  }

  // A new pod for an unserved claim is the only one.
  lemma CreatingTheOne(pods: seq<Pod>, p: Pod)
    requires Orderly(pods) && Unserved(pods, p.namespace, p.pvcUID, p.runtimeVersion) && !Exists(pods, p.namespace, p.name)
    ensures Orderly(pods + [p])
  {}

  // A live pod that serves a claim is the only one.
  lemma ServedByOne(pods: seq<Pod>, p: Pod, namespace: string, pvcUID: string, version: string)
    requires AtMostOne(pods) && p in pods && Live(p) && Serves(p, namespace, pvcUID, version)
    ensures Serving(pods, namespace, pvcUID, version) == {p}
  {
    hide AtMostOne, Live;
    forall q | q in Serving(pods, namespace, pvcUID, version) ensures q == p { TheOnlyOne(pods, p, q); }
  }

  // Two live pods for a claim are the same.
  lemma TheOnlyOne(pods: seq<Pod>, p: Pod, q: Pod)
    requires AtMostOne(pods) && p in pods && q in pods && Live(p) && Live(q) && SameDuty(p, q)
    ensures p == q
  {
    var i :| 0 <= i < |pods| && pods[i] == p;
    var j :| 0 <= j < |pods| && pods[j] == q;
  }

  // ----- the API and the clock -----

  /** How an API call goes: an error may come after the call took effect. */
  datatype Outcome = Works | Fails | FailsAfterEffect

  datatype ApiError = ApiError

  datatype Deletion = Done | Absent | Refused

  /** Which pods a list call asks for. */
  datatype Query = Query(namespace: string, pvcUID: Option<string>, sessionID: Option<string>, runtimeVersion: Option<string>)

  /** Component, namespace (none means all) and the labels given. */
  predicate Matches(p: Pod, q: Query) {
    && p.isViewer && (q.namespace == "" || p.namespace == q.namespace)
    && (q.pvcUID.None? || p.pvcUID == q.pvcUID.value) && (q.sessionID.None? || p.sessionID == q.sessionID.value)
    && (q.runtimeVersion.None? || p.runtimeVersion == q.runtimeVersion.value)
  }

  /** The API never fails. */
  ghost predicate AlwaysWorks(script: nat -> Outcome) { forall n :: script(n) == Works }

  class Api {
    var pods: seq<Pod>
    var time: Time
    var calls: nat
    const script: nat -> Outcome
    const ticks: nat -> nat

    constructor (start: Time, script: nat -> Outcome, ticks: nat -> nat)
      ensures pods == [] && time == start
    {
      pods := [];
      time := start;
      calls := 0;
      this.script := script;
      this.ticks := ticks;
    }

    method Now() returns (now: Time)
      modifies this`time, this`calls
      ensures old(time) <= now == time
    {
      time := time + ticks(calls);
      calls := calls + 1;
      now := time;
    }

    method ListViewerPods(query: Query) returns (result: Result<seq<Pod>, ApiError>)
      modifies this`calls
      ensures AlwaysWorks(script) ==> result.Success?
      ensures result.Success? ==> forall p :: p in result.value <==> p in pods && Matches(p, query)
    {
      calls := calls + 1;
      if script(calls - 1) != Works {
        return Failure(ApiError);
      }
      var found := [];
      for i := 0 to |pods|
        invariant forall p :: p in found <==> p in pods[..i] && Matches(p, query)
      {
        assert pods[..i + 1] == pods[..i] + [pods[i]];
        if Matches(pods[i], query) {
          found := found + [pods[i]];
        }
      }
      assert pods[..|pods|] == pods;
      return Success(found);
    }

    method GetPod(namespace: string, name: string) returns (result: Result<Pod, ApiError>)
      modifies this`calls
      ensures AlwaysWorks(script) ==> (result.Success? <==> Exists(pods, namespace, name))
      ensures result.Success? ==> result.value in pods && Named(result.value, namespace, name)
    {
      calls := calls + 1;
      if script(calls - 1) != Works {
        return Failure(ApiError);
      }
      for i := 0 to |pods|
        invariant forall j :: 0 <= j < i ==> !Named(pods[j], namespace, name)
      {
        if Named(pods[i], namespace, name) {
          return Success(pods[i]);
        }
      }
      return Failure(ApiError);
    }

    method CreatePod(pod: Pod) returns (result: Result<Pod, ApiError>)
      modifies this`pods, this`calls
      ensures pods == old(pods) || (pods == old(pods) + [pod] && !Exists(old(pods), pod.namespace, pod.name))
      ensures result.Success? ==> pods == old(pods) + [pod] && !Exists(old(pods), pod.namespace, pod.name) && result.value == pod
      ensures AlwaysWorks(script) ==> (result.Success? <==> !Exists(old(pods), pod.namespace, pod.name))
      ensures calls == old(calls) + 1
    {
      calls := calls + 1;
      if script(calls - 1) == Fails || Exists(pods, pod.namespace, pod.name) {
        return Failure(ApiError);
      }
      pods := pods + [pod];
      return if script(calls - 1) == Works then Success(pod) else Failure(ApiError);
    }

    method DeletePod(namespace: string, name: string) returns (result: Deletion)
      modifies this`pods, this`calls
      ensures pods == old(pods) || pods == Deleted(old(pods), namespace, name)
      ensures !result.Refused? ==> pods == Deleted(old(pods), namespace, name)
      ensures result.Absent? ==> !Exists(pods, namespace, name)
      ensures AlwaysWorks(script) ==> !result.Refused?
      ensures calls == old(calls) + 1 && (script(old(calls)) != Fails ==> pods == Deleted(old(pods), namespace, name))
    {
      calls := calls + 1;
      if script(calls - 1) == Fails {
        return Refused;
      }
      var missing := !Exists(pods, namespace, name);
      pods := Deleted(pods, namespace, name);
      if script(calls - 1) == FailsAfterEffect {
        return Refused;
      }
      return if missing then Absent else Done;
    }

    /** Creating a config map, a service or an ingress, or patching annotations other than the keepalive. */
    method Touch() returns (ok: bool)
      modifies this`calls
      ensures AlwaysWorks(script) ==> ok
      ensures calls == old(calls) + 1 && (ok <==> script(old(calls)) == Works)
    {
      calls := calls + 1;
      ok := script(calls - 1) == Works;
    }

    method PatchKeepalive(namespace: string, name: string, until: Time) returns (ok: bool)
      modifies this`pods, this`calls
      ensures Aged(old(pods), pods)
      ensures SameMarks(old(pods), pods)
      ensures ok ==> Exists(old(pods), namespace, name)
      ensures AlwaysWorks(script) && Exists(old(pods), namespace, name) ==> ok
    {
      calls := calls + 1;
      if script(calls - 1) == Fails || !Exists(pods, namespace, name) {
        return false;
      }
      pods := seq(|pods|, i requires 0 <= i < |pods| reads this =>
        if Named(pods[i], namespace, name) then pods[i].(keepaliveUntil := Some(until)) else pods[i]);
      ok := script(calls - 1) == Works;
    }

    // ----- what happens without the services -----

    /** The kubelet and the API server move pods along. */
    method Age(after: seq<Pod>)
      requires Aged(pods, after)
      modifies this`pods
      ensures pods == after
    {
      pods := after;
    }

    /** A deleted pod disappears. */
    method Vanish(i: nat)
      requires i < |pods|
      modifies this`pods
      ensures pods == old(pods)[..i] + old(pods)[i + 1..]
    {
      pods := pods[..i] + pods[i + 1..];
    }
  }
}
