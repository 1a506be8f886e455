/** The service that owns viewer pods: ensure, sync, refresh, close and reconcile, over the store and the API. */
module PodLifecycle {
  import opened Results
  import opened Cache
  import opened StoreModel
  import opened StoreInvariants
  import opened LifecycleInvariants
  import opened PodPhases
  import opened World
  import opened Store

  datatype SessionConfig = SessionConfig(
    podKeepaliveGrace: int, viewerSessionTimeout: int, orphanGrace: int, recoveryGrace: int, authRequestTTL: int, tokenTTL: int,
    hookClientToken: string)

  datatype ServiceError = NotFound | Denied | NotReady | LoginFailed | Upstream

  datatype EnsureInput = EnsureInput(namespace: string, pvcName: string, pvcUID: string, mode: string, adminContext: bool)

  /** A session looked at again: only its status and the time of the look change. */
  predicate Resynced(before: PodSession, after: PodSession) {
    after == before.(status := after.status, updatedAt := after.updatedAt)
  }

  /** The status of a session after looking at its pod, phase by phase. */
  predicate SeenAs(session: PodSession, pod: Pod, status: PodStatus) {
    && Named(pod, session.namespace, session.podName)
    && match pod.phase
       case Running => status == if pod.ready then PodReady else if pod.hasFailure then PodFailed else session.status
       case Failed => status == PodFailed
       case Succeeded => status == PodTerminated
       case _ => status == PodCreating
  }


  /** The store while a session is being closed, and after its pod was deleted. */
  ghost function Closing(s: StoreState, terminating: PodSession, done: bool): StoreState {
    var marked := Step(s, StoreOp.PutPodSession(terminating));
    if done then Step(marked, StoreOp.DeletePodSession(terminating.id)) else marked
  }

  /** The store before and after sessions were looked at again: nothing else changed. */
  ghost predicate Resynchronized(s: StoreState, t: StoreState) {
    && t.viewers == s.viewers && t.auths == s.auths && t.tokens == s.tokens
    && Keys(t.pods.sessions) == Keys(s.pods.sessions)
    && forall x :: x in t.pods.sessions ==> ResyncedSlot(s.pods.sessions, x)
  }

  ghost predicate ResyncedSlot(sessions: Recency<string, PodSession>, x: Slot<string, PodSession>) {
    match Find(sessions, x.key)
    case None => false
    case Some(y) => Resynced(y.value, x.value) && y.expiresAt == x.expiresAt
  }

  /** The pod belongs to a stored session of this version. */
  ghost predicate Known(s: StoreState, p: Pod, version: string) {
    match Find(s.pods.sessions, p.sessionID)
    case None => false
    case Some(slot) => slot.value.runtimeVersion == version
  }

  /** The pods a reconciliation leaves alone. */
  ghost predicate Spared(s: StoreState, p: Pod, version: string, now: Time, orphanGrace: int) {
    || p.sessionID == "" || p.deleting
    || (!Terminal(p.phase) && (Known(s, p, version) || (p.runtimeVersion != version && now - p.createdAt <= orphanGrace)))
  }

  /** The pods a reconciliation of these asks to delete. */
  ghost function Unspared(pods: seq<Pod>, s: StoreState, query: Query, version: string, now: Time, orphanGrace: int): set<Pod> {
    set p | p in pods && Matches(p, query) && !Spared(s, p, version, now, orphanGrace)
  }

  ghost function Labelled(pods: seq<Pod>, query: Query): set<Pod> { set p | p in pods && Matches(p, query) }

  /** The session found for the claim can be used as it is. */
  predicate Reusable(p: PodSession, input: EnsureInput, version: string, now: Time) {
    p.runtimeVersion == version && p.adminContext == input.adminContext && p.status != PodTerminated && now < p.expiresAt
  }

  ghost predicate FindsReusable(s: StoreState, input: EnsureInput, version: string, now: Time) {
    match FoundByPVC(s.pods, PvcKey(input.namespace, input.pvcUID), now)
    case None => false
    case Some(p) => Reusable(p, input, version, now)
  }

  /** The session and the pod that are created for a claim. */
  function NewSession(input: EnsureInput, id: string, name: string, version: string, now: Time, grace: int): PodSession {
    PodSession(id, input.namespace, input.pvcName, input.pvcUID, input.mode, name, version,
      PodCreating, now, now, now + grace, input.adminContext)
  }

  function PodFor(p: PodSession): Pod {
    Pod(p.namespace, p.podName, true, p.pvcUID, p.id, p.runtimeVersion, Pending, false, false, false, p.updatedAt, Some(p.expiresAt))
  }

  class PodService {
    const store: Store
    const api: Api
    const cfg: SessionConfig
    const runtimeVersion: string

    constructor (store: Store, api: Api, cfg: SessionConfig, runtimeVersion: string)
      ensures this.store == store && this.api == api && this.cfg == cfg && this.runtimeVersion == runtimeVersion
      ensures store.Valid() && Consistent(store.State()) && Orderly(api.pods) ==> Inv()
    {
      this.store := store;
      this.api := api;
      this.cfg := cfg;
      this.runtimeVersion := runtimeVersion;
    }

    ghost function Repr(): set<object> { store.Repr() + {api} }

    /** What every call keeps: a consistent store, unique pod names, at most one live viewer pod per claim and version. */
    ghost predicate Inv()
      reads Repr()
    {
      store.Valid() && Consistent(store.State()) && Orderly(api.pods)
    }

    // ----- steps of the cluster itself -----

    /** Pods move along by themselves: phases change and deletions are marked. */
    method PodsAge(after: seq<Pod>)
      requires Inv() && Aged(api.pods, after)
      modifies api`pods
      ensures Inv() && api.pods == after
    {
      AgedStaysOrderly(api.pods, after);
      hide Consistent, StoreOk;
      api.Age(after);
    }

    /** A pod disappears. */
    method PodVanishes(i: nat)
      requires Inv() && i < |api.pods|
      modifies api`pods
      ensures Inv() && api.pods == old(api.pods)[..i] + old(api.pods)[i + 1..]
    {
      GoneStaysOrderly(api.pods, i);
      hide Consistent, StoreOk;
      api.Vanish(i);
    }

    // ----- steps of the service -----

    /** The first live viewer pod of the claim in this version; in a namespace it serves the claim there. */
    method FindExistingViewerPod(namespace: string, pvcUID: string) returns (result: Result<Option<Pod>, ApiError>)
      modifies api`calls
      ensures AlwaysWorks(api.script) ==> result.Success?
      ensures result.Success? && result.value.None? ==>
        !exists p :: p in api.pods && p.isViewer && !p.deleting && p.phase != Failed && p.phase != Succeeded
          && (namespace == "" || p.namespace == namespace) && p.pvcUID == pvcUID && p.runtimeVersion == runtimeVersion
      ensures result.Success? && result.value.None? ==>
        forall p :: p in api.pods && Live(p) ==> !Matches(p, Query(namespace, Some(pvcUID), None, Some(runtimeVersion)))
      ensures result.Success? && result.value.Some? ==>
        var p := result.value.value;
        && p in api.pods && Live(p) && p.pvcUID == pvcUID && p.runtimeVersion == runtimeVersion
        && p.isViewer && !p.deleting && p.phase != Failed && p.phase != Succeeded
        && (namespace == "" || p.namespace == namespace)
        && (namespace != "" ==> Serves(p, namespace, pvcUID, runtimeVersion))
    {
      var pods := api.ListViewerPods(Query(namespace, Some(pvcUID), None, Some(runtimeVersion)));
      if pods.Failure? {
        return Failure(pods.error);
      }
      for i := 0 to |pods.value|
        invariant forall j :: 0 <= j < i ==> !Live(pods.value[j])
      {
        if pods.value[i].deleting {
          continue;
        }
        if Terminal(pods.value[i].phase) {
          continue;
        }
        assert pods.value[i] in pods.value;
        return Success(Some(pods.value[i]));
      }
      assert forall p :: p in pods.value ==> !Live(p);
      return Success(None);
    }

    method DeletePodIfExists(namespace: string, name: string) returns (ok: bool)
      modifies api`pods, api`calls
      ensures Aged(old(api.pods), api.pods) && (Orderly(old(api.pods)) ==> Orderly(api.pods))
      ensures AlwaysWorks(api.script) ==> ok
      ensures ok ==> api.pods == Deleted(old(api.pods), namespace, name)
      ensures api.pods == old(api.pods) || api.pods == Deleted(old(api.pods), namespace, name)
      ensures api.calls == old(api.calls) + 1
      ensures api.script(old(api.calls)) != Fails ==> api.pods == Deleted(old(api.pods), namespace, name)
    {
      DeletedIsAged(api.pods, namespace, name);
      if Orderly(api.pods) { AgedStaysOrderly(api.pods, Deleted(api.pods, namespace, name)); }
      hide Orderly;
      var result := api.DeletePod(namespace, name);
      ok := !result.Refused?;
    }

    /**
     * Creates the pod and what belongs to it; on a later failure the pod is deleted again. It stays only when
     * creating it failed after taking effect, or the call that fails is followed by a delete that fails too.
     */
    method CreateViewerPod(pod: Pod) returns (ok: bool)
      requires Orderly(api.pods) && Unserved(api.pods, pod.namespace, pod.pvcUID, pod.runtimeVersion)
      modifies api`pods, api`calls
      ensures Orderly(api.pods)
      ensures ok ==> api.pods == old(api.pods) + [pod]
      ensures !ok ==> api.pods == old(api.pods) || api.pods == old(api.pods) + [pod] || api.pods == Deleted(old(api.pods) + [pod], pod.namespace, pod.name)
      ensures AlwaysWorks(api.script) ==> (ok <==> !Exists(old(api.pods), pod.namespace, pod.name))
      ensures !ok && api.pods == old(api.pods) + [pod] && !pod.deleting ==>
        || api.calls == old(api.calls) + 1
        || (api.calls > old(api.calls) + 1 && api.script(api.calls - 2) != Works && api.script(api.calls - 1) == Fails)
    {
      hide AtMostOne, UniqueNames, Unserved, Exists, Live, Aged;
      if !Exists(api.pods, pod.namespace, pod.name) { CreatingTheOne(api.pods, pod); }
      var created := api.CreatePod(pod);
      if created.Failure? {
        return false;
      }
      if !pod.deleting { TheNewOneIsMarked(old(api.pods), pod); }
      var configMap := api.Touch();
      if !configMap {
        var _ := DeletePodIfExists(pod.namespace, pod.name);
        return false;
      }
      var service := api.Touch();
      if !service {
        var _ := DeletePodIfExists(pod.namespace, pod.name);
        return false;
      }
      var ingress := api.Touch();
      if !ingress {
        var _ := DeletePodIfExists(pod.namespace, pod.name);
        return false;
      }
      return true;
    }

    /** Deletes the live pod that serves the claim, if there is one. */
    method DeleteOrphan(namespace: string, pvcUID: string) returns (ok: bool)
      requires Orderly(api.pods) && namespace != ""
      modifies api`pods, api`calls
      ensures Orderly(api.pods) && Aged(old(api.pods), api.pods) && (AlwaysWorks(api.script) ==> ok)
      ensures ok ==> Unserved(api.pods, namespace, pvcUID, runtimeVersion)
      ensures forall i :: 0 <= i < |api.pods| ==> api.pods[i] == old(api.pods)[i] || api.pods[i].deleting
      ensures api.pods == Marked(old(api.pods), Serving(old(api.pods), namespace, pvcUID, runtimeVersion))
        || (!ok && api.pods == old(api.pods))
    {
      hide AtMostOne, UniqueNames, Unserved, Serving, Marked, Deleted, Aged, Live, Serves, Matches, AlwaysWorks;
      DeletedIsAged(api.pods, "", "");
      var existing := FindExistingViewerPod(namespace, pvcUID);
      if existing.Failure? {
        return false;
      }
      if existing.value.None? {
        MarkingNone(api.pods, namespace, pvcUID, runtimeVersion);
        return true;
      }
      var orphan := existing.value.value;
      MarkingTheOne(api.pods, orphan, namespace, pvcUID, runtimeVersion);
      ok := DeletePodIfExists(orphan.namespace, orphan.name);
    }

    /** A new session for the claim on a new pod. */
    method CreatePodSession(input: EnsureInput, id: string, name: string, now: Time) returns (result: Result<PodSession, ServiceError>)
      requires Inv() && FreshPod(store.State(), id) && Unserved(api.pods, input.namespace, input.pvcUID, runtimeVersion)
      modifies Repr()
      ensures Inv() && api.time == old(api.time) && store.State() == old(store.State()).(pods := store.State().pods)
      ensures result.Success? ==>
        var p := NewSession(input, id, name, runtimeVersion, now, cfg.podKeepaliveGrace);
        && result.value == p && result.value == PodSession(id, input.namespace, input.pvcName, input.pvcUID, input.mode, name,
             runtimeVersion, PodCreating, now, now, now + cfg.podKeepaliveGrace, input.adminContext)
        && PodFor(p) == Pod(input.namespace, name, true, input.pvcUID, id, runtimeVersion,
             Pending, false, false, false, now, Some(now + cfg.podKeepaliveGrace))
        && KeyOf(p) == PvcKey(input.namespace, input.pvcUID)
        && api.pods == old(api.pods) + [PodFor(p)]
        && Serving(api.pods, input.namespace, input.pvcUID, runtimeVersion) == {PodFor(p)}
        && store.State() == Step(old(store.State()), StoreOp.PutPodSession(p))
        && Slot(p.id, p, p.expiresAt) in store.State().pods.sessions
      ensures result.Failure? ==>
        && store.State() == old(store.State())
        && forall p :: p in api.pods && !p.deleting ==> p in old(api.pods) || p.sessionID == id
      ensures AlwaysWorks(api.script) ==> (result.Success? <==> !Exists(old(api.pods), input.namespace, name))
    {
      hide StoreOk, Consistent, FreshPod, Orderly, Unserved, Serving, Deleted, Exists, PvcKey, KeyOf, Step, Store.State, Store.Wired,
        Live, Serves, Matches, AlwaysWorks;
      assert api !in store.Repr();
      var session := PodSession(id, input.namespace, input.pvcName, input.pvcUID, input.mode, name, runtimeVersion,
        PodCreating, now, now, now + cfg.podKeepaliveGrace, input.adminContext);
      var pod := Pod(input.namespace, name, true, input.pvcUID, id, runtimeVersion, Pending, false, false, false, now,
        Some(session.expiresAt));
      OnlyThatPodIsNew(api.pods, pod);
      var created := CreateViewerPod(pod);
      if !created {
        return Failure(Upstream);
      }
      PutFresh(store.State(), session);
      TheNewOneServes(api.pods, session, runtimeVersion);
      store.PutPodSession(session);
      return Success(session);
    }

    /**
     * A usable session for the claim: the stored one, and then nothing else happens; or a new one, on a
     * new pod that is the only live one to serve the claim, every other being marked for deletion.
     */
    method EnsurePodSession(input: EnsureInput, id: string, name: string)
      returns (result: Result<PodSession, ServiceError>, ghost at: Time)
      requires Inv() && FreshPod(store.State(), id) && input.namespace != ""
      modifies Repr()
      ensures Inv() && store.State() == old(store.State()).(pods := store.State().pods) && old(api.time) <= at <= api.time
      ensures result.Success? ==>
        var p := result.value;
        && Slot(p.id, p, p.expiresAt) in store.State().pods.sessions
        && KeyOf(p) == PvcKey(input.namespace, input.pvcUID)
        && p.runtimeVersion == runtimeVersion && p.adminContext == input.adminContext && p.status != PodTerminated
      ensures FindsReusable(old(store.State()), input, runtimeVersion, at) ==>
        && result == Success(FoundByPVC(old(store.State()).pods, PvcKey(input.namespace, input.pvcUID), at).value)
        && api.pods == old(api.pods)
      ensures result.Failure? || FindsReusable(old(store.State()), input, runtimeVersion, at) ==>
        store.State() == Step(old(store.State()), StoreOp.FindPodSessionByPVC(input.namespace, input.pvcUID, at))
      ensures !FindsReusable(old(store.State()), input, runtimeVersion, at) && result.Success? ==>
        var before := old(api.pods);
        && result.value == PodSession(id, input.namespace, input.pvcName, input.pvcUID, input.mode, name, runtimeVersion,
             PodCreating, at, at, at + cfg.podKeepaliveGrace, input.adminContext)
        && |api.pods| == |before| + 1
        && (forall i :: 0 <= i < |before| ==> api.pods[i] == before[i].(deleting := before[i].deleting
             || (before[i].isViewer && before[i].phase != Failed && before[i].phase != Succeeded
                 && before[i].namespace == input.namespace && before[i].pvcUID == input.pvcUID
                 && before[i].runtimeVersion == runtimeVersion)))
        && api.pods[|before|] == Pod(input.namespace, name, true, input.pvcUID, id, runtimeVersion,
             Pending, false, false, false, at, Some(at + cfg.podKeepaliveGrace))
        && api.pods == Marked(before, Serving(before, input.namespace, input.pvcUID, runtimeVersion)) + [PodFor(result.value)]
        && Serving(api.pods, input.namespace, input.pvcUID, runtimeVersion) == {PodFor(result.value)}
        && store.State() == Step(
          Step(old(store.State()), StoreOp.FindPodSessionByPVC(input.namespace, input.pvcUID, at)), StoreOp.PutPodSession(result.value))
      ensures result.Failure? ==> forall p :: p in api.pods && !p.deleting ==> p in old(api.pods) || p.sessionID == id
      ensures AlwaysWorks(api.script) ==>
        (result.Success? <==>
          FindsReusable(old(store.State()), input, runtimeVersion, at) || !Exists(old(api.pods), input.namespace, name))
    {
      hide StoreOk, Consistent, FreshPod, Orderly, Unserved, Serving, Marked, Deleted, Exists, Aged, PvcKey, KeyOf, Step,
        FoundByPVC, Store.State, Store.Wired, Live, Serves, Matches, AlwaysWorks, PodFor, NewSession;
      assert api !in store.Repr();
      var now := api.Now();
      at := now;
      ghost var s0, pods0 := store.State(), api.pods;
      ghost var find := StoreOp.FindPodSessionByPVC(input.namespace, input.pvcUID, now);
      ConsistentStep(s0, find);
      FreshStays(s0, find, id);
      FoundIsThatClaim(s0, input.namespace, input.pvcUID, now);
      var found := store.FindPodSessionByPVC(input.namespace, input.pvcUID, now);
      if found.Some? {
        var session := found.value;
        if session.runtimeVersion == runtimeVersion && session.adminContext == input.adminContext
          && session.status != PodTerminated && now < session.expiresAt
        {
          return Success(session), at;
        }
      }
      var cleared := DeleteOrphan(input.namespace, input.pvcUID);
      OldPodsOnly(pods0, api.pods, input.namespace, name);
      if !cleared {
        return Failure(Upstream), at;
      }
      MarkedServing(pods0, input.namespace, input.pvcUID, runtimeVersion);
      result := CreatePodSession(input, id, name, now);
    }

    method SyncPodStatus(session: PodSession) returns (result: Result<PodSession, ServiceError>)
      modifies api`calls, api`time
      ensures old(api.time) <= api.time
      ensures AlwaysWorks(api.script) ==> (result.Success? <==> Exists(api.pods, session.namespace, session.podName))
      ensures result.Success? ==>
        && result.value == session.(status := result.value.status, updatedAt := api.time) && Resynced(session, result.value)
        && exists pod :: pod in api.pods && SeenAs(session, pod, result.value.status)
             && pod.namespace == session.namespace && pod.name == session.podName
             && var status, same := result.value.status, pod.phase == Running && !pod.ready && !pod.hasFailure;
                && (status == PodReady <==> (pod.phase == Running && pod.ready) || (same && session.status == PodReady))
                && (status == PodFailed <==>
                    || pod.phase == Failed || (pod.phase == Running && !pod.ready && pod.hasFailure)
                    || (same && session.status == PodFailed))
                && (status == PodTerminated <==> pod.phase == Succeeded || (same && session.status == PodTerminated))
                && (status == PodCreating <==>
                    pod.phase == Pending || pod.phase == Unknown || (same && session.status == PodCreating))
    {
      var pod := api.GetPod(session.namespace, session.podName);
      if pod.Failure? {
        return Failure(Upstream);
      }
      var now := api.Now();
      var updated := session.(updatedAt := now);
      match pod.value.phase {
        case Running =>
          if pod.value.ready {
            updated := updated.(status := PodReady);
          } else if pod.value.hasFailure {
            updated := updated.(status := PodFailed);
          }
        case Failed => updated := updated.(status := PodFailed);
        case Succeeded => updated := updated.(status := PodTerminated);
        case _ => updated := updated.(status := PodCreating);
      }
      assert SeenAs(session, pod.value, updated.status);
      return Success(updated);
    }

    /** Deletes the pod of a session and then the session; when the pod cannot be deleted the session stays, marked terminating. */
    method ClosePodSession(id: string) returns (result: Result<PodSession, ServiceError>)
      requires Inv()
      modifies Repr()
      ensures Inv() && Aged(old(api.pods), api.pods) && old(api.time) <= api.time
      ensures var s := old(store.State());
        match Find(s.pods.sessions, id)
        case None => result == Failure(NotFound) && store.State() == s && api.pods == old(api.pods)
        case Some(slot) =>
          var p := slot.value.(status := PodTerminating, updatedAt := api.time);
          && store.State() == Closing(s, p, result.Success?)
          && (result.Success? ==>
              && store.State() == Step(Step(s, StoreOp.PutPodSession(p)), StoreOp.DeletePodSession(id))
              && result.value == p.(status := PodTerminated))
          && (result.Failure? ==> result.error == Upstream && store.State() == Step(s, StoreOp.PutPodSession(p)))
          && (result.Success? ==> api.pods == Deleted(old(api.pods), p.namespace, p.podName))
          && (api.pods == old(api.pods) || api.pods == Deleted(old(api.pods), p.namespace, p.podName))
          && (AlwaysWorks(api.script) ==> result.Success?)
    {
      hide StoreOk, Consistent, FreshPod, AtMostOne, UniqueNames, Aged, KeyOf, Step, Find, Store.State, Store.Wired, MayPutPod, AlwaysWorks;
      var now := api.Now();
      ghost var s := store.State();
      DeletedIsAged(api.pods, "", "");
      var stored := store.GetPodSessionIncludingExpired(id);
      if stored.None? {
        return Failure(NotFound);
      }
      PutAgain(s, id, PodTerminating, now);
      var session := stored.value.(status := PodTerminating, updatedAt := now);
      ConsistentStep(s, StoreOp.PutPodSession(session));
      store.PutPodSession(session);
      var ok := DeletePodIfExists(session.namespace, session.podName);
      if !ok {
        return Failure(Upstream);
      }
      ConsistentStep(store.State(), StoreOp.DeletePodSession(id));
      store.DeletePodSession(id);
      return Success(session.(status := PodTerminated, updatedAt := now));
    }

    /** Moves the expiry of a session past the present, unless the API refuses, as it does when the pod is gone. */
    method RefreshPodSessionKeepalive(session: PodSession) returns (result: Result<PodSession, ServiceError>)
      requires Inv() && MayPutPod(store.State(), session)
      modifies Repr()
      ensures Inv() && Aged(old(api.pods), api.pods) && SameMarks(old(api.pods), api.pods) && old(api.time) <= api.time
      ensures result.Failure? ==> store.State() == old(store.State())
      ensures result.Success? ==>
        && result.value == session.(lastActiveAt := api.time, expiresAt := api.time + cfg.podKeepaliveGrace)
        && store.State() == Step(old(store.State()), StoreOp.PutPodSession(result.value))
      ensures result.Success? ==> Exists(old(api.pods), session.namespace, session.podName)
      ensures AlwaysWorks(api.script) && Exists(old(api.pods), session.namespace, session.podName) ==> result.Success?
    {
      hide StoreOk, Consistent, FreshPod, Step, Store.State, Store.Wired, AlwaysWorks, Exists;
      var now := api.Now();
      var updated := session.(lastActiveAt := now, expiresAt := now + cfg.podKeepaliveGrace);
      ghost var pods := api.pods;
      var ok := api.PatchKeepalive(updated.namespace, updated.podName, updated.expiresAt);
      AgedStaysOrderly(pods, api.pods);
      hide AtMostOne, UniqueNames, Aged;
      if !ok {
        return Failure(Upstream);
      }
      ConsistentStep(store.State(), StoreOp.PutPodSession(updated));
      store.PutPodSession(updated);
      return Success(updated);
    }

    predicate ViewerPodStillValid(pod: Pod, now: Time) {
      if pod.keepaliveUntil.Some? then now < pod.keepaliveUntil.value else now - pod.createdAt <= cfg.recoveryGrace
    }

    /** One pod of the list: left alone, looked at again, or deleted. */
    method ReconcilePod(pod: Pod, now: Time) returns (ok: bool)
      requires Inv()
      modifies Repr()
      ensures Inv() && old(api.time) <= api.time && Resynchronized(old(store.State()), store.State())
      ensures var spared := Spared(old(store.State()), pod, runtimeVersion, now, cfg.orphanGrace);
        && (ok ==> api.pods == if spared then old(api.pods) else Deleted(old(api.pods), pod.namespace, pod.name))
        && (api.pods == old(api.pods) || (!spared && api.pods == Deleted(old(api.pods), pod.namespace, pod.name)))
      ensures AlwaysWorks(api.script) ==> ok
    {
      hide StoreOk, Consistent, AtMostOne, UniqueNames, Aged, Step, Store.State, Store.Wired, Resynchronized, Deleted, Resynced,
        MayPutPod, Keys, Terminal, SeenAs, AlwaysWorks, Exists;
      ghost var s := store.State();
      NothingResynced(s);
      if pod.sessionID == "" {
        return true;
      }
      if pod.deleting {
        return true;
      }
      var delete := Terminal(pod.phase);
      if !delete {
        var existing := store.GetPodSessionIncludingExpired(pod.sessionID);
        if existing.Some? && existing.value.runtimeVersion == runtimeVersion {
          var synced := SyncPodStatus(existing.value);
          if synced.Success? {
            SyncStep(s, pod.sessionID, synced.value);
            store.PutPodSession(synced.value);
          }
          return true;
        }
        if pod.runtimeVersion != runtimeVersion {
          if now - pod.createdAt <= cfg.orphanGrace {
            return true;
          }
          delete := true;
        } else if !ViewerPodStillValid(pod, now) {
          delete := true;
        } else {
          delete := true;
        }
      }
      ok := DeletePodIfExists(pod.namespace, pod.name);
    }

    /**
     * Deletes the viewer pods of a namespace (none means all) that no stored session of this version
     * accounts for, except young pods of other versions, and no other pod; looks again at the sessions.
     */
    method ReconcileViewerPods(namespace: string) returns (ok: bool, ghost at: Time, ghost marked: set<Pod>)
      requires Inv()
      modifies Repr()
      ensures Inv() && Resynchronized(old(store.State()), store.State()) && old(api.time) <= at <= api.time
      ensures var unspared := Unspared(
          old(api.pods), old(store.State()), Query(namespace, None, None, None), runtimeVersion, at, cfg.orphanGrace);
        && api.pods == Marked(old(api.pods), marked) && marked <= unspared && (ok ==> marked == unspared)
      ensures AlwaysWorks(api.script) ==> ok
    {
      hide StoreOk, Consistent, AtMostOne, UniqueNames, Aged, Step, Store.State, Store.Wired, Resynchronized, Spared, Marked, Deleted,
        Matches, AlwaysWorks, Unspared;
      at := api.time;
      marked := {};
      ghost var s0, pods0 := store.State(), api.pods;
      ghost var query := Query(namespace, None, None, None);
      NothingResynced(s0);
      MarkedIsAged(pods0, {});
      var pods := api.ListViewerPods(Query(namespace, None, None, None));
      if pods.Failure? {
        return false, at, marked;
      }
      var list := pods.value;
      var now := api.Now();
      at := now;
      UnsparedIn(pods0, list, s0, query, runtimeVersion, now, cfg.orphanGrace);
      for i := 0 to |list|
        invariant Inv() && Resynchronized(s0, store.State()) && now <= api.time
        invariant api.pods == Marked(pods0, marked) && marked == Unspared(list[..i], s0, query, runtimeVersion, now, cfg.orphanGrace)
      {
        ghost var s := store.State();
        UnsparedStep(pods0, list, i, s0, query, runtimeVersion, now, cfg.orphanGrace);
        SparedSame(s0, s, list[i], runtimeVersion, now, cfg.orphanGrace);
        MarkOneMore(pods0, marked, list[i]);
        var done := ReconcilePod(list[i], now);
        ResyncCompose(s0, s, store.State());
        if api.pods == Marked(pods0, marked + {list[i]}) && !Spared(s0, list[i], runtimeVersion, now, cfg.orphanGrace) {
          marked := marked + {list[i]};
        }
        if !done {
          return false, at, marked;
        }
      }
      assert list[..|list|] == list;
      return true, at, marked;
    }

    /** Marks every pod labelled with the session, and no other. */
    method DeleteViewerPodsBySessionID(namespace: string, id: string) returns (ok: bool, ghost marked: set<Pod>)
      requires Inv()
      modifies api`pods, api`calls
      ensures Inv()
      ensures var labelled := Labelled(old(api.pods), Query(namespace, None, Some(id), None));
        && api.pods == Marked(old(api.pods), marked) && marked <= labelled && (ok ==> marked == labelled)
      ensures ok ==> |api.pods| == |old(api.pods)| && forall i :: 0 <= i < |api.pods| ==>
        var p := old(api.pods)[i];
        api.pods[i] == p.(deleting := p.deleting
          || (p.isViewer && (namespace == "" || p.namespace == namespace) && p.sessionID == id))
      ensures AlwaysWorks(api.script) ==> ok
    {
      hide StoreOk, Consistent, AtMostOne, UniqueNames, Aged, Marked, Deleted, Matches, Store.State, Store.Wired, AlwaysWorks;
      ghost var pods0 := api.pods;
      assert api !in store.Repr();
      marked := {};
      MarkedIsAged(pods0, {});
      var pods := api.ListViewerPods(Query(namespace, None, Some(id), None));
      if pods.Failure? {
        return false, marked;
      }
      var list := pods.value;
      for i := 0 to |list|
        invariant Inv() && api.pods == Marked(pods0, marked) && marked == set p | p in list[..i]
      {
        assert list[i] in list && list[..i + 1] == list[..i] + [list[i]];
        MarkOneMore(pods0, marked, list[i]);
        var done := DeletePodIfExists(list[i].namespace, list[i].name);
        if api.pods == Marked(pods0, marked + {list[i]}) { marked := marked + {list[i]}; }
        if !done {
          return false, marked;
        }
      }
      assert list[..|list|] == list;
      MarkedLabelled(pods0, namespace, id);
      return true, marked;
    }
  }

  // ----- facts about the store calls -----

  lemma FoundIsThatClaim(s: StoreState, namespace: string, pvcUID: string, now: Time)
    requires Consistent(s)
    ensures match FoundByPVC(s.pods, PvcKey(namespace, pvcUID), now)
      case None => true
      case Some(p) =>
        && KeyOf(p) == PvcKey(namespace, pvcUID)
        && Slot(p.id, p, p.expiresAt) in Step(s, StoreOp.FindPodSessionByPVC(namespace, pvcUID, now)).pods.sessions
    ensures var t := Step(s, StoreOp.FindPodSessionByPVC(namespace, pvcUID, now)); t == s.(pods := t.pods)
  {
    var t, key := s.pods, PvcKey(namespace, pvcUID);
    hide PvcKey;
    match Lookup(t.byPVC, key, now)
    case None =>
    case Some(id) =>
      GetFacts(t.sessions, id, now);
      match Lookup(t.sessions, id, now)
      case None =>
      case Some(p) =>
        assert Find(t.byPVC, key).value in t.byPVC && Find(t.sessions, id).value in t.sessions;
  }

  lemma PutFresh(s: StoreState, p: PodSession)
    requires Consistent(s) && FreshPod(s, p.id)
    ensures Consistent(Step(s, StoreOp.PutPodSession(p)))
    ensures Slot(p.id, p, p.expiresAt) in Step(s, StoreOp.PutPodSession(p)).pods.sessions
    ensures var t := Step(s, StoreOp.PutPodSession(p)); t == s.(pods := t.pods)
  {
    PutPodFacts(s, p);
    ConsistentStep(s, StoreOp.PutPodSession(p));
  }

  // A stored session may be put again with another status.
  lemma PutAgain(s: StoreState, id: string, status: PodStatus, now: Time)
    requires Consistent(s) && Find(s.pods.sessions, id).Some?
    ensures Find(s.pods.sessions, id).value.value.id == id
    ensures MayPutPod(s, Find(s.pods.sessions, id).value.value.(status := status, updatedAt := now))
  {
    assert Find(s.pods.sessions, id).value in s.pods.sessions;
  }

  // ----- facts about the pods of a claim -----

  // Deleting the one live pod that serves the claim.
  lemma MarkingTheOne(pods: seq<Pod>, p: Pod, namespace: string, pvcUID: string, version: string)
    requires Orderly(pods) && p in pods && Live(p) && Serves(p, namespace, pvcUID, version)
    ensures var after := Deleted(pods, p.namespace, p.name);
      after == Marked(pods, Serving(pods, namespace, pvcUID, version)) && Unserved(after, namespace, pvcUID, version)
  {
    hide AtMostOne, Live, Serves, Serving;
    ServedByOne(pods, p, namespace, pvcUID, version);
    DeletingTheOne(pods, p, namespace, pvcUID, version);
    MarkedIsAged(pods, {});
    MarkOneMore(pods, {}, p);
  }

  lemma OldPodsOnly(before: seq<Pod>, after: seq<Pod>, namespace: string, name: string)
    requires Aged(before, after) && forall i :: 0 <= i < |after| ==> after[i] == before[i] || after[i].deleting
    ensures Exists(before, namespace, name) == Exists(after, namespace, name)
    ensures forall q :: q in after && !q.deleting ==> q in before
  {
    AgedExist(before, after, namespace, name);
    hide Aged, Exists;
  }

  lemma MarkingNone(pods: seq<Pod>, namespace: string, pvcUID: string, version: string)
    requires namespace != "" && forall p :: p in pods && Live(p) ==> !Matches(p, Query(namespace, Some(pvcUID), None, Some(version)))
    ensures Unserved(pods, namespace, pvcUID, version) && pods == Marked(pods, Serving(pods, namespace, pvcUID, version))
  {
    hide Live;
    UnservedMeans(pods, namespace, pvcUID, version);
    MarkedIsAged(pods, {});
  }

  // Whatever became of the pod that was to be created, no other pod is new.
  lemma OnlyThatPodIsNew(pods: seq<Pod>, pod: Pod)
    ensures forall q :: q in pods + [pod] && !q.deleting ==> q in pods || q == pod
    ensures forall q :: q in Deleted(pods + [pod], pod.namespace, pod.name) && !q.deleting ==> q in pods || q == pod
  {
    var after := Deleted(pods + [pod], pod.namespace, pod.name);
    forall q | q in after && !q.deleting ensures q in pods || q == pod {
      var i :| 0 <= i < |after| && after[i] == q;
      assert q == (pods + [pod])[i];
    }
  }

  lemma TheNewOneIsMarked(pods: seq<Pod>, pod: Pod)
    requires !pod.deleting
    ensures Deleted(pods + [pod], pod.namespace, pod.name) != pods + [pod]
  {
    assert Deleted(pods + [pod], pod.namespace, pod.name)[|pods|] == Mark(pod, pod.namespace, pod.name);
  }

  lemma TheNewOneServes(pods: seq<Pod>, p: PodSession, version: string)
    requires Orderly(pods) && PodFor(p) in pods && p.runtimeVersion == version
    ensures Serving(pods, p.namespace, p.pvcUID, version) == {PodFor(p)} && KeyOf(p) == PvcKey(p.namespace, p.pvcUID)
  {
    hide AtMostOne, UniqueNames;
    ServedByOne(pods, PodFor(p), p.namespace, p.pvcUID, version);
  }

  lemma MarkedLabelled(pods: seq<Pod>, namespace: string, id: string)
    ensures var after := Marked(pods, Labelled(pods, Query(namespace, None, Some(id), None)));
      |after| == |pods| && forall i :: 0 <= i < |pods| ==> after[i] == pods[i].(deleting := pods[i].deleting
        || (pods[i].isViewer && (namespace == "" || pods[i].namespace == namespace) && pods[i].sessionID == id))
  {
    assert forall i :: 0 <= i < |pods| ==> pods[i] in pods;
  }

  // ----- facts about reconciliation -----

  /**
   * What a reconciliation asks to delete: viewer pods of the namespace with a session label and not yet being
   * deleted, which are terminal, or which no stored session of this version accounts for, unless they are young
   * and of another version.
   */
  lemma UnsparedExactly(pods: seq<Pod>, s: StoreState, namespace: string, version: string, now: Time, orphanGrace: int)
    requires StoreOk(s)
    ensures forall p :: p in Unspared(pods, s, Query(namespace, None, None, None), version, now, orphanGrace) <==>
      && p in pods && p.isViewer && (namespace == "" || p.namespace == namespace) && p.sessionID != "" && !p.deleting
      && (|| p.phase == Failed || p.phase == Succeeded
          || ((forall x :: x in s.pods.sessions && x.key == p.sessionID ==> x.value.runtimeVersion != version)
              && (p.runtimeVersion == version || orphanGrace < now - p.createdAt)))
  {
    hide StoreOk;
    forall p: Pod
      ensures Known(s, p, version) <==> exists x :: x in s.pods.sessions && x.key == p.sessionID && x.value.runtimeVersion == version
    {
      KnownMeans(s, p, version);
    }
    hide Known;
  }

  lemma KnownMeans(s: StoreState, p: Pod, version: string)
    requires StoreOk(s)
    ensures Known(s, p, version) <==> exists x :: x in s.pods.sessions && x.key == p.sessionID && x.value.runtimeVersion == version
  {
    match Find(s.pods.sessions, p.sessionID)
    case None => KeysAre(s.pods.sessions);
    case Some(slot) => UniqueSlot(s.pods.sessions, slot);
  }

  /** The session found for a claim is one the unexpired index entry of the claim leads to, unexpired, of the version, and not terminated. */
  lemma FindsReusableExactly(s: StoreState, input: EnsureInput, version: string, now: Time)
    requires StoreOk(s)
    ensures FindsReusable(s, input, version, now) <==>
      exists e, x :: e in s.pods.byPVC && e.key == input.namespace + "/" + input.pvcUID && (e.expiresAt == 0 || now < e.expiresAt)
        && x in s.pods.sessions && x.key == e.value && now < x.expiresAt
        && x.value.runtimeVersion == version && x.value.adminContext == input.adminContext && x.value.status != PodTerminated
  {
    var key := PvcKey(input.namespace, input.pvcUID);
    LookupMeans(s.pods.byPVC, key, now);
    match Lookup(s.pods.byPVC, key, now)
    case None =>
    case Some(id) => LookupMeans(s.pods.sessions, id, now);
  }

  lemma NothingResynced(s: StoreState)
    requires StoreOk(s)
    ensures Resynchronized(s, s)
  {
    forall x | x in s.pods.sessions ensures Find(s.pods.sessions, x.key) == Some(x) { FindIs(s.pods.sessions, x); }
  }

  // Looking at sessions again changes nothing about which pods are spared.
  lemma SparedSame(s: StoreState, t: StoreState, p: Pod, version: string, now: Time, grace: int)
    requires Resynchronized(s, t)
    ensures Spared(s, p, version, now, grace) == Spared(t, p, version, now, grace)
  {
    hide Terminal;
    match Find(t.pods.sessions, p.sessionID)
    case None =>
    case Some(x) => assert ResyncedSlot(s.pods.sessions, x);
  }

  lemma UnsparedIn(
    pods: seq<Pod>, list: seq<Pod>, s: StoreState, query: Query, version: string, now: Time, grace: int)
    requires forall p :: p in list <==> p in pods && Matches(p, query)
    ensures Unspared(list, s, query, version, now, grace) == Unspared(pods, s, query, version, now, grace)
    ensures Unspared([], s, query, version, now, grace) == {}
  {
    hide Spared, Matches;
  }

  lemma UnsparedStep(
    pods: seq<Pod>, list: seq<Pod>, i: nat, s: StoreState, query: Query, version: string, now: Time, grace: int)
    requires i < |list| && forall p :: p in list <==> p in pods && Matches(p, query)
    ensures list[i] in pods
    ensures Unspared(list[..i + 1], s, query, version, now, grace)
      == Unspared(list[..i], s, query, version, now, grace) + (if Spared(s, list[i], version, now, grace) then {} else {list[i]})
    ensures Unspared(list[..i + 1], s, query, version, now, grace) <= Unspared(pods, s, query, version, now, grace)
  {
    hide Spared, Matches;
    assert list[i] in list && list[..i + 1] == list[..i] + [list[i]];
  }

  /** The keepalive annotation decides nothing: pods that differ in it only are deleted alike. */
  lemma KeepaliveDecidesNothing(
    pods: seq<Pod>, others: seq<Pod>, s: StoreState, query: Query, version: string, now: Time, grace: int)
    requires |others| == |pods|
    requires forall i :: 0 <= i < |pods| ==> others[i] == pods[i].(keepaliveUntil := others[i].keepaliveUntil)
    ensures forall i :: 0 <= i < |pods| ==>
      (pods[i] in Unspared(pods, s, query, version, now, grace) <==> others[i] in Unspared(others, s, query, version, now, grace))
  {
    forall i | 0 <= i < |pods|
      ensures pods[i] in Unspared(pods, s, query, version, now, grace) <==> others[i] in Unspared(others, s, query, version, now, grace)
    {
      assert Spared(s, pods[i], version, now, grace) == Spared(s, others[i], version, now, grace);
    }
  }

  lemma ResyncCompose(a: StoreState, b: StoreState, c: StoreState)
    requires Resynchronized(a, b) && Resynchronized(b, c)
    ensures Resynchronized(a, c)
  {
    hide Keys, Resynced;
    forall x | x in c.pods.sessions ensures ResyncedSlot(a.pods.sessions, x) {
      assert ResyncedSlot(b.pods.sessions, x);
      var y := Find(b.pods.sessions, x.key).value;
      assert y in b.pods.sessions && y.key == x.key;
      assert ResyncedSlot(a.pods.sessions, y);
      ResyncedChain(Find(a.pods.sessions, x.key).value.value, y.value, x.value);
    }
  }

  // Putting a session looked at again.
  lemma SyncStep(s: StoreState, id: string, synced: PodSession)
    requires StoreOk(s) && Consistent(s)
    requires Find(s.pods.sessions, id).Some? && Resynced(Find(s.pods.sessions, id).value.value, synced)
    ensures MayPutPod(s, synced)
    ensures var t := Step(s, StoreOp.PutPodSession(synced)); Consistent(t) && Resynchronized(s, t)
  {
    var t := Step(s, StoreOp.PutPodSession(synced));
    var prior := Find(s.pods.sessions, id).value;
    assert prior in s.pods.sessions && prior.value.id == id && KeyOf(prior.value) == KeyOf(synced);
    PutPodFacts(s, synced);
    ConsistentStep(s, StoreOp.PutPodSession(synced));
    assert t.pods == PutPod(s.pods, synced);
    hide PutPod, KeyOf, Step, MayPutPod, Agrees, Covered, Find, Resynced, Keys;
    Resync(s, t, synced);
  }

  lemma Resync(s: StoreState, t: StoreState, synced: PodSession)
    requires StoreOk(s) && t == s.(pods := t.pods)
    requires Find(s.pods.sessions, synced.id).Some? && Resynced(Find(s.pods.sessions, synced.id).value.value, synced)
    requires Slot(synced.id, synced, synced.expiresAt) in t.pods.sessions
    requires forall x :: x in t.pods.sessions ==> x == Slot(synced.id, synced, synced.expiresAt) || (x in s.pods.sessions && x.key != synced.id)
    requires forall x :: x in s.pods.sessions && x.key != synced.id ==> x in t.pods.sessions
    ensures Resynchronized(s, t)
  {
    var slot := Slot(synced.id, synced, synced.expiresAt);
    var prior := Find(s.pods.sessions, synced.id).value;
    SameKeys(s.pods.sessions, t.pods.sessions, slot);
    assert prior in s.pods.sessions && prior.key == synced.id && prior.expiresAt == prior.value.expiresAt;
    NothingResynced(s);
    hide Keys, StoreOk, Find;
  }

  lemma ResyncedChain(a: PodSession, b: PodSession, c: PodSession)
    requires Resynced(a, b) && Resynced(b, c)
    ensures Resynced(a, c)
  {}

  lemma SameKeys(s: Recency<string, PodSession>, t: Recency<string, PodSession>, slot: Slot<string, PodSession>)
    requires slot in t && slot.key in Keys(s)
    requires forall x :: x in t ==> x == slot || (x in s && x.key != slot.key)
    requires forall x :: x in s && x.key != slot.key ==> x in t
    ensures Keys(t) == Keys(s)
  {
    forall k ensures k in Keys(t) <==> k in Keys(s) {
      if k in Keys(s) && k != slot.key {
        var x :| x in s && x.key == k;
        assert x in t;
      }
    }
  }
}
