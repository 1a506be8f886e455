/**
 * What every service call keeps true of the store, when ids are fresh: viewers stay indexed under
 * the pods that are stored, and the PVC index never leads to a session of another claim.
 */
module LifecycleInvariants {
  import opened Results
  import opened Cache
  import opened StoreModel
  import opened StoreInvariants
  import ViewerIndex

  /** Each stored viewer whose pod session is stored is indexed under it. */
  ghost predicate Covered(s: StoreState) {
    forall x :: x in s.viewers.sessions && x.value.podSessionID in Keys(s.pods.sessions) ==> ViewerIndex.UnderOwnPod(s.viewers, x)
  }

  ghost predicate Consistent(s: StoreState) { StoreOk(s) && Covered(s) && Agrees(s.pods) && NoStale(s.viewers) }

  /** A pod-session id nothing in the store mentions. */
  ghost predicate FreshPod(s: StoreState, id: string) {
    && id !in Keys(s.pods.sessions)
    && (forall x :: x in s.viewers.sessions ==> x.value.podSessionID != id)
    && (forall e :: e in s.pods.byPVC ==> e.value != id)
  }

  /** A session may be put when its id is fresh, or again for the claim it is stored for. */
  ghost predicate MayPutPod(s: StoreState, p: PodSession) {
    if p.id in Keys(s.pods.sessions) then KeyOf(Find(s.pods.sessions, p.id).value.value) == KeyOf(p) else FreshPod(s, p.id)
  }

  lemma EmptyIsConsistent(c: Capacities)
    ensures Consistent(Empty(c))
  {
    EmptyOk(c);
  }

  // ----- the pod table -----

  ghost predicate FewerPods(t: PodTable, t': PodTable) {
    (forall x :: x in t'.sessions ==> x in t.sessions) && (forall e :: e in t'.byPVC ==> e in t.byPVC)
  }

  lemma FewerKeys(t: PodTable, t': PodTable)
    requires FewerPods(t, t')
    ensures Keys(t'.sessions) <= Keys(t.sessions) && (Agrees(t) ==> Agrees(t'))
  {}

  lemma StepPods(s: StoreState, op: StoreOp)
    requires StoreOk(s) && !op.PutPodSession?
    ensures FewerPods(s.pods, Step(s, op).pods)
    ensures op.DeletePodSession? ==> op.id !in Keys(Step(s, op).pods.sessions)
  {
    var t := s.pods;
    match op
    case GetPodSession(id, now) => GetFacts(t.sessions, id, now);
    case DeletePodSession(id) =>
    case FindPodSessionByPVC(ns, uid, now) =>
      var key := PvcKey(ns, uid);
      GetFacts(t.byPVC, key, now);
      hide AfterGet, Keep;
      match Lookup(t.byPVC, key, now) {
        case None =>
        case Some(id) => GetFacts(t.sessions, id, now);
      }
    case _ =>
  }

  // A session put again for its claim, or under a fresh id, evicts at most one other session.
  lemma PutPodFacts(s: StoreState, p: PodSession)
    requires StoreOk(s) && Agrees(s.pods) && MayPutPod(s, p)
    ensures var t := PutPod(s.pods, p);
      && Agrees(t) && Slot(p.id, p, p.expiresAt) in t.sessions
      && (forall x :: x in t.sessions ==> x == Slot(p.id, p, p.expiresAt) || (x in s.pods.sessions && x.key != p.id))
      && (p.id in Keys(s.pods.sessions) ==> forall x :: x in s.pods.sessions && x.key != p.id ==> x in t.sessions)
  {
    var t := s.pods;
    var slot := Slot(KeyOf(p), p.id, p.expiresAt);
    PutFacts(t.sessions, t.capacity, Slot(p.id, p, p.expiresAt));
    PutFacts(t.byPVC, t.indexCapacity, slot);
    var t' := PutPod(t, p);
    hide AfterPut, Keep, KeyOf, FreshPod;
    assert t'.byPVC == AfterPut(t.byPVC, t.indexCapacity, slot);
    forall e, x | e in t'.byPVC && x in t'.sessions && e.value == x.key ensures KeyOf(x.value) == e.key {
      if e != slot && x.key == p.id { StoredUnder(s, p, e); }
    }
  }

  lemma StoredUnder(s: StoreState, p: PodSession, e: Slot<string, string>)
    requires StoreOk(s) && Agrees(s.pods) && MayPutPod(s, p) && e in s.pods.byPVC && e.value == p.id
    ensures KeyOf(p) == e.key
  {
    if p.id in Keys(s.pods.sessions) {
      var prior := Find(s.pods.sessions, p.id).value;
      assert prior in s.pods.sessions && prior.key == p.id;
    }
  }

  // ----- one store call -----

  /** The tables a call of the services leaves alone. */
  lemma StepTouches(s: StoreState, op: StoreOp)
    ensures var t := Step(s, op);
      && (op.PutPodSession? || op.GetPodSession? || op.FindPodSessionByPVC? ==> t == s.(pods := t.pods))
      && (op.PutViewerSession? ==> t == s.(viewers := t.viewers))
      && (op.GetViewerSession? ==> t.pods == s.pods && t.auths == s.auths)
      && (op.CreateAuthRequest? || op.ConsumeAuthRequest? ==> t == s.(auths := t.auths))
      && (op.GetTokenRecord? || op.PutTokenRecord? ==> t == s.(tokens := t.tokens))
  {}

  lemma StepCovered(s: StoreState, op: StoreOp)
    requires StoreOk(s) && Covered(s) && IsOp(s, op) && Agrees(s.pods)
    requires op.PutPodSession? ==> MayPutPod(s, op.pod)
    ensures Covered(Step(s, op))
  {
    ViewerIndex.StepIndex(s, op);
    if op.PutPodSession? {
      PutPodFacts(s, op.pod);
      PutPodKeys(s, op.pod);
      hide PutPod, ViewerIndex.UnderOwnPod, StoreOk, Agrees;
    } else {
      StepPods(s, op);
      FewerKeys(s.pods, Step(s, op).pods);
      hide Step, ViewerIndex.UnderOwnPod, StoreOk, Agrees, Keys;
    }
  }

  lemma PutPodKeys(s: StoreState, p: PodSession)
    requires StoreOk(s) && Agrees(s.pods) && MayPutPod(s, p)
    ensures forall k :: k in Keys(PutPod(s.pods, p).sessions) ==> k in Keys(s.pods.sessions) || k == p.id
  {
    PutPodFacts(s, p);
    hide PutPod, MayPutPod, Agrees, StoreOk;
  }

  /** Every store call keeps the store consistent, when sessions are put under fresh ids or again for their claim. */
  lemma ConsistentStep(s: StoreState, op: StoreOp)
    requires Consistent(s) && IsOp(s, op)
    requires op.PutPodSession? ==> MayPutPod(s, op.pod)
    requires op.PutViewerSession? ==> ViewerIndex.MayPutViewer(s.viewers, op.viewer)
    ensures Consistent(Step(s, op))
  {
    StepOk(s, op);
    ViewerIndex.StepNoStaleExactly(s, op);
    StepCovered(s, op);
    if op.PutPodSession? {
      PutPodFacts(s, op.pod);
    } else {
      StepPods(s, op);
      FewerKeys(s.pods, Step(s, op).pods);
    }
    hide Step, StoreOk, Covered, Agrees, NoStale;
    if op.PutPodSession? { PutKeepsPods(s, op.pod); }
  }

  lemma PutKeepsPods(s: StoreState, p: PodSession)
    ensures Step(s, PutPodSession(p)).pods == PutPod(s.pods, p)
  {}

  /** Calls that put nothing keep fresh ids fresh. */
  lemma FreshStays(s: StoreState, op: StoreOp, id: string)
    requires Consistent(s) && IsOp(s, op) && FreshPod(s, id) && !op.PutPodSession?
    requires op.PutViewerSession? ==> op.viewer.podSessionID != id
    ensures FreshPod(Step(s, op), id)
  {
    StepPods(s, op);
    FewerKeys(s.pods, Step(s, op).pods);
    if op.PutViewerSession? {
      PutOk(s.viewers.sessions, s.viewers.capacity, Slot(op.viewer.id, op.viewer, op.viewer.expiresAt));
    } else {
      ViewerIndex.StepIndex(s, op);
      hide Step, ViewerIndex.UnderOwnPod;
    }
  }
}
