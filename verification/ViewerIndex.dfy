/** The pod index of viewer sessions: what listing the viewers of a pod returns, over every run of the store. */
module ViewerIndex {
  import opened Results
  import opened Cache
  import opened StoreModel
  import opened StoreInvariants

  /** The pod was deleted since the viewer was last put. */
  predicate DeletedSince(ops: seq<StoreOp>, viewer: string, pod: string) {
    if ops == [] then false
    else match ops[|ops| - 1]
      case PutViewerSession(v) => v.id != viewer && DeletedSince(ops[..|ops| - 1], viewer, pod)
      case DeletePodSession(id) => id == pod || DeletedSince(ops[..|ops| - 1], viewer, pod)
      case _ => DeletedSince(ops[..|ops| - 1], viewer, pod)
  }

  ghost predicate UnderOwnPod(t: ViewerTable, x: Slot<string, ViewerSession>) {
    x.key in ViewersOf(t, x.value.podSessionID)
  }

  /** Each stored viewer is indexed under its own pod, unless excused. */
  ghost predicate IndexedExcept(t: ViewerTable, ops: seq<StoreOp>) {
    && ViewersOk(t)
    && forall x :: x in t.sessions ==> UnderOwnPod(t, x) || DeletedSince(ops, x.key, x.value.podSessionID)
  }

  // ----- each viewer-table operation -----

  lemma AddKeeps(index: PodIndex, pod: string, viewer: string)
    ensures forall p, k :: k in At(AddViewer(index, pod, viewer), p) <==> k in At(index, p) || (p == pod && k == viewer)
  {}

  lemma RemoveKeeps(index: PodIndex, pod: string, viewer: string)
    ensures forall p, k :: k in At(RemoveViewer(index, pod, viewer), p) <==> k in At(index, p) && !(p == pod && k == viewer)
  {
    assert pod in index ==> forall k :: k in index[pod] && k != viewer ==> k in index[pod] - {viewer};
  }

  lemma PutViewerIndex(t: ViewerTable, v: ViewerSession)
    requires ViewersOk(t)
    ensures var t' := PutViewer(t, v);
      var slot := Slot(v.id, v, v.expiresAt);
      && slot in t'.sessions && UnderOwnPod(t', slot)
      && forall x :: x in t'.sessions && x != slot ==>
        x in t.sessions && x.key != v.id && (UnderOwnPod(t, x) ==> UnderOwnPod(t', x))
  {
    hide At, AddViewer, RemoveViewer, Find, AfterPut;
    match Find(t.sessions, v.id) {
      case None => AddKeeps(t.byPod, v.podSessionID, v.id);
      case Some(prior) =>
        var pod := prior.value.podSessionID;
        RemoveKeeps(t.byPod, pod, v.id);
        AddKeeps(t.byPod, v.podSessionID, v.id);
        AddKeeps(RemoveViewer(t.byPod, pod, v.id), v.podSessionID, v.id);
    }
    PutOk(t.sessions, t.capacity, Slot(v.id, v, v.expiresAt));
  }

  lemma DeleteViewerIndex(t: ViewerTable, id: string)
    requires ViewersOk(t)
    ensures var t' := DeleteViewer(t, id);
      forall x :: x in t'.sessions ==> x in t.sessions && (UnderOwnPod(t, x) ==> UnderOwnPod(t', x))
  {
    hide At, RemoveViewer, Find, Keep;
    match Find(t.sessions, id)
    case None =>
    case Some(slot) =>
      UniqueSlot(t.sessions, slot);
      RemoveKeeps(t.byPod, slot.value.podSessionID, id);
  }

  lemma DropPodIndex(t: ViewerTable, pod: string)
    ensures var t' := DropPod(t, pod);
      forall x :: x in t'.sessions ==> x in t.sessions && (UnderOwnPod(t, x) && x.value.podSessionID != pod ==> UnderOwnPod(t', x))
  {}

  lemma ListIndex(t: ViewerTable, pod: string, ids: seq<string>, now: Time)
    requires ViewersOk(t)
    requires forall id :: id in ids <==> id in ViewersOf(t, pod)
    ensures var t' := ListByPod(t, pod, ids, now);
      forall x :: x in t'.sessions ==> x in t.sessions && (UnderOwnPod(t, x) ==> UnderOwnPod(t', x))
  {
    VisitOk(t.sessions, t.capacity, ids, now);
    var t' := ListByPod(t, pod, ids, now);
    hide Visit;
    forall x | x in t'.sessions && UnderOwnPod(t, x) ensures UnderOwnPod(t', x) {
      if x.value.podSessionID == pod {
        FindIs(t.sessions, x);
        assert Lookup(t.sessions, x.key, now).Some?;
      }
    }
  }

  lemma PurgeIndex(t: ViewerTable, now: Time)
    requires ViewersOk(t)
    ensures var t' := PurgeViewers(t, now);
      forall x :: x in t'.sessions ==> x in t.sessions && (UnderOwnPod(t, x) ==> UnderOwnPod(t', x))
  {}

  lemma GetIndex(t: ViewerTable, id: string, now: Time)
    requires ViewersOk(t)
    ensures var t' := GetViewer(t, id, now);
      forall x :: x in t'.sessions ==> x in t.sessions && (UnderOwnPod(t, x) ==> UnderOwnPod(t', x))
  {
    GetFacts(t.sessions, id, now);
  }

  // What one call does to the stored viewers and to their place in the index.
  lemma StepIndex(s: StoreState, op: StoreOp)
    requires StoreOk(s) && IsOp(s, op)
    ensures var t, t' := s.viewers, Step(s, op).viewers;
      forall x :: x in t'.sessions ==>
        if op.PutViewerSession? && x.key == op.viewer.id then UnderOwnPod(t', x)
        else
          && x in t.sessions
          && (UnderOwnPod(t, x) && op != DeletePodSession(x.value.podSessionID) ==> UnderOwnPod(t', x))
  {
    var t := s.viewers;
    hide UnderOwnPod, ViewersOk, PutViewer, DeleteViewer, ListByPod, PurgeViewers, GetViewer, PodsOk, AuthsOk, TokensOk;
    match op
    case PutViewerSession(v) => PutViewerIndex(t, v);
    case GetViewerSession(id, now) => GetIndex(t, id, now);
    case DeleteViewerSession(id) => DeleteViewerIndex(t, id);
    case DeletePodSession(id) => DropPodIndex(t, id);
    case ListViewerSessionsByPod(pod, visited, now) => ListIndex(t, pod, visited, now);
    case PurgeExpired(now) => PurgeIndex(t, now);
    case _ =>
  }

  /**
   * After any run each stored viewer session is indexed under its own pod, unless that pod was
   * deleted since the session was last put.
   */
  lemma {:induction false} StoredViewersAreIndexed(c: Capacities, ops: seq<StoreOp>)
    requires IsTrace(c, ops)
    ensures IndexedExcept(After(c, ops).viewers, ops)
  {
    TraceOk(c, ops);
    if ops != [] {
      var n := |ops| - 1;
      TracePrefix(c, ops);
      TraceOk(c, ops[..n]);
      StoredViewersAreIndexed(c, ops[..n]);
      StepIndex(After(c, ops[..n]), ops[n]);
      hide StoreOk, Step, IsOp, UnderOwnPod, ViewersOk;
    }
  }

  // ----- what a listing returns -----

  /** A stored session that has not expired. */
  ghost predicate Live(t: ViewerTable, v: ViewerSession, now: Time) {
    Slot(v.id, v, v.expiresAt) in t.sessions && !Expired(v.expiresAt, now)
  }

  lemma {:induction false} ListedMeans(t: ViewerTable, ids: seq<string>, now: Time)
    requires ViewersOk(t)
    ensures forall v :: v in Listed(t.sessions, ids, now) <==> v.id in ids && Live(t, v, now)
  {
    if ids != [] {
      var init, id := ids[..|ids| - 1], ids[|ids| - 1];
      ListedMeans(t, init, now);
      assert forall k :: k in ids <==> k in init || k == id;
      forall v: ViewerSession | v.id == id ensures Live(t, v, now) <==> Lookup(t.sessions, id, now) == Some(v) {
        if Live(t, v, now) { FindIs(t.sessions, Slot(v.id, v, v.expiresAt)); }
      }
      match Lookup(t.sessions, id, now)
      case None =>
      case Some(w) => assert w.id == id;
    }
  }

  /** For a pod that was never deleted, a listing returns every live session a scan of the whole cache would. */
  lemma ListingIsComplete(c: Capacities, ops: seq<StoreOp>, pod: string, visited: seq<string>, now: Time, v: ViewerSession)
    requires IsTrace(c, ops) && IsOp(After(c, ops), ListViewerSessionsByPod(pod, visited, now))
    requires DeletePodSession(pod) !in ops
    requires v.podSessionID == pod && Live(After(c, ops).viewers, v, now)
    ensures v in Listed(After(c, ops).viewers.sessions, visited, now)
  {
    StoredViewersAreIndexed(c, ops);
    var t := After(c, ops).viewers;
    NeverDeleted(ops, v.id, pod);
    assert UnderOwnPod(t, Slot(v.id, v, v.expiresAt));
    ListedMeans(t, visited, now);
  }

  lemma {:induction false} NeverDeleted(ops: seq<StoreOp>, viewer: string, pod: string)
    requires DeletePodSession(pod) !in ops
    ensures !DeletedSince(ops, viewer, pod)
  {
    if ops != [] {
      assert ops[|ops| - 1] in ops;
      NeverDeleted(ops[..|ops| - 1], viewer, pod);
    }
  }

  /** Deleting a pod takes its viewers out of the listings for good, until they are put again. */
  lemma {:induction false} DeletedIsUnindexed(c: Capacities, ops: seq<StoreOp>, viewer: string, pod: string)
    requires IsTrace(c, ops) && DeletedSince(ops, viewer, pod)
    ensures viewer !in ViewersOf(After(c, ops).viewers, pod)
  {
    var n := |ops| - 1;
    var s, op := After(c, ops[..n]), ops[n];
    TracePrefix(c, ops);
    TraceOk(c, ops[..n]);
    if DeletedSince(ops[..n], viewer, pod) { DeletedIsUnindexed(c, ops[..n], viewer, pod); }
    hide IsTrace, StoreOk;
    if op.PutViewerSession? {
      if viewer in ViewersOf(Step(s, op).viewers, pod) { PutEntryWasThere(s, op.viewer, pod, viewer); }
    } else if op != DeletePodSession(pod) {
      FewerAfter(s, op);
      hide Step;
    }
  }

  lemma PutEntryWasThere(s: StoreState, v: ViewerSession, pod: string, id: string)
    requires StoreOk(s) && id in ViewersOf(Step(s, PutViewerSession(v)).viewers, pod) && !(id == v.id && pod == v.podSessionID)
    ensures id in ViewersOf(s.viewers, pod)
  {
    EntryWasThere(s.viewers, v, pod, id);
  }

  /** A live session of a pod is listed under it if and only if the pod was not deleted since the session was last put. */
  lemma OwnListingIsExact(c: Capacities, ops: seq<StoreOp>, visited: seq<string>, now: Time, v: ViewerSession)
    requires IsTrace(c, ops) && IsOp(After(c, ops), ListViewerSessionsByPod(v.podSessionID, visited, now))
    requires Live(After(c, ops).viewers, v, now)
    ensures v in Listed(After(c, ops).viewers.sessions, visited, now) <==> !DeletedSince(ops, v.id, v.podSessionID)
  {
    StoredViewersAreIndexed(c, ops);
    var t := After(c, ops).viewers;
    ListedMeans(t, visited, now);
    assert v.id in ViewersOf(t, v.podSessionID) || DeletedSince(ops, v.id, v.podSessionID) by {
      assert Slot(v.id, v, v.expiresAt) in t.sessions;
    }
    if DeletedSince(ops, v.id, v.podSessionID) { DeletedIsUnindexed(c, ops, v.id, v.podSessionID); }
    hide After, DeletedSince, IsTrace;
  }

  // ----- no stale entries -----

  /** The id is stored, or no other pod than its own lists it. */
  ghost predicate MayPutViewer(t: ViewerTable, v: ViewerSession) {
    v.id in Keys(t.sessions) || forall pod :: v.id in ViewersOf(t, pod) ==> pod == v.podSessionID
  }

  ghost predicate FewerEntries(t: ViewerTable, t': ViewerTable) {
    && (forall x :: x in t'.sessions ==> x in t.sessions)
    && (forall pod, id :: id in ViewersOf(t', pod) ==> id in ViewersOf(t, pod))
  }

  // An index entry other than the new one was there before, and is not the entry of the prior session.
  lemma EntryWasThere(t: ViewerTable, v: ViewerSession, pod: string, id: string)
    requires ViewersOk(t)
    requires id in ViewersOf(PutViewer(t, v), pod) && !(id == v.id && pod == v.podSessionID)
    ensures id in ViewersOf(t, pod)
    ensures id == v.id && v.id in Keys(t.sessions) ==> Find(t.sessions, v.id).value.value.podSessionID != pod
  {}

  lemma FewerAfter(s: StoreState, op: StoreOp)
    requires StoreOk(s) && IsOp(s, op) && !op.PutViewerSession?
    ensures FewerEntries(s.viewers, Step(s, op).viewers)
  {
    match op
    case GetViewerSession(id, now) => GetFacts(s.viewers.sessions, id, now);
    case ListViewerSessionsByPod(pod, visited, now) => VisitOk(s.viewers.sessions, s.viewers.capacity, visited, now);
    case _ =>
  }

  /** A put leaves no stored viewer under another pod than its own if and only if the viewer may be put. */
  lemma PutNoStaleExactly(t: ViewerTable, v: ViewerSession)
    requires ViewersOk(t) && NoStale(t)
    ensures NoStale(PutViewer(t, v)) <==> MayPutViewer(t, v)
  {
    var t' := PutViewer(t, v);
    PutViewerIndex(t, v);
    if MayPutViewer(t, v) { PutViewerStale(t, v); } else { OtherEntryStays(t, v); }
  }

  lemma OtherEntryStays(t: ViewerTable, v: ViewerSession)
    requires ViewersOk(t) && v.id !in Keys(t.sessions)
    ensures forall pod :: v.id in ViewersOf(t, pod) ==> v.id in ViewersOf(PutViewer(t, v), pod)
    ensures Slot(v.id, v, v.expiresAt) in PutViewer(t, v).sessions
  {
    PutOk(t.sessions, t.capacity, Slot(v.id, v, v.expiresAt));
    AddKeeps(t.byPod, v.podSessionID, v.id);
    hide AfterPut, AddViewer;
  }

  lemma PutViewerStale(t: ViewerTable, v: ViewerSession)
    requires ViewersOk(t) && NoStale(t) && MayPutViewer(t, v)
    ensures NoStale(PutViewer(t, v))
  {
    var t' := PutViewer(t, v);
    PutOk(t.sessions, t.capacity, Slot(v.id, v, v.expiresAt));
    assert t'.sessions == AfterPut(t.sessions, t.capacity, Slot(v.id, v, v.expiresAt));
    hide AfterPut, PutViewer, ViewersOf;
    forall pod, x | x in t'.sessions && x.key in ViewersOf(t', pod) ensures x.value.podSessionID == pod {
      if !(x.key == v.id && pod == v.podSessionID) { EntryWasThere(t, v, pod, x.key); }
      if x.key == v.id && v.id in Keys(t.sessions) { assert Find(t.sessions, v.id).value in t.sessions; }
    }
  }

  lemma StepNoStaleExactly(s: StoreState, op: StoreOp)
    requires StoreOk(s) && IsOp(s, op) && NoStale(s.viewers)
    ensures NoStale(Step(s, op).viewers) <==> (op.PutViewerSession? ==> MayPutViewer(s.viewers, op.viewer))
  {
    if op.PutViewerSession? {
      PutNoStaleExactly(s.viewers, op.viewer);
      hide PutViewer, MayPutViewer, NoStale;
    } else {
      FewerAfter(s, op);
      hide Step, ViewersOf, StoreOk;
    }
  }

  /** Every viewer put in the run may be put in the state it is put in. */
  ghost predicate PutsMay(c: Capacities, ops: seq<StoreOp>) {
    ops == []
    || var before, op := ops[..|ops| - 1], ops[|ops| - 1];
       PutsMay(c, before) && (op.PutViewerSession? ==> MayPutViewer(After(c, before).viewers, op.viewer))
  }

  /** No stored viewer is under another pod, after the run and after every part of it. */
  ghost predicate NeverStale(c: Capacities, ops: seq<StoreOp>) {
    NoStale(After(c, ops).viewers) && (ops == [] || NeverStale(c, ops[..|ops| - 1]))
  }

  /** No listing ever has a viewer of another pod if and only if every viewer may be put when it is. */
  lemma {:induction false} NeverStaleExactly(c: Capacities, ops: seq<StoreOp>)
    requires IsTrace(c, ops)
    ensures NeverStale(c, ops) <==> PutsMay(c, ops)
  {
    if ops != [] {
      var n := |ops| - 1;
      TracePrefix(c, ops);
      NeverStaleExactly(c, ops[..n]);
      TraceOk(c, ops[..n]);
      AfterLast(c, ops);
      hide After, Step, StoreOk, NoStale, MayPutViewer, IsTrace, IsOp;
      if NeverStale(c, ops[..n]) { StepNoStaleExactly(After(c, ops[..n]), ops[n]); }
    }
  }

  /** For a pod that was never deleted, when no put was stale, a listing returns exactly the live sessions of the pod. */
  lemma ListingIsExact(c: Capacities, ops: seq<StoreOp>, pod: string, visited: seq<string>, now: Time, v: ViewerSession)
    requires IsTrace(c, ops) && IsOp(After(c, ops), ListViewerSessionsByPod(pod, visited, now))
    requires DeletePodSession(pod) !in ops && PutsMay(c, ops)
    ensures v in Listed(After(c, ops).viewers.sessions, visited, now)
      <==> v.podSessionID == pod && Live(After(c, ops).viewers, v, now)
  {
    var t := After(c, ops).viewers;
    TraceOk(c, ops);
    ListedMeans(t, visited, now);
    if v in Listed(t.sessions, visited, now) {
      NeverStaleExactly(c, ops);
      assert v.id in ViewersOf(t, pod);
    }
    if v.podSessionID == pod && Live(t, v, now) { ListingIsComplete(c, ops, pod, visited, now, v); }
  }

  // ----- a simpler condition that suffices -----

  ghost predicate PutUnder(ops: seq<StoreOp>, viewer: string, pod: string) {
    exists i :: 0 <= i < |ops| && PutsUnder(ops[i], viewer, pod)
  }

  predicate PutsUnder(op: StoreOp, viewer: string, pod: string) {
    op.PutViewerSession? && op.viewer.id == viewer && op.viewer.podSessionID == pod
  }

  /** An id that is not stored may only be put under the pods it was put under before. */
  ghost predicate MayPut(t: ViewerTable, v: ViewerSession, ops: seq<StoreOp>) {
    v.id in Keys(t.sessions) || forall pod :: PutUnder(ops, v.id, pod) ==> pod == v.podSessionID
  }

  /** A viewer id that fell out of the cache is never put again under another pod. */
  ghost predicate NoStaleReput(c: Capacities, ops: seq<StoreOp>) {
    forall i :: 0 <= i < |ops| && ops[i].PutViewerSession? ==> MayPut(After(c, ops[..i]).viewers, ops[i].viewer, ops[..i])
  }

  lemma PutUnderLater(ops: seq<StoreOp>, op: StoreOp, viewer: string, pod: string)
    requires PutUnder(ops, viewer, pod) || PutsUnder(op, viewer, pod)
    ensures PutUnder(ops + [op], viewer, pod)
  {
    if PutsUnder(op, viewer, pod) {
      assert (ops + [op])[|ops|] == op;
    } else {
      var i :| 0 <= i < |ops| && PutsUnder(ops[i], viewer, pod);
      assert (ops + [op])[i] == ops[i];
    }
  }

  /** Every index entry was put under that pod. */
  lemma {:induction false} EntriesWerePut(c: Capacities, ops: seq<StoreOp>, pod: string, id: string)
    requires IsTrace(c, ops) && id in ViewersOf(After(c, ops).viewers, pod)
    ensures PutUnder(ops, id, pod)
  {
    if ops == [] {
      assert false;
    } else {
      var n := |ops| - 1;
      var s, op := After(c, ops[..n]), ops[n];
      TracePrefix(c, ops);
      TraceOk(c, ops[..n]);
      AfterLast(c, ops);
      hide After, IsTrace, StoreOk, PutUnder;
      if op.PutViewerSession? {
        if !PutsUnder(op, id, pod) { PutEntryWasThere(s, op.viewer, pod, id); }
      } else {
        FewerAfter(s, op);
      }
      hide Step;
      if id in ViewersOf(s.viewers, pod) { EntriesWerePut(c, ops[..n], pod, id); }
      PutUnderLater(ops[..n], op, id, pod);
    }
  }

  lemma {:induction false} NoStaleReputSuffices(c: Capacities, ops: seq<StoreOp>)
    requires IsTrace(c, ops) && NoStaleReput(c, ops)
    ensures PutsMay(c, ops)
  {
    if ops != [] {
      var n := |ops| - 1;
      ReputPrefix(c, ops);
      TracePrefix(c, ops);
      hide After, MayPut, MayPutViewer, IsTrace, NoStaleReput;
      NoStaleReputSuffices(c, ops[..n]);
      if ops[n].PutViewerSession? { MayPutSuffices(c, ops[..n], ops[n].viewer); }
    }
  }

  lemma ReputPrefix(c: Capacities, ops: seq<StoreOp>)
    requires NoStaleReput(c, ops) && ops != []
    ensures NoStaleReput(c, ops[..|ops| - 1])
    ensures var n := |ops| - 1;
      ops[n].PutViewerSession? ==> MayPut(After(c, ops[..n]).viewers, ops[n].viewer, ops[..n])
  {
    var init := ops[..|ops| - 1];
    hide After, MayPut;
    assert forall i :: 0 <= i < |init| ==> init[i] == ops[i] && init[..i] == ops[..i];
  }

  lemma MayPutSuffices(c: Capacities, ops: seq<StoreOp>, v: ViewerSession)
    requires IsTrace(c, ops) && MayPut(After(c, ops).viewers, v, ops)
    ensures MayPutViewer(After(c, ops).viewers, v)
  {
    var t := After(c, ops).viewers;
    hide After, IsTrace, PutUnder, Keys, ViewersOf;
    forall pod | v.id in ViewersOf(t, pod) ensures PutUnder(ops, v.id, pod) { EntriesWerePut(c, ops, pod, v.id); }
  }

  // ----- without the condition -----

  function ViewerSlot(v: ViewerSession): Slot<string, ViewerSession> { Slot(v.id, v, v.expiresAt) }

  /** The condition is needed: a viewer evicted and put again under another pod is still listed under the old one. */
  lemma StaleReputIsMislisted(v: ViewerSession, other: ViewerSession, again: ViewerSession, now: Time)
    requires v.id == again.id != other.id && v.podSessionID != again.podSessionID && !Expired(again.expiresAt, now)
    ensures var t := PutViewer(PutViewer(PutViewer(ViewerTable(1, [], map[]), v), other), again);
      && v.id in ViewersOf(t, v.podSessionID)
      && again in Listed(t.sessions, [v.id], now) && again.podSessionID != v.podSessionID
  {
    var t0 := ViewerTable(1, [], map[]);
    OnlyViewerPut(t0, v);
    OnlyViewerPut(PutViewer(t0, v), other);
    OnlyViewerPut(PutViewer(PutViewer(t0, v), other), again);
    var t := PutViewer(PutViewer(PutViewer(t0, v), other), again);
    hide PutViewer;
    assert Find(t.sessions, v.id) == Some(ViewerSlot(again));
    assert [v.id][..0] == [];
  }

  // A put of a new viewer into a cache for one viewer.
  lemma OnlyViewerPut(t: ViewerTable, v: ViewerSession)
    requires t.capacity == 1 && |t.sessions| <= 1 && v.id !in Keys(t.sessions)
    ensures var t' := PutViewer(t, v);
      && t' == ViewerTable(1, [ViewerSlot(v)], AddViewer(t.byPod, v.podSessionID, v.id))
      && Keys(t'.sessions) == {v.id}
  {
    KeysAre(t.sessions);
    KeepNone(t.sessions, {v.id});
    hide Keep;
    assert AfterPut(t.sessions, 1, ViewerSlot(v)) == [ViewerSlot(v)];
  }
}
