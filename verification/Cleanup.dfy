/** The cleanup run: reconcile the pods, close or refresh expired pod sessions, purge the store. */
module Cleanup {
  import opened Results
  import opened Cache
  import opened StoreModel
  import opened StoreInvariants
  import ViewerIndex
  import opened LifecycleInvariants
  import opened World
  import opened Store
  import opened PodLifecycle

  /** A stored viewer session, live at the instant, uses the pod session. */
  ghost predicate InUse(s: StoreState, id: string, now: Time) {
    exists x :: x in s.viewers.sessions && x.value.podSessionID == id && !Expired(x.expiresAt, now)
  }

  /** No pod session in use at the instant was lost. */
  ghost predicate InUseKept(s: StoreState, t: StoreState, now: Time) {
    forall id :: id in Keys(s.pods.sessions) && InUse(s, id, now) ==> id in Keys(t.pods.sessions)
  }

  /** The viewers live at the instant are the same. */
  ghost predicate SameLiveViewers(s: StoreState, t: StoreState, now: Time) {
    && (forall x :: x in t.viewers.sessions ==> x in s.viewers.sessions)
    && (forall x :: x in s.viewers.sessions && !Expired(x.expiresAt, now) ==> x in t.viewers.sessions)
  }

  /** Every session expired at the instant was closed if idle, and kept with a later expiry if in use. */
  ghost predicate ExpiredSettled(s: StoreState, t: StoreState, now: Time) {
    && (forall x :: x in s.pods.sessions && Expired(x.expiresAt, now) ==> (x.key in Keys(t.pods.sessions) <==> InUse(s, x.key, now)))
    && (forall x :: x in t.pods.sessions ==> !Expired(x.expiresAt, now))
  }

  /** No cache holds an entry expired at the instant. */
  ghost predicate NothingExpired(s: StoreState, now: Time) {
    && (forall x :: x in s.pods.sessions ==> !Expired(x.expiresAt, now))
    && (forall x :: x in s.pods.byPVC ==> !Expired(x.expiresAt, now))
    && (forall x :: x in s.viewers.sessions ==> !Expired(x.expiresAt, now))
    && (forall x :: x in s.auths.requests ==> !Expired(x.expiresAt, now))
    && (forall x :: x in s.tokens.records ==> !Expired(x.expiresAt, now))
  }

  /** The pod of a session that is expired and idle at the instant. */
  ghost predicate PodOfIdle(s: StoreState, p: Pod, now: Time) {
    exists x :: x in s.pods.sessions && Expired(x.expiresAt, now) && !InUse(s, x.key, now)
      && Named(p, x.value.namespace, x.value.podName)
  }

  /** Every session that is expired but in use at the instant still has its pod. */
  ghost predicate PodsStillThere(s: StoreState, pods: seq<Pod>, now: Time) {
    forall x :: x in s.pods.sessions && Expired(x.expiresAt, now) && InUse(s, x.key, now) ==>
      Exists(pods, x.value.namespace, x.value.podName)
  }

  /** Only pods of expired idle sessions were marked, and when done all of them. */
  ghost predicate IdleMarked(s: StoreState, before: seq<Pod>, after: seq<Pod>, now: Time, done: bool) {
    && |after| == |before|
    && (forall k :: 0 <= k < |before| && after[k].deleting ==> before[k].deleting || PodOfIdle(s, before[k], now))
    && (done ==> forall k :: 0 <= k < |before| && PodOfIdle(s, before[k], now) ==> after[k].deleting)
  }

  // ----- the list of expired sessions -----

  function SlotOf(p: PodSession): Slot<string, PodSession> { Slot(p.id, p, p.expiresAt) }

  ghost predicate IsExpiredList(s: StoreState, list: seq<PodSession>, now: Time) {
    && (forall j :: 0 <= j < |list| ==> SlotOf(list[j]) in s.pods.sessions && Expired(list[j].expiresAt, now))
    && (forall i, j :: 0 <= i < j < |list| ==> list[i].id != list[j].id)
    && (forall x :: x in s.pods.sessions && Expired(x.expiresAt, now) ==> x.value in list)
  }

  lemma {:induction false} ValuesInOrder(u: Recency<string, PodSession>)
    ensures |ValuesOf(u)| == |u| && forall i :: 0 <= i < |u| ==> ValuesOf(u)[i] == u[i].value
  {
    if u != [] { ValuesInOrder(u[1..]); }
  }

  lemma ValuesHaveOwnIds(u: Recency<string, PodSession>)
    requires Distinct(u) && forall x :: x in u ==> x == SlotOf(x.value)
    ensures |ValuesOf(u)| == |u| && forall i :: 0 <= i < |u| ==> ValuesOf(u)[i] == u[i].value
    ensures forall i, j :: 0 <= i < j < |u| ==> ValuesOf(u)[i].id != ValuesOf(u)[j].id
  {
    ValuesInOrder(u);
    hide ValuesOf;
    forall i | 0 <= i < |u| ensures u[i].key == u[i].value.id {
      assert u[i] in u;
    }
  }

  lemma PermutedDistinctIds(a: seq<PodSession>, b: seq<PodSession>)
    requires multiset(a) == multiset(b) && forall i, j :: 0 <= i < j < |b| ==> b[i].id != b[j].id
    ensures forall i, j :: 0 <= i < j < |a| ==> a[i].id != a[j].id
  {
    forall i, j | 0 <= i < j < |a| ensures a[i].id != a[j].id {
      assert a[i] in multiset(a) && a[j] in multiset(a);
      assert a[i] in multiset(b) && a[j] in multiset(b);
      if a[i].id == a[j].id {
        assert a[i] in b && a[j] in b;
        assert a[i] == a[j];
        TwiceInSeq(a, i, j);
        OnceInSeq(b, a[i]);
        assert false;
      }
    }
  }

  lemma TwiceInSeq(a: seq<PodSession>, i: nat, j: nat)
    requires i < j < |a| && a[i] == a[j]
    ensures multiset(a)[a[i]] >= 2
  {
    assert a == a[..i] + [a[i]] + a[i + 1..j] + [a[j]] + a[j + 1..];
  }

  lemma {:induction false} OnceInSeq(b: seq<PodSession>, x: PodSession)
    requires forall i, j :: 0 <= i < j < |b| ==> b[i].id != b[j].id
    ensures multiset(b)[x] <= 1
  {
    if b != [] {
      var n := |b| - 1;
      OnceInSeq(b[..n], x);
      assert b == b[..n] + [b[n]];
      if b[n] == x { assert x !in b[..n]; }
    }
  }

  lemma ListedExpired(s: StoreState, list: seq<PodSession>, now: Time)
    requires StoreOk(s) && multiset(list) == multiset(ExpiredValues(s.pods.sessions, now))
    ensures IsExpiredList(s, list, now)
  {
    var slots := s.pods.sessions;
    var u := Keep(slots, Keys(slots) - DeadKeys(slots, now));
    KeepDistinct(slots, Keys(slots) - DeadKeys(slots, now));
    ValuesHaveOwnIds(u);
    PermutedDistinctIds(list, ValuesOf(u));
    hide Keep, ValuesOf, StoreOk;
    forall j | 0 <= j < |list| ensures SlotOf(list[j]) in slots && Expired(list[j].expiresAt, now) {
      assert list[j] in multiset(list);
      assert list[j] in multiset(ValuesOf(u));
      var i :| 0 <= i < |u| && ValuesOf(u)[i] == list[j];
      assert u[i] in u;
      DeadMeans(s, u[i], now);
    }
    forall x | x in slots && Expired(x.expiresAt, now) ensures x.value in list {
      DeadMeans(s, x, now);
      var i :| 0 <= i < |u| && u[i] == x;
      assert ValuesOf(u)[i] in multiset(ValuesOf(u));
      assert x.value in multiset(list);
    }
  }

  lemma DeadMeans(s: StoreState, x: Slot<string, PodSession>, now: Time)
    requires PodsOk(s.pods) && x in s.pods.sessions
    ensures x == SlotOf(x.value) && x.key in Keys(s.pods.sessions)
    ensures x.key in DeadKeys(s.pods.sessions, now) <==> Expired(x.expiresAt, now)
  {
    UniqueSlot(s.pods.sessions, x);
  }

  // ----- what one round of the loop does -----

  /** The state after the sessions before index i were settled; lasting when a refresh moves the expiry past the instant. */
  ghost predicate SettledUpTo(s0: StoreState, s: StoreState, list: seq<PodSession>, i: nat, now: Time, lasting: bool)
    requires i <= |list|
  {
    && SameLiveViewers(s0, s, now) && InUseKept(s0, s, now)
    && (forall j :: i <= j < |list| ==> SlotOf(list[j]) in s.pods.sessions)
    && (forall j :: 0 <= j < i ==> (list[j].id in Keys(s.pods.sessions) <==> InUse(s0, list[j].id, now)))
    && (lasting ==> forall x :: x in s.pods.sessions && Expired(x.expiresAt, now) ==> exists j :: i <= j < |list| && list[j] == x.value)
  }

  lemma NothingSettled(s: StoreState, list: seq<PodSession>, now: Time, lasting: bool)
    requires StoreOk(s) && IsExpiredList(s, list, now)
    ensures SettledUpTo(s, s, list, 0, now, lasting)
  {}

  lemma AllSettled(s0: StoreState, s: StoreState, list: seq<PodSession>, now: Time)
    requires StoreOk(s0) && IsExpiredList(s0, list, now) && SettledUpTo(s0, s, list, |list|, now, true)
    ensures ExpiredSettled(s0, s, now)
  {
    forall x | x in s0.pods.sessions && Expired(x.expiresAt, now) ensures x.key in Keys(s.pods.sessions) <==> InUse(s0, x.key, now) {
      var j :| 0 <= j < |list| && list[j] == x.value;
    }
  }

  // Being in use depends on the live viewers only.
  lemma SameUse(s: StoreState, t: StoreState, now: Time)
    requires SameLiveViewers(s, t, now)
    ensures forall id :: InUse(s, id, now) <==> InUse(t, id, now)
  {
    forall id ensures InUse(s, id, now) <==> InUse(t, id, now) {
      if InUse(s, id, now) {
        var x :| x in s.viewers.sessions && x.value.podSessionID == id && !Expired(x.expiresAt, now);
        assert x in t.viewers.sessions;
      }
    }
  }

  // A listing is empty exactly when no live viewer uses the pod session, and loses no live viewer.
  lemma ListingTellsUse(s: StoreState, id: string, visited: seq<string>, now: Time)
    requires Consistent(s) && IsOp(s, StoreOp.ListViewerSessionsByPod(id, visited, now)) && id in Keys(s.pods.sessions)
    ensures Listed(s.viewers.sessions, visited, now) != [] <==> InUse(s, id, now)
    ensures var t := Step(s, StoreOp.ListViewerSessionsByPod(id, visited, now));
      SameLiveViewers(s, t, now) && t.pods == s.pods
  {
    var listed := Listed(s.viewers.sessions, visited, now);
    ViewerIndex.ListedMeans(s.viewers, visited, now);
    VisitOk(s.viewers.sessions, s.viewers.capacity, visited, now);
    hide Listed, Visit, Missing;
    if InUse(s, id, now) {
      var x :| x in s.viewers.sessions && x.value.podSessionID == id && !Expired(x.expiresAt, now);
      assert ViewerIndex.UnderOwnPod(s.viewers, x);
      assert x.value in listed;
    }
    if listed != [] {
      var v := listed[0];
      assert v in listed;
      assert v.podSessionID == id;
    }
  }

  // Refreshing the next session settles it, when it is in use.
  lemma RefreshSettles(s0: StoreState, s: StoreState, list: seq<PodSession>, i: nat, now: Time, updated: PodSession, lasting: bool)
    requires StoreOk(s0) && Consistent(s) && IsExpiredList(s0, list, now) && i < |list| && SettledUpTo(s0, s, list, i, now, lasting)
    requires InUse(s, list[i].id, now) && updated.id == list[i].id && MayPutPod(s, updated)
    requires lasting ==> !Expired(updated.expiresAt, now)
    ensures SettledUpTo(s0, Step(s, StoreOp.PutPodSession(updated)), list, i + 1, now, lasting)
  {
    PutPodFacts(s, updated);
    var t := Step(s, StoreOp.PutPodSession(updated));
    assert t.pods == PutPod(s.pods, updated) && t.viewers == s.viewers;
    SameUse(s0, s, now);
    SessionsKnowTheirKeys(s);
    hide PutPod, Step, StoreOk, InUse, MayPutPod, Agrees, SettledUpTo, IsExpiredList;
    StillListed(s0, s, list, i, now, lasting);
    KeysGrow(s, t, updated);
    hide Consistent;
    if lasting { RestIsExpired(s0, s, t, list, i, now, updated.id); }
    RoundSettles(s0, s, t, list, i, now, lasting, true);
  }

  lemma StillListed(s0: StoreState, s: StoreState, list: seq<PodSession>, i: nat, now: Time, lasting: bool)
    requires i < |list| && SettledUpTo(s0, s, list, i, now, lasting)
    ensures SlotOf(list[i]) in s.pods.sessions && list[i].id in Keys(s.pods.sessions) && SameLiveViewers(s0, s, now)
  {
    assert SlotOf(list[i]) in s.pods.sessions;
    KeysAre(s.pods.sessions);
  }

  // One session settled: kept when in use, gone when idle.
  lemma RoundSettles(
    s0: StoreState, s: StoreState, t: StoreState, list: seq<PodSession>, i: nat, now: Time, lasting: bool, kept: bool)
    requires IsExpiredList(s0, list, now) && i < |list| && SettledUpTo(s0, s, list, i, now, lasting)
    requires t.viewers.sessions == s.viewers.sessions && (kept <==> InUse(s0, list[i].id, now))
    requires list[i].id in Keys(s.pods.sessions)
    requires Keys(t.pods.sessions) == if kept then Keys(s.pods.sessions) else Keys(s.pods.sessions) - {list[i].id}
    requires forall x :: x in s.pods.sessions && x.key != list[i].id ==> x in t.pods.sessions
    requires lasting ==> forall x :: x in t.pods.sessions && Expired(x.expiresAt, now) ==> exists j :: i + 1 <= j < |list| && list[j] == x.value
    ensures SettledUpTo(s0, t, list, i + 1, now, lasting)
  {
    hide Keys, InUse;
  }

  lemma KeysGrow(s: StoreState, t: StoreState, p: PodSession)
    requires SlotOf(p) in t.pods.sessions && p.id in Keys(s.pods.sessions)
    requires forall x :: x in t.pods.sessions ==> x == SlotOf(p) || (x in s.pods.sessions && x.key != p.id)
    requires forall x :: x in s.pods.sessions && x.key != p.id ==> x in t.pods.sessions
    ensures Keys(t.pods.sessions) == Keys(s.pods.sessions)
  {
    SameKeys(s.pods.sessions, t.pods.sessions, SlotOf(p));
  }

  // Whatever is still expired comes later in the list.
  lemma RestIsExpired(s0: StoreState, s: StoreState, t: StoreState, list: seq<PodSession>, i: nat, now: Time, id: string)
    requires IsExpiredList(s0, list, now) && i < |list| && list[i].id == id && SettledUpTo(s0, s, list, i, now, true)
    requires forall x :: x in t.pods.sessions && Expired(x.expiresAt, now) ==> x in s.pods.sessions && x.key != id && x.key == x.value.id
    ensures forall x :: x in t.pods.sessions && Expired(x.expiresAt, now) ==> exists j :: i + 1 <= j < |list| && list[j] == x.value
  {
    forall x | x in t.pods.sessions && Expired(x.expiresAt, now) ensures exists j :: i + 1 <= j < |list| && list[j] == x.value {
      var j :| i <= j < |list| && list[j] == x.value;
    }
  }

  lemma ClosingFacts(s: StoreState, p: PodSession, done: bool)
    requires Consistent(s) && MayPutPod(s, p) && p.id in Keys(s.pods.sessions)
    ensures var t := Closing(s, p, done);
      && t.viewers.sessions == s.viewers.sessions
      && (done ==> forall x :: x in t.pods.sessions <==> x in s.pods.sessions && x.key != p.id)
      && (!done ==> Keys(t.pods.sessions) == Keys(s.pods.sessions))
  {
    PutPodFacts(s, p);
    var marked := Step(s, StoreOp.PutPodSession(p));
    assert marked.pods == PutPod(s.pods, p) && marked.viewers == s.viewers;
    hide PutPod, StoreOk, Agrees;
    KeysGrow(s, marked, p);
    DeleteDrops(marked, p.id);
  }

  lemma DeleteDrops(s: StoreState, id: string)
    ensures var t := Step(s, StoreOp.DeletePodSession(id));
      && t.viewers.sessions == s.viewers.sessions
      && forall x :: x in t.pods.sessions <==> x in s.pods.sessions && x.key != id
  {
    KeysAre(s.pods.sessions);
  }

  // Closing the next session settles it, when it is idle.
  lemma CloseSettles(s0: StoreState, s: StoreState, list: seq<PodSession>, i: nat, now: Time, p: PodSession, lasting: bool)
    requires StoreOk(s0) && Consistent(s) && IsExpiredList(s0, list, now) && i < |list| && SettledUpTo(s0, s, list, i, now, lasting)
    requires !InUse(s, list[i].id, now) && p.id == list[i].id && MayPutPod(s, p) && p.id in Keys(s.pods.sessions)
    ensures SettledUpTo(s0, Closing(s, p, true), list, i + 1, now, lasting)
    ensures SameLiveViewers(s0, Closing(s, p, false), now) && InUseKept(s0, Closing(s, p, false), now)
  {
    ClosingFacts(s, p, true);
    ClosingFacts(s, p, false);
    SameUse(s0, s, now);
    var t := Closing(s, p, true);
    SessionsKnowTheirKeys(s);
    hide Closing, StoreOk, InUse, MayPutPod, Consistent, SettledUpTo, IsExpiredList;
    StillListed(s0, s, list, i, now, lasting);
    if lasting { RestIsExpired(s0, s, t, list, i, now, p.id); }
    KeysWithout(s, t, p.id);
    RoundSettles(s0, s, t, list, i, now, lasting, false);
    SettledKeeps(s0, s, list, i, now, lasting);
    hide Keys;
  }

  lemma SessionsKnowTheirKeys(s: StoreState)
    requires StoreOk(s)
    ensures forall x :: x in s.pods.sessions ==> x.key == x.value.id
  {}

  lemma KeysWithout(s: StoreState, t: StoreState, id: string)
    requires forall x :: x in t.pods.sessions <==> x in s.pods.sessions && x.key != id
    ensures Keys(t.pods.sessions) == Keys(s.pods.sessions) - {id}
  {
    forall k ensures k in Keys(t.pods.sessions) <==> k in Keys(s.pods.sessions) && k != id {
      if k in Keys(s.pods.sessions) && k != id {
        var x :| x in s.pods.sessions && x.key == k;
        assert x in t.pods.sessions;
      }
    }
  }

  // The listing before the round keeps everything settled.
  lemma ListingSettles(s0: StoreState, s: StoreState, t: StoreState, list: seq<PodSession>, i: nat, now: Time, lasting: bool)
    requires i <= |list| && SettledUpTo(s0, s, list, i, now, lasting) && SameLiveViewers(s, t, now) && t.pods == s.pods
    ensures SettledUpTo(s0, t, list, i, now, lasting)
  {}

  // ----- how many were closed -----

  /** The sessions expired and idle at the instant. */
  ghost function IdleKeys(s: StoreState, now: Time): set<string> {
    set x | x in s.pods.sessions && Expired(x.expiresAt, now) && !InUse(s, x.key, now) :: x.key
  }

  ghost function ClosedIds(s0: StoreState, list: seq<PodSession>, i: nat, now: Time): set<string>
    requires i <= |list|
  {
    set j | 0 <= j < i && !InUse(s0, list[j].id, now) :: list[j].id
  }

  lemma NextId(s0: StoreState, list: seq<PodSession>, i: nat, now: Time)
    requires IsExpiredList(s0, list, now) && i < |list|
    ensures |ClosedIds(s0, list, i + 1, now)| == |ClosedIds(s0, list, i, now)| + if InUse(s0, list[i].id, now) then 0 else 1
  {
    hide InUse;
    var before, after := ClosedIds(s0, list, i, now), ClosedIds(s0, list, i + 1, now);
    if InUse(s0, list[i].id, now) {
      assert after == before;
    } else {
      assert after == before + {list[i].id} && list[i].id !in before;
    }
  }

  lemma AllClosed(s0: StoreState, list: seq<PodSession>, now: Time)
    requires StoreOk(s0) && IsExpiredList(s0, list, now)
    ensures ClosedIds(s0, list, |list|, now) == IdleKeys(s0, now)
  {
    SessionsKnowTheirKeys(s0);
    hide InUse, StoreOk;
    forall k ensures k in ClosedIds(s0, list, |list|, now) <==> k in IdleKeys(s0, now) {
      if k in ClosedIds(s0, list, |list|, now) {
        var j :| 0 <= j < |list| && !InUse(s0, list[j].id, now) && list[j].id == k;
        assert SlotOf(list[j]) in s0.pods.sessions;
      }
      if k in IdleKeys(s0, now) {
        var x :| x in s0.pods.sessions && Expired(x.expiresAt, now) && !InUse(s0, x.key, now) && x.key == k;
        var j :| 0 <= j < |list| && list[j] == x.value;
      }
    }
  }

  // ----- what one round does to the pods -----

  ghost predicate ClosedBefore(s0: StoreState, p: Pod, list: seq<PodSession>, i: nat, now: Time)
    requires i <= |list|
  {
    exists j :: 0 <= j < i && !InUse(s0, list[j].id, now) && Named(p, list[j].namespace, list[j].podName)
  }

  /** The pods after the sessions before index i were settled. */
  ghost predicate PodsUpTo(s0: StoreState, pods0: seq<Pod>, pods: seq<Pod>, list: seq<PodSession>, i: nat, now: Time)
    requires i <= |list|
  {
    && Aged(pods0, pods)
    && (forall k :: 0 <= k < |pods0| ==> (pods[k].deleting <==> pods0[k].deleting || ClosedBefore(s0, pods0[k], list, i, now)))
    && (forall j :: 0 <= j < i && InUse(s0, list[j].id, now) ==> Exists(pods0, list[j].namespace, list[j].podName))
  }

  lemma PodsUntouched(s0: StoreState, pods: seq<Pod>, list: seq<PodSession>, now: Time)
    ensures PodsUpTo(s0, pods, pods, list, 0, now)
  {}

  lemma PodsAfterRefresh(
    s0: StoreState, pods0: seq<Pod>, pods: seq<Pod>, after: seq<Pod>, list: seq<PodSession>, i: nat, now: Time, done: bool)
    requires i < |list| && PodsUpTo(s0, pods0, pods, list, i, now) && InUse(s0, list[i].id, now)
    requires Aged(pods, after) && SameMarks(pods, after) && (done ==> Exists(pods, list[i].namespace, list[i].podName))
    ensures Exists(pods, list[i].namespace, list[i].podName) == Exists(pods0, list[i].namespace, list[i].podName)
    ensures if done then PodsUpTo(s0, pods0, after, list, i + 1, now) else PodsUpTo(s0, pods0, after, list, i, now)
  {
    AgedTwice(pods0, pods, after);
    AgedExist(pods0, pods, list[i].namespace, list[i].podName);
    hide Aged, InUse, Exists;
    forall k | 0 <= k < |pods0| ensures ClosedBefore(s0, pods0[k], list, i + 1, now) <==> ClosedBefore(s0, pods0[k], list, i, now) {}
  }

  lemma PodsAfterClose(
    s0: StoreState, pods0: seq<Pod>, pods: seq<Pod>, list: seq<PodSession>, i: nat, now: Time)
    requires i < |list| && PodsUpTo(s0, pods0, pods, list, i, now) && !InUse(s0, list[i].id, now)
    ensures PodsUpTo(s0, pods0, Deleted(pods, list[i].namespace, list[i].podName), list, i + 1, now)
  {
    var after := Deleted(pods, list[i].namespace, list[i].podName);
    DeletedIsAged(pods, list[i].namespace, list[i].podName);
    AgedTwice(pods0, pods, after);
    forall k | 0 <= k < |pods0|
      ensures after[k].deleting <==> pods0[k].deleting || ClosedBefore(s0, pods0[k], list, i + 1, now)
    {
      assert AgedPod(pods0[k], pods[k]);
      NextClosed(s0, pods0[k], list, i, now);
    }
    hide Aged, InUse, Exists;
  }

  lemma NextClosed(s0: StoreState, p: Pod, list: seq<PodSession>, i: nat, now: Time)
    requires i < |list| && !InUse(s0, list[i].id, now)
    ensures ClosedBefore(s0, p, list, i + 1, now) <==>
      ClosedBefore(s0, p, list, i, now) || Named(p, list[i].namespace, list[i].podName)
  {
    hide InUse;
  }

  // Whatever was closed was expired and idle, and at the end everything was.
  lemma ClosedWereIdle(s0: StoreState, pods0: seq<Pod>, pods: seq<Pod>, list: seq<PodSession>, i: nat, now: Time)
    requires StoreOk(s0) && i <= |list| && IsExpiredList(s0, list, now) && PodsUpTo(s0, pods0, pods, list, i, now)
    ensures Aged(pods0, pods) && IdleMarked(s0, pods0, pods, now, false)
    ensures i == |list| ==> IdleMarked(s0, pods0, pods, now, true) && PodsStillThere(s0, pods0, now)
  {
    SessionsKnowTheirKeys(s0);
    hide InUse, StoreOk, Exists, Aged;
    assert |pods| == |pods0| by { assert Aged(pods0, pods); }
    forall k | 0 <= k < |pods0| && pods[k].deleting && !pods0[k].deleting ensures PodOfIdle(s0, pods0[k], now) {
      var j :| 0 <= j < i && !InUse(s0, list[j].id, now) && Named(pods0[k], list[j].namespace, list[j].podName);
      assert SlotOf(list[j]) in s0.pods.sessions;
    }
    if i == |list| {
      forall k | 0 <= k < |pods0| && PodOfIdle(s0, pods0[k], now) ensures pods[k].deleting {
        var x :| x in s0.pods.sessions && Expired(x.expiresAt, now) && !InUse(s0, x.key, now)
          && Named(pods0[k], x.value.namespace, x.value.podName);
        var j :| 0 <= j < |list| && list[j] == x.value;
      }
    }
  }

  lemma LostPod(s0: StoreState, pods0: seq<Pod>, list: seq<PodSession>, i: nat, now: Time)
    requires StoreOk(s0) && IsExpiredList(s0, list, now) && i < |list| && InUse(s0, list[i].id, now)
    requires !Exists(pods0, list[i].namespace, list[i].podName)
    ensures !PodsStillThere(s0, pods0, now)
  {
    hide InUse, StoreOk, Exists;
    assert SlotOf(list[i]) in s0.pods.sessions;
  }

  // The listing that opens a round keeps everything settled and tells whether the next session is in use.
  lemma RoundOpens(s0: StoreState, s: StoreState, list: seq<PodSession>, i: nat, visited: seq<string>, now: Time, lasting: bool)
    requires Consistent(s) && i < |list| && SettledUpTo(s0, s, list, i, now, lasting)
    requires IsOp(s, StoreOp.ListViewerSessionsByPod(list[i].id, visited, now))
    ensures var t := Step(s, StoreOp.ListViewerSessionsByPod(list[i].id, visited, now));
      && Consistent(t) && SettledUpTo(s0, t, list, i, now, lasting) && SlotOf(list[i]) in t.pods.sessions
      && SameLiveViewers(s0, t, now) && InUseKept(s0, t, now)
      && (InUse(t, list[i].id, now) <==> InUse(s0, list[i].id, now))
      && (Listed(s.viewers.sessions, visited, now) != [] <==> InUse(s0, list[i].id, now))
  {
    var op := StoreOp.ListViewerSessionsByPod(list[i].id, visited, now);
    ConsistentStep(s, op);
    StoredAs(s, list[i]);
    ListingTellsUse(s, list[i].id, visited, now);
    var t := Step(s, op);
    hide Step, Consistent, Listed, InUse, SettledUpTo, SameLiveViewers;
    ListingSettles(s0, s, t, list, i, now, lasting);
    SettledKeeps(s0, s, list, i, now, lasting);
    SettledKeeps(s0, t, list, i, now, lasting);
    SameUse(s0, s, now);
    SameUse(s0, t, now);
  }

  lemma StoredAs(s: StoreState, p: PodSession)
    requires StoreOk(s) && SlotOf(p) in s.pods.sessions
    ensures Find(s.pods.sessions, p.id) == Some(SlotOf(p)) && p.id in Keys(s.pods.sessions)
    ensures forall later: Time, expiry: Time :: MayPutPod(s, p.(lastActiveAt := later, expiresAt := expiry)) && MayPutPod(s, p)
    ensures forall later: Time :: MayPutPod(s, p.(status := PodTerminating, updatedAt := later))
  {
    FindIs(s.pods.sessions, SlotOf(p));
  }

  class CleanupService {
    const pods: PodService

    constructor (pods: PodService)
      ensures this.pods == pods
    {
      this.pods := pods;
    }

    /**
     * Closes every expired session no live viewer uses, and refreshes those in use. Only pods of idle
     * expired sessions are marked. It fails at the first one in use whose pod is gone, and with an API
     * that works at nothing else.
     */
    method CleanupIdlePods(now: Time) returns (ok: bool, deleted: nat)
      requires pods.Inv() && now <= pods.api.time
      modifies pods.Repr()
      ensures pods.Inv() && old(pods.api.time) <= pods.api.time
      ensures SameLiveViewers(old(pods.store.State()), pods.store.State(), now)
      ensures InUseKept(old(pods.store.State()), pods.store.State(), now)
      ensures ok && 0 <= now && 0 < pods.cfg.podKeepaliveGrace ==>
        ExpiredSettled(old(pods.store.State()), pods.store.State(), now)
      ensures ok ==> deleted == |IdleKeys(old(pods.store.State()), now)|
      ensures Aged(old(pods.api.pods), pods.api.pods)
      ensures IdleMarked(old(pods.store.State()), old(pods.api.pods), pods.api.pods, now, ok)
      ensures ok ==> PodsStillThere(old(pods.store.State()), old(pods.api.pods), now)
      ensures AlwaysWorks(pods.api.script) && PodsStillThere(old(pods.store.State()), old(pods.api.pods), now) ==> ok
    {
      hide StoreOk, Consistent, Orderly, Aged, Step, Store.State, Store.Wired, SettledUpTo, SameLiveViewers, InUseKept, InUse,
        IsExpiredList, MayPutPod, Find, Keys, ExpiredValues, Listed, ExpiredSettled, Closing, PodsUpTo, IdleMarked, PodsStillThere,
        SameMarks, Deleted, Exists, AlwaysWorks, IdleKeys;
      deleted := 0;
      ghost var s0, pods0 := pods.store.State(), pods.api.pods;
      var list := pods.store.ListExpiredPodSessions(now);
      ListedExpired(s0, list, now);
      ghost var lasting := 0 <= now && 0 < pods.cfg.podKeepaliveGrace;
      NothingSettled(s0, list, now, lasting);
      PodsUntouched(s0, pods0, list, now);
      for i := 0 to |list|
        invariant pods.Inv() && now <= pods.api.time && old(pods.api.time) <= pods.api.time
        invariant SettledUpTo(s0, pods.store.State(), list, i, now, lasting)
        invariant PodsUpTo(s0, pods0, pods.api.pods, list, i, now)
        invariant deleted == |ClosedIds(s0, list, i, now)|
      {
        NextId(s0, list, i, now);
        ghost var s, pods1 := pods.store.State(), pods.api.pods;
        var viewers, visited := pods.store.ListViewerSessionsByPod(list[i].id, now);
        ghost var t := pods.store.State();
        RoundOpens(s0, s, list, i, visited, now, lasting);
        StoredAs(t, list[i]);
        if |viewers| > 0 {
          var refreshed := pods.RefreshPodSessionKeepalive(list[i]);
          PodsAfterRefresh(s0, pods0, pods1, pods.api.pods, list, i, now, refreshed.Success?);
          if refreshed.Failure? {
            ClosedWereIdle(s0, pods0, pods.api.pods, list, i, now);
            if !Exists(pods0, list[i].namespace, list[i].podName) { LostPod(s0, pods0, list, i, now); }
            return false, deleted;
          }
          RefreshSettles(s0, t, list, i, now, refreshed.value, lasting);
          continue;
        }
        var closed := pods.ClosePodSession(list[i].id);
        CloseSettles(s0, t, list, i, now, list[i].(status := PodTerminating, updatedAt := pods.api.time), lasting);
        PodsAfterClose(s0, pods0, pods1, list, i, now);
        if closed.Failure? {
          ClosedWereIdle(s0, pods0, pods.api.pods, list, if pods.api.pods == pods1 then i else i + 1, now);
          return false, deleted;
        }
        deleted := deleted + 1;
      }
      SettledKeeps(s0, pods.store.State(), list, |list|, now, lasting);
      ClosedWereIdle(s0, pods0, pods.api.pods, list, |list|, now);
      AllClosed(s0, list, now);
      if lasting { AllSettled(s0, pods.store.State(), list, now); }
      return true, deleted;
    }

    /**
     * One cleanup run, at the instant it starts. With a positive grace no session in use is lost,
     * every expired idle one is closed, and every expired one in use is kept with a later expiry.
     * With an API that works it succeeds if and only if each of the latter still has its pod; it
     * marks no pod but those reconciliation asks to delete and those of expired idle sessions.
     */
    method RunOnce() returns (ok: bool, ghost at: Time, ghost seen: Time)
      requires pods.Inv()
      modifies pods.Repr()
      ensures pods.Inv() && old(pods.api.time) <= at <= seen <= pods.api.time
      ensures ok ==> NothingExpired(pods.store.State(), at)
      ensures 0 <= at && 0 < pods.cfg.podKeepaliveGrace ==>
        && InUseKept(old(pods.store.State()), pods.store.State(), at)
        && (ok ==> ExpiredSettled(old(pods.store.State()), pods.store.State(), at))
      ensures Aged(old(pods.api.pods), pods.api.pods)
      ensures RunMarked(old(pods.store.State()), old(pods.api.pods), pods.api.pods, at,
        Unspared(old(pods.api.pods), old(pods.store.State()), Query("", None, None, None), pods.runtimeVersion, seen, pods.cfg.orphanGrace), ok)
      ensures ok ==> PodsStillThere(old(pods.store.State()), old(pods.api.pods), at)
      ensures AlwaysWorks(pods.api.script) && PodsStillThere(old(pods.store.State()), old(pods.api.pods), at) ==> ok
    {
      hide StoreOk, Consistent, Orderly, Aged, Step, Store.State, Store.Wired, SameLiveViewers, InUseKept, InUse,
        ExpiredSettled, NothingExpired, Resynchronized, Unspared, Marked, IdleMarked, RunMarked, PodsStillThere, AlwaysWorks;
      ghost var s0, pods0 := pods.store.State(), pods.api.pods;
      var now := pods.api.Now();
      at := now;
      var reconciled, asked, marked := pods.ReconcileViewerPods("");
      seen := asked;
      ghost var unspared := Unspared(pods0, s0, Query("", None, None, None), pods.runtimeVersion, seen, pods.cfg.orphanGrace);
      ResyncKeeps(s0, pods.store.State(), now);
      MarkedIsAged(pods0, marked);
      if !reconciled {
        ReconciledOnly(s0, pods0, now, marked, unspared);
        return false, at, seen;
      }
      ghost var s1 := pods.store.State();
      var cleaned, _ := CleanupIdlePods(now);
      ghost var s2 := pods.store.State();
      KeptThrough(s0, s1, s2, now);
      AgedTwice(pods0, Marked(pods0, unspared), pods.api.pods);
      RunMarks(s0, s1, pods0, pods.api.pods, now, unspared, cleaned);
      if !cleaned {
        return false, at, seen;
      }
      ConsistentStep(s2, StoreOp.PurgeExpired(now));
      PurgeLeavesLive(s2, now);
      if 0 <= now && 0 < pods.cfg.podKeepaliveGrace { PurgeEndsRun(s0, s1, s2, now); }
      var _ := pods.store.PurgeExpired(now);
      return true, at, seen;
    }
  }

  /** A run marks only pods reconciliation asks to delete and pods of expired idle sessions, and when done all of them. */
  ghost predicate RunMarked(s: StoreState, before: seq<Pod>, after: seq<Pod>, now: Time, unspared: set<Pod>, done: bool) {
    && |after| == |before|
    && (forall k :: 0 <= k < |before| && after[k].deleting ==>
        before[k].deleting || before[k] in unspared || PodOfIdle(s, before[k], now))
    && (done ==> forall k :: 0 <= k < |before| && (before[k] in unspared || PodOfIdle(s, before[k], now)) ==> after[k].deleting)
  }

  lemma ReconciledOnly(s: StoreState, pods0: seq<Pod>, now: Time, marked: set<Pod>, unspared: set<Pod>)
    requires marked <= unspared
    ensures RunMarked(s, pods0, Marked(pods0, marked), now, unspared, false)
  {
    hide PodOfIdle;
  }

  lemma RunMarks(s0: StoreState, s1: StoreState, pods0: seq<Pod>, pods: seq<Pod>, now: Time, unspared: set<Pod>, done: bool)
    requires StoreOk(s0) && StoreOk(s1) && Resynchronized(s0, s1)
    requires Aged(Marked(pods0, unspared), pods) && IdleMarked(s1, Marked(pods0, unspared), pods, now, done)
    ensures RunMarked(s0, pods0, pods, now, unspared, done)
    ensures PodsStillThere(s1, Marked(pods0, unspared), now) == PodsStillThere(s0, pods0, now)
  {
    var pods1 := Marked(pods0, unspared);
    UseIsSame(s0, s1, now);
    MarkedIsAged(pods0, unspared);
    assert forall k :: 0 <= k < |pods1| ==> pods1[k].deleting ==> pods[k].deleting;
    hide InUse, StoreOk, Aged, Exists, PodsStillThere, Marked;
    forall k | 0 <= k < |pods0| ensures PodOfIdle(s0, pods0[k], now) == PodOfIdle(s1, pods1[k], now) {
      SameIdle(s0, s1, pods0[k], pods1[k], now);
    }
    hide PodOfIdle;
    SameThere(s0, s1, pods0, pods1, now);
  }

  // A stored session and what it is seen as again.
  lemma SeenAgain(s0: StoreState, s1: StoreState, x: Slot<string, PodSession>) returns (y: Slot<string, PodSession>)
    requires StoreOk(s0) && Resynchronized(s0, s1) && x in s0.pods.sessions
    ensures y in s1.pods.sessions && y.key == x.key && y.expiresAt == x.expiresAt && Resynced(x.value, y.value)
  {
    assert x.key in Keys(s0.pods.sessions);
    y :| y in s1.pods.sessions && y.key == x.key;
    assert ResyncedSlot(s0.pods.sessions, y);
    FindIs(s0.pods.sessions, x);
  }

  lemma SeenBefore(s0: StoreState, s1: StoreState, y: Slot<string, PodSession>) returns (x: Slot<string, PodSession>)
    requires Resynchronized(s0, s1) && y in s1.pods.sessions
    ensures x in s0.pods.sessions && y.key == x.key && y.expiresAt == x.expiresAt && Resynced(x.value, y.value)
  {
    assert ResyncedSlot(s0.pods.sessions, y);
    x := Find(s0.pods.sessions, y.key).value;
  }

  lemma SameIdle(s0: StoreState, s1: StoreState, p: Pod, q: Pod, now: Time)
    requires StoreOk(s0) && Resynchronized(s0, s1) && q.namespace == p.namespace && q.name == p.name
    ensures PodOfIdle(s0, p, now) == PodOfIdle(s1, q, now)
  {
    UseIsSame(s0, s1, now);
    hide InUse, StoreOk, Resynchronized;
    if PodOfIdle(s0, p, now) {
      var x :| x in s0.pods.sessions && Expired(x.expiresAt, now) && !InUse(s0, x.key, now) && Named(p, x.value.namespace, x.value.podName);
      var y := SeenAgain(s0, s1, x);
    }
    if PodOfIdle(s1, q, now) {
      var y :| y in s1.pods.sessions && Expired(y.expiresAt, now) && !InUse(s1, y.key, now) && Named(q, y.value.namespace, y.value.podName);
      var x := SeenBefore(s0, s1, y);
    }
  }

  lemma SameThere(s0: StoreState, s1: StoreState, pods0: seq<Pod>, pods1: seq<Pod>, now: Time)
    requires StoreOk(s0) && Resynchronized(s0, s1) && Aged(pods0, pods1)
    ensures PodsStillThere(s1, pods1, now) == PodsStillThere(s0, pods0, now)
  {
    UseIsSame(s0, s1, now);
    forall namespace, name ensures Exists(pods0, namespace, name) == Exists(pods1, namespace, name) {
      AgedExist(pods0, pods1, namespace, name);
    }
    hide InUse, StoreOk, Resynchronized, Aged, Exists;
    if PodsStillThere(s1, pods1, now) {
      forall x | x in s0.pods.sessions && Expired(x.expiresAt, now) && InUse(s0, x.key, now)
        ensures Exists(pods0, x.value.namespace, x.value.podName)
      {
        var y := SeenAgain(s0, s1, x);
      }
    }
    if PodsStillThere(s0, pods0, now) {
      forall y | y in s1.pods.sessions && Expired(y.expiresAt, now) && InUse(s1, y.key, now)
        ensures Exists(pods1, y.value.namespace, y.value.podName)
      {
        var x := SeenBefore(s0, s1, y);
      }
    }
  }

  // Looking at sessions again changes neither who is in use nor what is expired.
  lemma ResyncKeeps(s: StoreState, t: StoreState, now: Time)
    requires Resynchronized(s, t)
    ensures InUseKept(s, t, now) && t.viewers == s.viewers
  {}

  lemma KeptThrough(s0: StoreState, s1: StoreState, s2: StoreState, now: Time)
    requires Resynchronized(s0, s1) && InUseKept(s1, s2, now)
    ensures InUseKept(s0, s2, now)
  {}

  lemma PurgeEndsRun(s0: StoreState, s1: StoreState, s2: StoreState, now: Time)
    requires StoreOk(s0) && StoreOk(s1) && StoreOk(s2) && Resynchronized(s0, s1)
    requires InUseKept(s1, s2, now) && ExpiredSettled(s1, s2, now)
    ensures var t := Step(s2, StoreOp.PurgeExpired(now));
      NothingExpired(t, now) && InUseKept(s0, t, now) && ExpiredSettled(s0, t, now)
  {
    var t := Step(s2, StoreOp.PurgeExpired(now));
    PurgeLeavesLive(s2, now);
    PurgeFindsNothing(s2, now);
    hide Step, StoreOk, NothingExpired, InUse;
    forall x | x in s0.pods.sessions && Expired(x.expiresAt, now) ensures x.key in Keys(t.pods.sessions) <==> InUse(s1, x.key, now) {
      var _ := SeenAgain(s0, s1, x);
    }
    hide Keys;
    UseIsSame(s0, s1, now);
  }

  lemma UseIsSame(s0: StoreState, s1: StoreState, now: Time)
    requires s0.viewers == s1.viewers
    ensures forall id :: InUse(s0, id, now) <==> InUse(s1, id, now)
  {}

  lemma PurgeFindsNothing(s: StoreState, now: Time)
    requires forall x :: x in s.pods.sessions ==> !Expired(x.expiresAt, now)
    ensures Step(s, StoreOp.PurgeExpired(now)).pods.sessions == s.pods.sessions
  {
    assert DeadKeys(s.pods.sessions, now) == {};
    KeepNone(s.pods.sessions, DeadKeys(s.pods.sessions, now));
  }

  lemma PurgedList<V(!new)>(list: Recency<string, V>, now: Time)
    ensures forall x :: x in AfterPurge(list, now) ==> !Expired(x.expiresAt, now)
  {}

  lemma PurgeLeavesLive(s: StoreState, now: Time)
    ensures NothingExpired(Step(s, StoreOp.PurgeExpired(now)), now)
  {
    PurgedList(s.pods.sessions, now);
    PurgedList(s.pods.byPVC, now);
    PurgedList(s.viewers.sessions, now);
    PurgedList(s.auths.requests, now);
    PurgedList(DropTokens(s.tokens, DeadKeys(s.viewers.sessions, now)).records, now);
    hide AfterPurge, DropTokens, DeadKeys;
  }

  /**
   * The pod that is missing: one expired session in use whose pod vanished fails every run, with an
   * API that always works; with its pod there is nothing in the way.
   */
  lemma VanishedPodFailsTheRun(c: Capacities, p: PodSession, v: ViewerSession, now: Time)
    requires Expired(p.expiresAt, now) && v.podSessionID == p.id && !Expired(v.expiresAt, now)
    ensures var s := Step(Step(Empty(c), StoreOp.PutPodSession(p)), StoreOp.PutViewerSession(v));
      && Consistent(s) && Orderly([]) && !PodsStillThere(s, [], now)
      && Orderly([PodFor(p)]) && PodsStillThere(s, [PodFor(p)], now)
  {
    var s0 := Empty(c);
    EmptyIsConsistent(c);
    PutFresh(s0, p);
    var s1 := Step(s0, StoreOp.PutPodSession(p));
    var s := Step(s1, StoreOp.PutViewerSession(v));
    ConsistentStep(s1, StoreOp.PutViewerSession(v));
    ViewerIndex.PutViewerIndex(s1.viewers, v);
    assert SlotOf(p) in s.pods.sessions;
    assert InUse(s, p.id, now) by { assert Slot(v.id, v, v.expiresAt) in s.viewers.sessions; }
    assert forall x :: x in s.pods.sessions ==> x == SlotOf(p);
    assert Named([PodFor(p)][0], p.namespace, p.podName);
  }

  lemma SettledKeeps(s0: StoreState, s: StoreState, list: seq<PodSession>, i: nat, now: Time, lasting: bool)
    requires i <= |list| && SettledUpTo(s0, s, list, i, now, lasting)
    ensures SameLiveViewers(s0, s, now) && InUseKept(s0, s, now)
    ensures i < |list| ==> SlotOf(list[i]) in s.pods.sessions
  {}

  /** The grace must be positive: a session refreshed to an expiry not past the instant is lost to the purge, whoever uses it. */
  lemma RefreshWithoutGraceIsPurged(s: StoreState, p: PodSession, now: Time)
    requires Consistent(s) && MayPutPod(s, p) && Expired(p.expiresAt, now)
    ensures p.id !in Keys(Step(Step(s, StoreOp.PutPodSession(p)), StoreOp.PurgeExpired(now)).pods.sessions)
  {
    PutPodFacts(s, p);
    ConsistentStep(s, StoreOp.PutPodSession(p));
    var t := Step(s, StoreOp.PutPodSession(p));
    assert t.pods == PutPod(s.pods, p);
    hide PutPod, Consistent, MayPutPod, Keep;
    assert SlotOf(p) in t.pods.sessions && p.id in DeadKeys(t.pods.sessions, now);
    KeysAre(AfterPurge(t.pods.sessions, now));
  }
}
