/** The PVC index of pod sessions: when no entry leads to a session of another PVC, over every run of the store. */
module PvcIndex {
  import opened Results
  import opened Cache
  import opened StoreModel
  import opened StoreInvariants
  import opened PvcEntries

  // ----- one put -----

  /** No entry that outlives the put leads to its id under another key, unless the id is stored. */
  ghost predicate LeadsHome(t: PodTable, p: PodSession) {
    || p.id in Keys(t.sessions)
    || forall e :: e in t.byPVC && e.value == p.id && Evicted(t.byPVC, t.indexCapacity, KeyOf(p)) != Some(e.key) ==> e.key == KeyOf(p)
  }

  /** The entries and sessions after a put. */
  lemma PutEntries(t: PodTable, p: PodSession)
    requires PodsOk(t)
    ensures forall x :: x in PutPod(t, p).sessions ==> x == PodSlot(p) || (x in t.sessions && x.key != p.id)
    ensures PodSlot(p) in PutPod(t, p).sessions
    ensures var index := BeforePut(t, p);
      && (forall e :: e in index <==> e in t.byPVC && !MovedFrom(t, p, e.key))
      && forall e :: e in PutPod(t, p).byPVC <==>
        e == EntryOf(p) || (e in index && e.key != KeyOf(p) && Evicted(index, t.indexCapacity, KeyOf(p)) != Some(e.key))
  {
    PutOk(t.sessions, t.capacity, PodSlot(p));
    hide AfterPut, KeyOf, Keys, Evicted, Keep;
    match Find(t.sessions, p.id) {
      case None =>
      case Some(prior) => KeepOk(t.byPVC, t.indexCapacity, {KeyOf(prior.value)});
    }
    PutFacts(BeforePut(t, p), t.indexCapacity, EntryOf(p));
  }

  ghost predicate MovedFrom(t: PodTable, p: PodSession, key: string) { StoredFor(t, p.id, key) && KeyOf(p) != key }

  /** A put keeps every entry true to its claim if and only if it leads home. */
  lemma PutAgreesExactly(t: PodTable, p: PodSession)
    requires PodsOk(t) && Agrees(t)
    ensures Agrees(PutPod(t, p)) <==> LeadsHome(t, p)
  {
    var t' := PutPod(t, p);
    PutEntries(t, p);
    hide PutPod, KeyOf, Evicted;
    if p.id in Keys(t.sessions) {
      var prior := Find(t.sessions, p.id).value;
      assert prior in t.sessions && prior.key == p.id;
      hide Keys, BeforePut;
      assert forall e :: e in t.byPVC && e.value == p.id ==> e.key == KeyOf(prior.value);
    } else {
      assert BeforePut(t, p) == t.byPVC;
      if Agrees(t') { AgreedEntriesLeadHome(t, p); }
    }
  }

  lemma AgreedEntriesLeadHome(t: PodTable, p: PodSession)
    requires PodsOk(t) && p.id !in Keys(t.sessions) && Agrees(PutPod(t, p))
    ensures LeadsHome(t, p)
  {
    PutEntries(t, p);
    var t' := PutPod(t, p);
    hide PutPod, KeyOf, Evicted, PodsOk;
    forall e | e in t.byPVC && e.value == p.id && Evicted(t.byPVC, t.indexCapacity, KeyOf(p)) != Some(e.key)
      ensures e.key == KeyOf(p)
    {
      assert e.key != KeyOf(p) ==> e in t'.byPVC && PodSlot(p) in t'.sessions;
    }
  }

  // ----- the other calls -----

  ghost predicate Fewer(t: PodTable, t': PodTable) {
    && (forall x :: x in t'.sessions ==> x in t.sessions)
    && (forall e :: e in t'.byPVC ==> e in t.byPVC)
  }

  lemma FewerAfter(s: StoreState, op: StoreOp)
    requires StoreOk(s) && !op.PutPodSession?
    ensures Fewer(s.pods, Step(s, op).pods)
  {
    var t := s.pods;
    hide AfterGet, Keep;
    match op
    case GetPodSession(id, now) => GetOk(t.sessions, t.capacity, id, now);
    case FindPodSessionByPVC(ns, uid, now) => FewerAfterFind(t, PvcKey(ns, uid), now);
    case _ =>
  }

  lemma FewerAfterFind(t: PodTable, key: string, now: Time)
    requires PodsOk(t)
    ensures Fewer(t, FindByPVC(t, key, now))
  {
    GetOk(t.byPVC, t.indexCapacity, key, now);
    hide AfterGet;
    match Lookup(t.byPVC, key, now)
    case None =>
    case Some(id) => GetOk(t.sessions, t.capacity, id, now);
  }

  lemma StepAgreesExactly(s: StoreState, op: StoreOp)
    requires StoreOk(s) && Agrees(s.pods)
    ensures Agrees(Step(s, op).pods) <==> (op.PutPodSession? ==> LeadsHome(s.pods, op.pod))
  {
    if op.PutPodSession? {
      PutAgreesExactly(s.pods, op.pod);
      hide PutPod, LeadsHome, StoreOk, Agrees;
    } else {
      FewerAfter(s, op);
      hide Step, StoreOk;
    }
  }

  // ----- every run -----

  /** Every put of the run leads home in the state it is made in. */
  ghost predicate PutsLeadHome(c: Capacities, ops: seq<StoreOp>) {
    ops == []
    || var before, op := ops[..|ops| - 1], ops[|ops| - 1];
       PutsLeadHome(c, before) && (op.PutPodSession? ==> LeadsHome(After(c, before).pods, op.pod))
  }

  /** No entry leads to a session of another claim, after the run and after every part of it. */
  ghost predicate AlwaysAgrees(c: Capacities, ops: seq<StoreOp>) {
    Agrees(After(c, ops).pods) && (ops == [] || AlwaysAgrees(c, ops[..|ops| - 1]))
  }

  /** No entry ever leads to a session of another claim if and only if every put leads home. */
  lemma {:induction false} AgreesExactly(c: Capacities, ops: seq<StoreOp>)
    ensures AlwaysAgrees(c, ops) <==> PutsLeadHome(c, ops)
  {
    if ops != [] {
      var n := |ops| - 1;
      AgreesExactly(c, ops[..n]);
      TraceOk(c, ops[..n]);
      AfterLast(c, ops);
      hide After, Step, StoreOk, Agrees, LeadsHome;
      if AlwaysAgrees(c, ops[..n]) { StepAgreesExactly(After(c, ops[..n]), ops[n]); }
    }
  }

  /** Namespaces hold no slash. */
  predicate SlashFree(ops: seq<StoreOp>) {
    forall i :: 0 <= i < |ops| && ops[i].PutPodSession? ==> '/' !in ops[i].pod.namespace
  }

  lemma {:induction false} PutsAreSlashFree(ops: seq<StoreOp>, id: string)
    requires SlashFree(ops) && LastPutOf(ops, id).Some?
    ensures '/' !in LastPutOf(ops, id).value.namespace
  {
    var n := |ops| - 1;
    if !PutsId(ops[n], id) {
      assert forall i :: 0 <= i < n ==> ops[..n][i] == ops[i];
      PutsAreSlashFree(ops[..n], id);
    }
  }

  /**
   * When every put leads home, a lookup returns a session if and only if it is the one last put for
   * the claim, no call dropped the key since, and it is still stored and live.
   */
  lemma FoundExactly(c: Capacities, ops: seq<StoreOp>, key: string, now: Time, p: PodSession)
    requires PutsLeadHome(c, ops)
    ensures FoundByPVC(After(c, ops).pods, key, now) == Some(p) <==>
      LastPutFor(ops, key) == Some(p) && Kept(c, ops, key) && StoredAndLive(After(c, ops).pods, p.id, p, now)
  {
    var t := After(c, ops).pods;
    LookupIsExact(c, ops, key, now, p);
    hide After, Kept, LastPutFor, LastPutOf, PutsLeadHome, KeyOf;
    if LastPutFor(ops, key) == Some(p) { LastPutHasKey(ops, key); }
    if FoundByPVC(t, key, now) == Some(p) { FoundIsLastPut(c, ops, key, now, p); }
  }

  lemma FoundIsLastPut(c: Capacities, ops: seq<StoreOp>, key: string, now: Time, p: PodSession)
    requires PutsLeadHome(c, ops) && FoundByPVC(After(c, ops).pods, key, now) == Some(p)
    ensures KeyOf(p) == key && LastPutFor(ops, key) == Some(p) && LastPutOf(ops, p.id) == Some(p)
    ensures StoredAndLive(After(c, ops).pods, p.id, p, now)
  {
    var t := After(c, ops).pods;
    AgreesExactly(c, ops);
    IndexHoldsLastPut(c, ops, key);
    StoredIsLastPut(c, ops);
    TraceOk(c, ops);
    hide After, Find, KeyOf, Kept, LastPutFor, LastPutOf, PutsLeadHome;
    var e, x := Find(t.byPVC, key).value, Find(t.sessions, p.id).value;
    assert e in t.byPVC && x in t.sessions && x.value == p;
    LastOfBoth(ops, p, LastPutFor(ops, key).value);
  }

  lemma {:induction false} LastPutHasKey(ops: seq<StoreOp>, key: string)
    requires LastPutFor(ops, key).Some?
    ensures KeyOf(LastPutFor(ops, key).value) == key
  {
    if !PutsFor(ops[|ops| - 1], key) { LastPutHasKey(ops[..|ops| - 1], key); }
  }

  /**
   * A lookup by PVC only ever returns a stored, unexpired session of exactly that PVC, the one last
   * put for it, whatever evictions, expiries, purges and deletes left dangling in the index.
   */
  lemma FindReturnsThatPvc(c: Capacities, ops: seq<StoreOp>, namespace: string, pvcUID: string, now: Time)
    requires PutsLeadHome(c, ops) && SlashFree(ops) && '/' !in namespace
    ensures var t := After(c, ops).pods;
      match FoundByPVC(t, PvcKey(namespace, pvcUID), now)
      case None => true
      case Some(p) =>
        && p.namespace == namespace && p.pvcUID == pvcUID
        && !Expired(p.expiresAt, now) && Slot(p.id, p, p.expiresAt) in t.sessions
        && LastPutFor(ops, PvcKey(namespace, pvcUID)) == Some(p)
  {
    hide After, PvcKey, FoundByPVC, LastPutFor, LastPutOf, SlashFree, PutsLeadHome;
    match FoundByPVC(After(c, ops).pods, PvcKey(namespace, pvcUID), now)
    case None =>
    case Some(p) =>
      FoundIsLastPut(c, ops, PvcKey(namespace, pvcUID), now, p);
      PutsAreSlashFree(ops, p.id);
      PvcKeyIsInjective(p.namespace, p.pvcUID, namespace, pvcUID);
  }

  // ----- simpler conditions that suffice -----

  predicate PutsAt(op: StoreOp, id: string, key: string) {
    op.PutPodSession? && op.pod.id == id && KeyOf(op.pod) == key
  }

  ghost predicate PutAt(ops: seq<StoreOp>, id: string, key: string) {
    exists i :: 0 <= i < |ops| && PutsAt(ops[i], id, key)
  }

  /** An id that is not stored may only be put for the PVC it was put for before. */
  ghost predicate MayPut(t: PodTable, p: PodSession, ops: seq<StoreOp>) {
    p.id in Keys(t.sessions) || forall key :: PutAt(ops, p.id, key) ==> key == KeyOf(p)
  }

  /** No pod-session id that fell out of the cache is put again for another PVC. */
  ghost predicate NoStaleReput(c: Capacities, ops: seq<StoreOp>) {
    forall i :: 0 <= i < |ops| && ops[i].PutPodSession? ==> MayPut(After(c, ops[..i]).pods, ops[i].pod, ops[..i])
  }

  lemma {:induction false} LastPutWasPut(ops: seq<StoreOp>, key: string)
    requires LastPutFor(ops, key).Some?
    ensures PutAt(ops, LastPutFor(ops, key).value.id, key)
  {
    var n := |ops| - 1;
    if PutsFor(ops[n], key) {
      assert PutsAt(ops[n], ops[n].pod.id, key);
    } else {
      LastPutWasPut(ops[..n], key);
      var i :| 0 <= i < n && PutsAt(ops[..n][i], LastPutFor(ops, key).value.id, key);
      assert ops[..n][i] == ops[i];
    }
  }

  lemma {:induction false} NoStaleReputSuffices(c: Capacities, ops: seq<StoreOp>)
    requires NoStaleReput(c, ops)
    ensures PutsLeadHome(c, ops)
  {
    if ops != [] {
      var n := |ops| - 1;
      ReputPrefix(c, ops);
      hide After, MayPut, LeadsHome, NoStaleReput;
      NoStaleReputSuffices(c, ops[..n]);
      if ops[n].PutPodSession? { MayPutLeadsHome(c, ops[..n], ops[n].pod); }
    }
  }

  lemma ReputPrefix(c: Capacities, ops: seq<StoreOp>)
    requires NoStaleReput(c, ops) && ops != []
    ensures NoStaleReput(c, ops[..|ops| - 1])
    ensures var n := |ops| - 1;
      ops[n].PutPodSession? ==> MayPut(After(c, ops[..n]).pods, ops[n].pod, ops[..n])
  {
    var init := ops[..|ops| - 1];
    hide After, MayPut;
    assert forall i :: 0 <= i < |init| ==> init[i] == ops[i] && init[..i] == ops[..i];
  }

  lemma MayPutLeadsHome(c: Capacities, ops: seq<StoreOp>, p: PodSession)
    requires MayPut(After(c, ops).pods, p, ops)
    ensures LeadsHome(After(c, ops).pods, p)
  {
    var t := After(c, ops).pods;
    TraceOk(c, ops);
    hide After, Evicted, Keys, LastPutFor, Kept, KeyOf, PutAt;
    forall e | e in t.byPVC && e.value == p.id ensures PutAt(ops, p.id, e.key) {
      IndexHoldsLastPut(c, ops, e.key);
      FindIs(t.byPVC, e);
      LastPutWasPut(ops, e.key);
    }
  }

  /** Ids that keep their PVC for good meet the condition. */
  lemma FixedHomesSuffice(c: Capacities, ops: seq<StoreOp>, home: map<string, string>)
    requires forall i :: 0 <= i < |ops| && ops[i].PutPodSession? ==>
      ops[i].pod.id in home && home[ops[i].pod.id] == KeyOf(ops[i].pod)
    ensures NoStaleReput(c, ops) && PutsLeadHome(c, ops)
  {
    forall i | 0 <= i < |ops| && ops[i].PutPodSession? ensures MayPut(After(c, ops[..i]).pods, ops[i].pod, ops[..i]) {
      forall key | PutAt(ops[..i], ops[i].pod.id, key) ensures key == KeyOf(ops[i].pod) {
        var j :| 0 <= j < i && PutsAt(ops[..i][j], ops[i].pod.id, key);
        assert ops[..i][j] == ops[j];
      }
    }
    NoStaleReputSuffices(c, ops);
  }

  // ----- without the condition -----

  function PodSlot(p: PodSession): Slot<string, PodSession> { Slot(p.id, p, p.expiresAt) }

  lemma FindCons<V(!new)>(head: Slot<string, V>, rest: Recency<string, V>, key: string)
    ensures Find([head] + rest, key) == if head.key == key then Some(head) else Find(rest, key)
  {
    assert ([head] + rest)[1..] == rest;
  }

  // A put of a new session into a cache for one session, with room in the index.
  lemma OnlySessionPut(t: PodTable, p: PodSession)
    requires t.capacity == 1 && |t.sessions| <= 1 && p.id !in Keys(t.sessions)
    requires Distinct(t.byPVC) && |t.byPVC| < t.indexCapacity && KeyOf(p) !in Keys(t.byPVC)
    ensures PutPod(t, p) == t.(sessions := [PodSlot(p)], byPVC := [EntryOf(p)] + t.byPVC)
  {
    KeysAre(t.sessions);
    KeysAre(t.byPVC);
    hide Keys, Keep, KeyOf, PvcKey;
    KeepNone(t.sessions, {p.id});
    KeepNone(t.byPVC, {KeyOf(p)});
    assert AfterPut(t.sessions, 1, PodSlot(p)) == [PodSlot(p)];
  }

  // Three puts into a cache for one session: id a for the first PVC, another id, and a again for a third PVC.
  lemma EvictedThenMoved(a: PodSession, b: PodSession, a': PodSession)
    requires a.id == a'.id != b.id
    requires KeyOf(a) != KeyOf(b) && KeyOf(a) != KeyOf(a') && KeyOf(b) != KeyOf(a')
    ensures PutPod(PutPod(PutPod(PodTable(1, [], 3, []), a), b), a')
      == PodTable(1, [PodSlot(a')], 3, [EntryOf(a')] + ([EntryOf(b)] + ([EntryOf(a)] + [])))
  {
    hide KeyOf, PvcKey, PutPod;
    var t0 := PodTable(1, [], 3, []);
    OnlySessionPut(t0, a);
    OnlySessionPut(PutPod(t0, a), b);
    OnlySessionPut(PutPod(PutPod(t0, a), b), a');
  }

  /** The condition is needed: a session evicted and put again for another PVC is still found under the old one. */
  lemma StaleReputIsMisfound(a: PodSession, b: PodSession, a': PodSession, now: Time)
    requires a.id == a'.id != b.id && a.expiresAt == a'.expiresAt == ZERO_TIME
    requires KeyOf(a) != KeyOf(b) && KeyOf(a) != KeyOf(a') && KeyOf(b) != KeyOf(a')
    ensures FoundByPVC(PutPod(PutPod(PutPod(PodTable(1, [], 3, []), a), b), a'), KeyOf(a), now) == Some(a')
  {
    var t := PutPod(PutPod(PutPod(PodTable(1, [], 3, []), a), b), a');
    EvictedThenMoved(a, b, a');
    hide KeyOf, PvcKey, PutPod;
    FindCons(EntryOf(a'), [EntryOf(b)] + ([EntryOf(a)] + []), KeyOf(a));
    FindCons(EntryOf(b), [EntryOf(a)] + [], KeyOf(a));
    FindCons(EntryOf(a), [], KeyOf(a));
    FindCons(PodSlot(a'), [], a.id);
    assert [PodSlot(a')] + [] == [PodSlot(a')];
    hide Find;
  }

  /** Putting two sessions of one claim one after the other and deleting the first loses the second. */
  lemma NewerSessionIsLost(a: PodSession, b: PodSession, now: Time)
    requires a.id != b.id && KeyOf(a) == KeyOf(b) && !Expired(b.expiresAt, now)
    ensures var t := PutPod(PutPod(PodTable(2, [], 2, []), a), b);
      && FoundByPVC(t, KeyOf(b), now) == Some(b)
      && PodSlot(b) in DeletePod(t, a.id).sessions && FoundByPVC(DeletePod(t, a.id), KeyOf(b), now) == None
  {
    var t0 := PodTable(2, [], 2, []);
    var t1 := PodTable(2, [PodSlot(a)], 2, [EntryOf(a)]);
    assert PutPod(t0, a) == t1;
    var t := PutPod(t1, b);
    hide KeyOf, PvcKey;
    assert t.sessions == [PodSlot(b), PodSlot(a)] && t.byPVC == [EntryOf(b)];
    FindCons(PodSlot(b), [PodSlot(a)], a.id);
    KeysAre(DeletePod(t, a.id).byPVC);
  }
}
