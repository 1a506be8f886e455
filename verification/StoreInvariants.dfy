/** What every sequence of store calls keeps true of the caches and their secondary indexes. */
module StoreInvariants {
  import opened Results
  import opened Cache
  import opened StoreModel

  // ----- the shape of each table -----

  ghost predicate ListOk<V(!new)>(s: Recency<string, V>, capacity: nat) {
    1 <= capacity && Distinct(s) && |s| <= capacity
  }

  ghost predicate PodsOk(t: PodTable) {
    && ListOk(t.sessions, t.capacity) && ListOk(t.byPVC, t.indexCapacity)
    && forall x :: x in t.sessions ==> x.value.id == x.key && x.value.expiresAt == x.expiresAt
  }

  ghost predicate ViewersOk(t: ViewerTable) {
    && ListOk(t.sessions, t.capacity)
    && (forall x :: x in t.sessions ==> x.value.id == x.key && x.value.expiresAt == x.expiresAt)
    && (forall pod :: pod in t.byPod ==> t.byPod[pod] != {})
  }

  ghost predicate AuthsOk(t: AuthTable) {
    && ListOk(t.requests, t.capacity)
    && forall x :: x in t.requests ==> x.value.id == x.key && x.value.expiresAt == x.expiresAt
  }

  /** Each record is indexed by its own viewer. */
  ghost predicate TokensOk(t: TokenTable) {
    && ListOk(t.records, t.capacity)
    && forall x :: x in t.records ==>
         && x.value.tokenHash == x.key && x.value.expiresAt == x.expiresAt
         && x.value.viewerSessionID in t.byViewer && t.byViewer[x.value.viewerSessionID] == x.key
  }

  /** No PVC index entry leads to a stored session of another claim. */
  ghost predicate Agrees(t: PodTable) {
    forall e, x :: e in t.byPVC && x in t.sessions && e.value == x.key ==> KeyOf(x.value) == e.key
  }

  /** No stored viewer is indexed under another pod than its own. */
  ghost predicate NoStale(t: ViewerTable) {
    forall pod, x :: x in t.sessions && x.key in ViewersOf(t, pod) ==> x.value.podSessionID == pod
  }

  ghost predicate StoreOk(s: StoreState) {
    PodsOk(s.pods) && ViewersOk(s.viewers) && AuthsOk(s.auths) && TokensOk(s.tokens)
  }

  lemma KeepOk<V(!new)>(s: Recency<string, V>, capacity: nat, dropped: set<string>)
    requires ListOk(s, capacity)
    ensures ListOk(Keep(s, dropped), capacity)
  {
    KeepDistinct(s, dropped);
  }

  lemma GetOk<V(!new)>(s: Recency<string, V>, capacity: nat, key: string, now: Time)
    requires ListOk(s, capacity)
    ensures ListOk(AfterGet(s, key, now), capacity)
    ensures forall x :: x in AfterGet(s, key, now) ==> x in s
    ensures Lookup(s, key, now).None? <==> key !in Keys(AfterGet(s, key, now))
  {
    GetFacts(s, key, now);
  }

  lemma PutOk<V(!new)>(s: Recency<string, V>, capacity: nat, slot: Slot<string, V>)
    requires ListOk(s, capacity)
    ensures ListOk(AfterPut(s, capacity, slot), capacity)
    ensures forall x :: x in AfterPut(s, capacity, slot) ==> x == slot || (x in s && x.key != slot.key)
    ensures slot in AfterPut(s, capacity, slot)
  {
    PutFacts(s, capacity, slot);
  }

  lemma {:induction false} VisitOk(s: Recency<string, ViewerSession>, capacity: nat, ids: seq<string>, now: Time)
    requires ListOk(s, capacity)
    ensures ListOk(Visit(s, ids, now), capacity)
    ensures forall x :: x in Visit(s, ids, now) ==> x in s && (x.key in ids ==> !Expired(x.expiresAt, now))
    ensures forall x :: x in s && (x.key !in ids || !Expired(x.expiresAt, now)) ==> x in Visit(s, ids, now)
  {
    if ids != [] {
      var init, id := ids[..|ids| - 1], ids[|ids| - 1];
      assert forall k :: k in ids <==> k in init || k == id;
      VisitOk(s, capacity, init, now);
      GetFacts(Visit(s, init, now), id, now);
    }
  }

  // ----- each table keeps its shape -----

  lemma PutPodOk(t: PodTable, p: PodSession)
    requires PodsOk(t)
    ensures PodsOk(PutPod(t, p))
  {
    PutOk(t.sessions, t.capacity, Slot(p.id, p, p.expiresAt));
    match Find(t.sessions, p.id)
    case None => PutOk(t.byPVC, t.indexCapacity, Slot(KeyOf(p), p.id, p.expiresAt));
    case Some(slot) =>
      KeepOk(t.byPVC, t.indexCapacity, {KeyOf(slot.value)});
      PutOk(t.byPVC, t.indexCapacity, Slot(KeyOf(p), p.id, p.expiresAt));
      PutOk(AfterDelete(t.byPVC, KeyOf(slot.value)), t.indexCapacity, Slot(KeyOf(p), p.id, p.expiresAt));
  }

  lemma FindOk(t: PodTable, key: string, now: Time)
    requires PodsOk(t)
    ensures PodsOk(FindByPVC(t, key, now))
  {
    GetOk(t.byPVC, t.indexCapacity, key, now);
    KeepOk(AfterGet(t.byPVC, key, now), t.indexCapacity, {key});
    match Lookup(t.byPVC, key, now)
    case None =>
    case Some(id) => GetOk(t.sessions, t.capacity, id, now);
  }

  lemma PutViewerOk(t: ViewerTable, v: ViewerSession)
    requires ViewersOk(t)
    ensures ViewersOk(PutViewer(t, v))
  {
    PutOk(t.sessions, t.capacity, Slot(v.id, v, v.expiresAt));
  }

  lemma GetPodOk(t: PodTable, id: string, now: Time)
    requires PodsOk(t)
    ensures PodsOk(GetPod(t, id, now))
  {
    GetOk(t.sessions, t.capacity, id, now);
  }

  lemma DeletePodOk(t: PodTable, id: string)
    requires PodsOk(t)
    ensures PodsOk(DeletePod(t, id))
  {
    KeepOk(t.sessions, t.capacity, {id});
    if Find(t.sessions, id).Some? { KeepOk(t.byPVC, t.indexCapacity, {KeyOf(Find(t.sessions, id).value.value)}); }
  }

  lemma PurgePodsOk(t: PodTable, now: Time)
    requires PodsOk(t)
    ensures PodsOk(t.(sessions := AfterPurge(t.sessions, now)))
    ensures PodsOk(t.(sessions := AfterPurge(t.sessions, now), byPVC := AfterPurge(t.byPVC, now)))
  {
    KeepOk(t.sessions, t.capacity, DeadKeys(t.sessions, now));
    KeepOk(t.byPVC, t.indexCapacity, DeadKeys(t.byPVC, now));
  }

  lemma GetViewerOk(t: ViewerTable, id: string, now: Time)
    requires ViewersOk(t)
    ensures ViewersOk(GetViewer(t, id, now)) && ViewersOk(DropPod(t, id))
  {
    GetOk(t.sessions, t.capacity, id, now);
  }

  lemma DeleteViewerOk(t: ViewerTable, id: string)
    requires ViewersOk(t)
    ensures ViewersOk(DeleteViewer(t, id))
  {
    KeepOk(t.sessions, t.capacity, {id});
  }

  lemma ListByPodOk(t: ViewerTable, pod: string, ids: seq<string>, now: Time)
    requires ViewersOk(t)
    ensures ViewersOk(ListByPod(t, pod, ids, now))
  {
    VisitOk(t.sessions, t.capacity, ids, now);
  }

  lemma PurgeViewersOk(t: ViewerTable, now: Time)
    requires ViewersOk(t)
    ensures ViewersOk(PurgeViewers(t, now))
  {
    KeepOk(t.sessions, t.capacity, DeadKeys(t.sessions, now));
  }

  lemma CreateAuthOk(t: AuthTable, r: AuthRequest, secret: string)
    requires AuthsOk(t)
    ensures AuthsOk(CreateAuth(t, r, secret))
  {
    PutOk(t.requests, t.capacity, Slot(r.id, r.(passwordHash := secret), r.expiresAt));
  }

  lemma ConsumeAuthOk(t: AuthTable, id: string, hash: string, now: Time)
    requires AuthsOk(t)
    ensures AuthsOk(ConsumeAuth(t, id, hash, now)) && AuthsOk(t.(requests := AfterPurge(t.requests, now)))
  {
    GetOk(t.requests, t.capacity, id, now);
    KeepOk(AfterGet(t.requests, id, now), t.capacity, {id});
    KeepOk(t.requests, t.capacity, DeadKeys(t.requests, now));
  }

  // ----- tokens -----

  lemma DropTokensOk(t: TokenTable, viewers: set<string>)
    requires TokensOk(t)
    ensures TokensOk(DropTokens(t, viewers))
    ensures forall x :: x in DropTokens(t, viewers).records <==> x in t.records && KeptToken(t, x, viewers)
  {
    KeepOk(t.records, t.capacity, IndexedHashes(t.byViewer, viewers));
  }

  /** A record survives dropping some viewers when none of them is indexed under its hash. */
  ghost predicate KeptToken(t: TokenTable, x: Slot<string, TokenRecord>, viewers: set<string>) {
    forall v :: v in viewers && v in t.byViewer ==> t.byViewer[v] != x.key
  }

  lemma PutTokenOk(t: TokenTable, r: TokenRecord)
    requires TokensOk(t)
    ensures TokensOk(PutToken(t, r))
  {
    var v := r.viewerSessionID;
    DropTokensOk(t, {v});
    var t1 := if v in t.byViewer && t.byViewer[v] != r.tokenHash then DropTokens(t, {v}) else t;
    var slot := Slot(r.tokenHash, r, r.expiresAt);
    PutFacts(t1.records, t1.capacity, slot);
    forall x | x in PutToken(t, r).records && x != slot
      ensures x.value.viewerSessionID in PutToken(t, r).byViewer && PutToken(t, r).byViewer[x.value.viewerSessionID] == x.key
    {
      assert x in t1.records && x.key != r.tokenHash;
      assert x.value.viewerSessionID != v;
    }
  }

  lemma GetTokenOk(t: TokenTable, viewer: string, pod: string, now: Time)
    requires TokensOk(t)
    ensures TokensOk(GetToken(t, viewer, pod, now))
  {
    if viewer in t.byViewer {
      var hash := t.byViewer[viewer];
      GetOk(t.records, t.capacity, hash, now);
      var t1 := t.(records := AfterGet(t.records, hash, now));
      if Lookup(t.records, hash, now).None? {
        forall x | x in t1.records ensures x.value.viewerSessionID != viewer {
          assert x.key in Keys(t1.records);
        }
      } else {
        DropTokensOk(t1, {viewer});
      }
    }
  }

  lemma PurgeTokensOk(t: TokenTable, dead: set<string>, now: Time)
    requires TokensOk(t)
    ensures TokensOk(PurgeTokens(t, dead, now))
  {
    DropTokensOk(t, dead);
    var t1 := DropTokens(t, dead);
    KeepOk(t1.records, t.capacity, DeadKeys(t1.records, now));
  }

  // ----- every call, every trace -----

  lemma StepOk(s: StoreState, op: StoreOp)
    requires StoreOk(s)
    ensures StoreOk(Step(s, op))
  {
    hide PodsOk, ViewersOk, AuthsOk, TokensOk, PutPod, DeletePod, FindByPVC, PutViewer, DeleteViewer, ListByPod,
      PurgeViewers, CreateAuth, ConsumeAuth, PutToken, GetToken, PurgeTokens, DropTokens;
    match op
    case PutPodSession(p) => PutPodOk(s.pods, p);
    case GetPodSession(id, now) => GetPodOk(s.pods, id, now);
    case ListPodSessions(now) => PurgePodsOk(s.pods, now);
    case DeletePodSession(id) =>
      DeletePodOk(s.pods, id);
      GetViewerOk(s.viewers, id, 0);
    case FindPodSessionByPVC(ns, uid, now) => FindOk(s.pods, PvcKey(ns, uid), now);
    case PutViewerSession(v) => PutViewerOk(s.viewers, v);
    case GetViewerSession(id, now) =>
      GetViewerOk(s.viewers, id, now);
      DropTokensOk(s.tokens, {id});
    case DeleteViewerSession(id) =>
      DeleteViewerOk(s.viewers, id);
      DropTokensOk(s.tokens, {id});
    case ListViewerSessionsByPod(pod, visited, now) =>
      ListByPodOk(s.viewers, pod, visited, now);
      DropTokensOk(s.tokens, Missing(s.viewers.sessions, ViewersOf(s.viewers, pod), now));
    case CreateAuthRequest(r, secret) => CreateAuthOk(s.auths, r, secret);
    case ConsumeAuthRequest(id, hash, now) => ConsumeAuthOk(s.auths, id, hash, now);
    case PutTokenRecord(r) => PutTokenOk(s.tokens, r);
    case GetTokenRecord(v, p, now) => GetTokenOk(s.tokens, v, p, now);
    case PurgeExpired(now) =>
      PurgePodsOk(s.pods, now);
      PurgeViewersOk(s.viewers, now);
      ConsumeAuthOk(s.auths, "", "", now);
      PurgeTokensOk(s.tokens, DeadKeys(s.viewers.sessions, now), now);
  }

  lemma EmptyOk(c: Capacities)
    ensures StoreOk(Empty(c))
  {}

  /** Over any sequence of calls every cache stays within capacity and every token record is indexed by its own viewer. */
  lemma {:induction false} TraceOk(c: Capacities, ops: seq<StoreOp>)
    ensures StoreOk(After(c, ops))
  {
    EmptyOk(c);
    if ops != [] {
      TraceOk(c, ops[..|ops| - 1]);
      StepOk(After(c, ops[..|ops| - 1]), ops[|ops| - 1]);
    }
  }
}
