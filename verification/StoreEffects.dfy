/** What one call of the store leaves in each table, in terms of the slots, index entries and expiries there were. */
module StoreEffects {
  import opened Results
  import opened Cache
  import opened StoreModel
  import opened StoreInvariants
  import TokenIndex
  import ViewerIndex

  /** A slot is stored under the key, and it is unexpired, or expired. */
  ghost predicate HasLive<V(!new)>(s: Recency<string, V>, key: string, now: Time) {
    exists x :: x in s && x.key == key && (x.expiresAt == 0 || now < x.expiresAt)
  }

  ghost predicate HasDead<V(!new)>(s: Recency<string, V>, key: string, now: Time) {
    exists x :: x in s && x.key == key && x.expiresAt != 0 && x.expiresAt <= now
  }

  lemma LiveMeans<V(!new)>(s: Recency<string, V>, key: string, now: Time)
    requires Distinct(s)
    ensures HasLive(s, key, now) <==> Lookup(s, key, now).Some?
  {
    LookupMeans(s, key, now);
    hide Lookup, Distinct;
    if x :| x in s && x.key == key && (x.expiresAt == 0 || now < x.expiresAt) { assert Lookup(s, key, now) == Some(x.value); }
  }

  lemma DeadMeans<V(!new)>(s: Recency<string, V>, key: string, now: Time)
    ensures HasDead(s, key, now) <==> key in DeadKeys(s, now)
  {}

  // ----- pod sessions -----

  /** Which pod sessions are stored after a call. */
  lemma SessionsStored(s: StoreState, op: StoreOp, x: Slot<string, PodSession>)
    requires StoreOk(s)
    ensures var t := s.pods;
      x in Step(s, op).pods.sessions <==>
        match op
        case PutPodSession(p) =>
          x == Slot(p.id, p, p.expiresAt)
          || (x in t.sessions && x.key != p.id && Evicted(t.sessions, t.capacity, p.id) != Some(x.key))
        case DeletePodSession(id) => x in t.sessions && x.key != id
        case GetPodSession(id, now) => x in t.sessions && (x.key == id ==> x.expiresAt == 0 || now < x.expiresAt)
        case FindPodSessionByPVC(namespace, pvcUID, now) =>
          x in t.sessions
          && (LeadsTo(t.byPVC, namespace + "/" + pvcUID, x.key, now) ==> x.expiresAt == 0 || now < x.expiresAt)
        case ListPodSessions(now) => x in t.sessions && (x.expiresAt == 0 || now < x.expiresAt)
        case PurgeExpired(now) => x in t.sessions && (x.expiresAt == 0 || now < x.expiresAt)
        case _ => x in t.sessions
  {
    var t := s.pods;
    match op
    case PutPodSession(p) => PutFacts(t.sessions, t.capacity, Slot(p.id, p, p.expiresAt));
    case DeletePodSession(id) => RemainsMeans(t.sessions, id, 0);
    case GetPodSession(id, now) => RemainsMeans(t.sessions, id, now);
    case FindPodSessionByPVC(namespace, pvcUID, now) => SessionsFound(t, namespace, pvcUID, now, x);
    case ListPodSessions(now) => RemainsMeans(t.sessions, "", now);
    case PurgeExpired(now) => RemainsMeans(t.sessions, "", now);
    case _ =>
  }

  ghost predicate LeadsTo(index: Recency<string, string>, key: string, id: string, now: Time) {
    exists e :: e in index && e.key == key && e.value == id && (e.expiresAt == 0 || now < e.expiresAt)
  }

  lemma SessionsFound(t: PodTable, namespace: string, pvcUID: string, now: Time, x: Slot<string, PodSession>)
    requires PodsOk(t)
    ensures x in FindByPVC(t, PvcKey(namespace, pvcUID), now).sessions <==>
      x in t.sessions && (LeadsTo(t.byPVC, namespace + "/" + pvcUID, x.key, now) ==> x.expiresAt == 0 || now < x.expiresAt)
  {
    var key := PvcKey(namespace, pvcUID);
    LookupMeans(t.byPVC, key, now);
    assert LeadsTo(t.byPVC, key, x.key, now) <==> Lookup(t.byPVC, key, now) == Some(x.key);
    hide LeadsTo, PvcKey;
    match Lookup(t.byPVC, key, now)
    case None =>
    case Some(id) => RemainsMeans(t.sessions, id, now);
  }

  // ----- viewer sessions -----

  /** Which viewer sessions are stored after a call. */
  lemma ViewersStored(s: StoreState, op: StoreOp, x: Slot<string, ViewerSession>)
    requires StoreOk(s) && IsOp(s, op)
    ensures var t := s.viewers;
      x in Step(s, op).viewers.sessions <==>
        match op
        case PutViewerSession(v) =>
          x == Slot(v.id, v, v.expiresAt)
          || (x in t.sessions && x.key != v.id && Evicted(t.sessions, t.capacity, v.id) != Some(x.key))
        case DeleteViewerSession(id) => x in t.sessions && x.key != id
        case GetViewerSession(id, now) => x in t.sessions && (x.key == id ==> x.expiresAt == 0 || now < x.expiresAt)
        case ListViewerSessionsByPod(pod, _, now) =>
          x in t.sessions && (x.key in ViewersOf(t, pod) ==> x.expiresAt == 0 || now < x.expiresAt)
        case PurgeExpired(now) => x in t.sessions && (x.expiresAt == 0 || now < x.expiresAt)
        case _ => x in t.sessions
  {
    var t := s.viewers;
    match op
    case PutViewerSession(v) => PutFacts(t.sessions, t.capacity, Slot(v.id, v, v.expiresAt));
    case DeleteViewerSession(id) =>
      RemainsMeans(t.sessions, id, 0);
      if Find(t.sessions, id).None? { KeysAre(t.sessions); }
    case GetViewerSession(id, now) => RemainsMeans(t.sessions, id, now);
    case ListViewerSessionsByPod(pod, visited, now) => VisitOk(t.sessions, t.capacity, visited, now);
    case PurgeExpired(now) => RemainsMeans(t.sessions, "", now);
    case _ =>
  }

  /** Which viewers are listed under a pod after a call. */
  lemma ViewersListed(s: StoreState, op: StoreOp, pod: string, k: string)
    requires StoreOk(s) && IsOp(s, op)
    ensures var t := s.viewers;
      k in ViewersOf(Step(s, op).viewers, pod) <==>
        match op
        case PutViewerSession(v) =>
          (k == v.id && pod == v.podSessionID) || (k in ViewersOf(t, pod) && !(k == v.id && StoredUnder(t, k, pod)))
        case DeleteViewerSession(id) => k in ViewersOf(t, pod) && !(k == id && StoredUnder(t, k, pod))
        case DeletePodSession(id) => k in ViewersOf(t, pod) && pod != id
        case ListViewerSessionsByPod(p, _, now) => k in ViewersOf(t, pod) && (pod == p ==> HasLive(t.sessions, k, now))
        case PurgeExpired(now) => k in ViewersOf(t, pod) && !HasDead(t.sessions, k, now)
        case _ => k in ViewersOf(t, pod)
  {
    var t := s.viewers;
    match op
    case PutViewerSession(v) => PutListed(t, v, pod, k);
    case DeleteViewerSession(id) => DeleteListed(t, id, pod, k);
    case ListViewerSessionsByPod(p, visited, now) => LiveMeans(t.sessions, k, now);
    case PurgeExpired(now) => DeadMeans(t.sessions, k, now);
    case _ =>
  }

  ghost predicate StoredUnder(t: ViewerTable, viewer: string, pod: string) {
    exists x :: x in t.sessions && x.key == viewer && x.value.podSessionID == pod
  }

  lemma StoredMeans(t: ViewerTable, viewer: string, pod: string)
    requires ViewersOk(t)
    ensures StoredUnder(t, viewer, pod) <==>
      match Find(t.sessions, viewer) case None => false case Some(slot) => slot.value.podSessionID == pod
  {
    match Find(t.sessions, viewer)
    case None => KeysAre(t.sessions);
    case Some(slot) => UniqueSlot(t.sessions, slot);
  }

  lemma PutListed(t: ViewerTable, v: ViewerSession, pod: string, k: string)
    requires ViewersOk(t)
    ensures k in ViewersOf(PutViewer(t, v), pod) <==>
      (k == v.id && pod == v.podSessionID) || (k in ViewersOf(t, pod) && !(k == v.id && StoredUnder(t, k, pod)))
  {
    StoredMeans(t, v.id, pod);
    hide StoredUnder, ViewersOk, Find, At, AddViewer, RemoveViewer, AfterPut;
    match Find(t.sessions, v.id)
    case None => ViewerIndex.AddKeeps(t.byPod, v.podSessionID, v.id);
    case Some(prior) =>
      var from := prior.value.podSessionID;
      ViewerIndex.RemoveKeeps(t.byPod, from, v.id);
      ViewerIndex.AddKeeps(if from != v.podSessionID then RemoveViewer(t.byPod, from, v.id) else t.byPod, v.podSessionID, v.id);
  }

  lemma DeleteListed(t: ViewerTable, id: string, pod: string, k: string)
    requires ViewersOk(t)
    ensures k in ViewersOf(DeleteViewer(t, id), pod) <==> k in ViewersOf(t, pod) && !(k == id && StoredUnder(t, k, pod))
  {
    StoredMeans(t, id, pod);
    hide StoredUnder, ViewersOk, Find, At, RemoveViewer, AfterDelete;
    match Find(t.sessions, id)
    case None =>
    case Some(slot) => ViewerIndex.RemoveKeeps(t.byPod, slot.value.podSessionID, id);
  }

  // ----- auth requests -----

  /** Which auth requests are stored after a call. */
  lemma RequestsStored(s: StoreState, op: StoreOp, x: Slot<string, AuthRequest>)
    requires StoreOk(s)
    ensures var t := s.auths;
      x in Step(s, op).auths.requests <==>
        match op
        case CreateAuthRequest(r, secret) =>
          x == Slot(r.id, r.(passwordHash := secret), r.expiresAt)
          || (x in t.requests && x.key != r.id && Evicted(t.requests, t.capacity, r.id) != Some(x.key))
        case ConsumeAuthRequest(id, hash, now) =>
          x in t.requests
          && (x.key == id ==> (x.expiresAt == 0 || now < x.expiresAt) && (x.value.usedAt.Some? || x.value.passwordHash != hash))
        case PurgeExpired(now) => x in t.requests && (x.expiresAt == 0 || now < x.expiresAt)
        case _ => x in t.requests
  {
    var t := s.auths;
    match op
    case CreateAuthRequest(r, secret) => PutFacts(t.requests, t.capacity, Slot(r.id, r.(passwordHash := secret), r.expiresAt));
    case ConsumeAuthRequest(id, hash, now) => ConsumedRequests(t, id, hash, now, x);
    case PurgeExpired(now) => RemainsMeans(t.requests, "", now);
    case _ =>
  }

  lemma ConsumedRequests(t: AuthTable, id: string, hash: string, now: Time, x: Slot<string, AuthRequest>)
    requires AuthsOk(t)
    ensures x in ConsumeAuth(t, id, hash, now).requests <==>
      x in t.requests
      && (x.key == id ==> (x.expiresAt == 0 || now < x.expiresAt) && (x.value.usedAt.Some? || x.value.passwordHash != hash))
  {
    RemainsMeans(t.requests, id, now);
    GetFacts(t.requests, id, now);
    RemainsMeans(AfterGet(t.requests, id, now), id, now);
    LookupMeans(t.requests, id, now);
    hide AfterGet, AfterDelete, AfterPurge, Lookup;
    if x in t.requests && x.key == id {
      UniqueSlot(t.requests, x);
      hide Distinct;
      if x.expiresAt == 0 || now < x.expiresAt { assert Lookup(t.requests, id, now) == Some(x.value); }
    }
  }

  // ----- tokens -----

  ghost predicate IndexedUnder(t: TokenTable, viewer: string, hash: string) { viewer in t.byViewer && t.byViewer[viewer] == hash }

  /** The viewers of a listing, a lookup, a delete or a purge that are gone. */
  ghost predicate Gone(s: StoreState, op: StoreOp, viewer: string) {
    match op
    case DeleteViewerSession(id) => viewer == id
    case GetViewerSession(id, now) => viewer == id && !HasLive(s.viewers.sessions, viewer, now)
    case ListViewerSessionsByPod(pod, _, now) => viewer in ViewersOf(s.viewers, pod) && !HasLive(s.viewers.sessions, viewer, now)
    case PurgeExpired(now) => HasDead(s.viewers.sessions, viewer, now)
    case _ => false
  }

  lemma GoneMeans(s: StoreState, op: StoreOp, viewer: string)
    requires StoreOk(s)
    ensures Gone(s, op, viewer) <==> viewer in TokenIndex.Departed(s, op)
  {
    hide HasLive, HasDead, DeadKeys, Lookup, ViewersOf;
    match op
    case GetViewerSession(id, now) => LiveMeans(s.viewers.sessions, viewer, now);
    case ListViewerSessionsByPod(pod, _, now) => LiveMeans(s.viewers.sessions, viewer, now);
    case PurgeExpired(now) => DeadMeans(s.viewers.sessions, viewer, now);
    case _ =>
  }

  /** The hash a put of a record takes from its viewer first. */
  ghost predicate Replaced(t: TokenTable, r: TokenRecord, hash: string) {
    IndexedUnder(t, r.viewerSessionID, hash) && hash != r.tokenHash
  }

  /** Under which hash a viewer is indexed after a call. */
  lemma TokensIndexed(s: StoreState, op: StoreOp, viewer: string, hash: string)
    requires StoreOk(s)
    ensures var t := s.tokens;
      IndexedUnder(Step(s, op).tokens, viewer, hash) <==>
        match op
        case PutTokenRecord(r) =>
          if viewer == r.viewerSessionID then hash == r.tokenHash
          else IndexedUnder(t, viewer, hash) && PushedOut(t, r) != Some(hash)
        case GetTokenRecord(v, pod, now) => IndexedUnder(t, viewer, hash) && (viewer == v ==> UsableToken(t, v, pod, now).Some?)
        case PurgeExpired(now) =>
          && IndexedUnder(t, viewer, hash) && !Gone(s, op, viewer)
          && !(HasDead(t.records, hash, now) && forall u :: IndexedUnder(t, u, hash) ==> !Gone(s, op, u))
        case _ => IndexedUnder(t, viewer, hash) && !Gone(s, op, viewer)
  {
    var t := s.tokens;
    hide StoreOk, AfterPut, AfterGet, Keep, Evicted, Lookup, UsableToken;
    GoneMeans(s, op, viewer);
    hide Gone;
    match op
    case PutTokenRecord(r) =>
    case PurgeExpired(now) => PurgedIndex(s, viewer, hash, now);
    case GetTokenRecord(v, pod, now) => GotIndex(t, v, pod, now, viewer, hash);
    case _ =>
  }

  /** The hash that storing a record pushes out of the cache, the viewer's other record being gone. */
  ghost function PushedOut(t: TokenTable, r: TokenRecord): Option<string> {
    Evicted(TokenIndex.WithoutOther(t, r).records, t.capacity, r.tokenHash)
  }

  lemma GotIndex(t: TokenTable, v: string, pod: string, now: Time, viewer: string, hash: string)
    ensures IndexedUnder(GetToken(t, v, pod, now), viewer, hash) <==>
      IndexedUnder(t, viewer, hash) && (viewer == v ==> UsableToken(t, v, pod, now).Some?)
  {
    hide AfterGet, Lookup, Keep;
  }

  lemma PurgedIndex(s: StoreState, viewer: string, hash: string, now: Time)
    requires StoreOk(s)
    ensures var t, op := s.tokens, StoreOp.PurgeExpired(now);
      IndexedUnder(Step(s, op).tokens, viewer, hash) <==>
        && IndexedUnder(t, viewer, hash) && !Gone(s, op, viewer)
        && !(HasDead(t.records, hash, now) && forall u :: IndexedUnder(t, u, hash) ==> !Gone(s, op, u))
  {
    var t, op := s.tokens, StoreOp.PurgeExpired(now);
    var dead := DeadKeys(s.viewers.sessions, now);
    forall u ensures Gone(s, op, u) <==> u in dead { GoneMeans(s, op, u); }
    var t1 := DropTokens(t, dead);
    DeadMeans(t1.records, hash, now);
    StillDead(t, dead, hash, now);
    hide Gone, StoreOk, DeadKeys, Keep, HasDead;
  }

  lemma StillDead(t: TokenTable, dropped: set<string>, hash: string, now: Time)
    requires TokensOk(t)
    ensures HasDead(DropTokens(t, dropped).records, hash, now) <==>
      HasDead(t.records, hash, now) && forall u :: IndexedUnder(t, u, hash) ==> u !in dropped
  {
    DropTokensOk(t, dropped);
    hide TokensOk, DropTokens;
  }

  /** Which token records are stored after a call. */
  lemma TokensStored(s: StoreState, op: StoreOp, x: Slot<string, TokenRecord>)
    requires StoreOk(s)
    ensures var t := s.tokens;
      x in Step(s, op).tokens.records <==>
        match op
        case PutTokenRecord(r) =>
          x == Slot(r.tokenHash, r, r.expiresAt)
          || (x in t.records && x.key != r.tokenHash && !Replaced(t, r, x.key) && PushedOut(t, r) != Some(x.key))
        case GetTokenRecord(v, pod, now) =>
          x in t.records && (IndexedUnder(t, v, x.key) ==> UsableToken(t, v, pod, now).Some?)
        case PurgeExpired(now) =>
          && x in t.records && (x.expiresAt == 0 || now < x.expiresAt)
          && forall u :: IndexedUnder(t, u, x.key) ==> !Gone(s, op, u)
        case _ => x in t.records && forall u :: IndexedUnder(t, u, x.key) ==> !Gone(s, op, u)
  {
    var t := s.tokens;
    forall u ensures Gone(s, op, u) <==> u in TokenIndex.Departed(s, op) { GoneMeans(s, op, u); }
    DropTokensOk(t, TokenIndex.Departed(s, op));
    hide Gone, Evicted, UsableToken, PodsOk, ViewersOk, AuthsOk, Keep, AfterPut, AfterGet, AfterPurge, Lookup, DropTokens;
    match op
    case PutTokenRecord(r) => PutStored(t, r, x);
    case PurgeExpired(now) => RemainsMeans(DropTokens(t, TokenIndex.Departed(s, op)).records, "", now);
    case GetTokenRecord(v, pod, now) => GotStored(t, v, pod, now, x);
    case _ =>
  }

  lemma PutStored(t: TokenTable, r: TokenRecord, x: Slot<string, TokenRecord>)
    requires TokensOk(t)
    ensures x in PutToken(t, r).records <==>
      x == Slot(r.tokenHash, r, r.expiresAt)
      || (x in t.records && x.key != r.tokenHash && !Replaced(t, r, x.key) && PushedOut(t, r) != Some(x.key))
  {
    DropTokensOk(t, {r.viewerSessionID});
    var t1 := TokenIndex.WithoutOther(t, r);
    PutFacts(t1.records, t1.capacity, Slot(r.tokenHash, r, r.expiresAt));
    hide AfterPut, Evicted, Keep;
  }

  lemma GotStored(t: TokenTable, v: string, pod: string, now: Time, x: Slot<string, TokenRecord>)
    requires TokensOk(t)
    ensures x in GetToken(t, v, pod, now).records <==> x in t.records && (IndexedUnder(t, v, x.key) ==> UsableToken(t, v, pod, now).Some?)
  {
    if v in t.byViewer {
      var hash := t.byViewer[v];
      GetFacts(t.records, hash, now);
      var t1 := t.(records := AfterGet(t.records, hash, now));
      KeysAre(t1.records);
      hide AfterGet, Keys;
    }
  }
}
