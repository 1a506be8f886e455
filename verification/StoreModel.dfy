/**
 * The session store as a value: four tables, each a bounded cache with the secondary index kept
 * beside it by hand, and the operations the store runs under its mutex.
 */
module StoreModel {
  import opened Results
  import opened Cache

  // ----- records -----

  datatype PodStatus = PodCreating | PodReady | PodFailed | PodTerminating | PodTerminated

  datatype ViewerStatus = ViewerActive | ViewerReady | ViewerClosed | ViewerExpired | ViewerFailed | ViewerCreating

  datatype PodSession = PodSession(
    id: string, namespace: string, pvcName: string, pvcUID: string, mode: string, podName: string,
    runtimeVersion: string, status: PodStatus, updatedAt: Time, lastActiveAt: Time, expiresAt: Time, adminContext: bool)

  datatype ViewerSession = ViewerSession(
    id: string, podSessionID: string, namespace: string, pvcName: string, userID: string, permission: string,
    status: ViewerStatus, podStatus: PodStatus, tokenReady: bool, lastHeartbeatAt: Time, expiresAt: Time, adminContext: bool)

  datatype AuthRequest = AuthRequest(
    id: string, viewerSessionID: string, podSessionID: string, passwordHash: string, usedAt: Option<Time>, expiresAt: Time)

  datatype TokenRecord = TokenRecord(
    tokenHash: string, rawToken: string, viewerSessionID: string, podSessionID: string, expiresAt: Time)

  function PvcKey(namespace: string, pvcUID: string): string { namespace + "/" + pvcUID }

  function KeyOf(p: PodSession): string { PvcKey(p.namespace, p.pvcUID) }

  /** A namespace never contains a slash, so the composite key determines both parts. */
  lemma PvcKeyIsInjective(n1: string, u1: string, n2: string, u2: string)
    requires '/' !in n1 && '/' !in n2 && PvcKey(n1, u1) == PvcKey(n2, u2)
    ensures n1 == n2 && u1 == u2
  {
    var k := PvcKey(n1, u1);
    assert k[|n1|] == '/' && k[|n2|] == '/';
    assert forall i :: 0 <= i < |n1| ==> k[i] == n1[i];
    assert forall i :: 0 <= i < |n2| ==> k[i] == n2[i];
    assert k[..|n1|] == n1 && k[..|n2|] == n2;
    assert k[|n1| + 1..] == u1 && k[|n2| + 1..] == u2;
  }

  // ----- pod sessions and the PVC index -----

  datatype PodTable = PodTable(
    capacity: nat, sessions: Recency<string, PodSession>,
    indexCapacity: nat, byPVC: Recency<string, string>)

  ghost function PutPod(t: PodTable, p: PodSession): PodTable {
    var moved := match Find(t.sessions, p.id)
      case Some(prior) => KeyOf(prior.value) != KeyOf(p)
      case None => false;
    var index := if moved then AfterDelete(t.byPVC, KeyOf(Find(t.sessions, p.id).value.value)) else t.byPVC;
    t.(sessions := AfterPut(t.sessions, t.capacity, Slot(p.id, p, p.expiresAt)),
       byPVC := AfterPut(index, t.indexCapacity, Slot(KeyOf(p), p.id, p.expiresAt)))
  }

  ghost function GetPod(t: PodTable, id: string, now: Time): PodTable {
    t.(sessions := AfterGet(t.sessions, id, now))
  }

  ghost function DeletePod(t: PodTable, id: string): PodTable {
    match Find(t.sessions, id)
    case None => t
    case Some(slot) =>
      t.(sessions := AfterDelete(t.sessions, id), byPVC := AfterDelete(t.byPVC, KeyOf(slot.value)))
  }

  /** The pod session the PVC index leads to, when the index entry and the session are both live. */
  ghost function FoundByPVC(t: PodTable, key: string, now: Time): Option<PodSession> {
    match Lookup(t.byPVC, key, now)
    case None => None
    case Some(id) => Lookup(t.sessions, id, now)
  }

  ghost function FindByPVC(t: PodTable, key: string, now: Time): PodTable {
    var index := AfterGet(t.byPVC, key, now);
    match Lookup(t.byPVC, key, now)
    case None => t.(byPVC := index)
    case Some(id) =>
      t.(sessions := AfterGet(t.sessions, id, now),
         byPVC := if Lookup(t.sessions, id, now).None? then AfterDelete(index, key) else index)
  }

  // ----- viewer sessions and the pod index -----

  type PodIndex = map<string, set<string>>

  datatype ViewerTable = ViewerTable(capacity: nat, sessions: Recency<string, ViewerSession>, byPod: PodIndex)

  function At(index: PodIndex, pod: string): set<string> { if pod in index then index[pod] else {} }

  function RemoveViewer(index: PodIndex, pod: string, viewer: string): PodIndex {
    if pod !in index then index
    else if index[pod] - {viewer} == {} then index - {pod}
    else index[pod := index[pod] - {viewer}]
  }

  function AddViewer(index: PodIndex, pod: string, viewer: string): PodIndex {
    index[pod := At(index, pod) + {viewer}]
  }

  /** Removes some viewers from every pod, and the pods left without viewers. */
  function RemoveViewers(index: PodIndex, viewers: set<string>): PodIndex {
    map pod | pod in index && index[pod] - viewers != {} :: index[pod] - viewers
  }

  ghost function PutViewer(t: ViewerTable, v: ViewerSession): ViewerTable {
    var index := match Find(t.sessions, v.id)
      case Some(prior) =>
        if prior.value.podSessionID != v.podSessionID then RemoveViewer(t.byPod, prior.value.podSessionID, v.id) else t.byPod
      case None => t.byPod;
    t.(sessions := AfterPut(t.sessions, t.capacity, Slot(v.id, v, v.expiresAt)),
       byPod := AddViewer(index, v.podSessionID, v.id))
  }

  ghost function GetViewer(t: ViewerTable, id: string, now: Time): ViewerTable {
    t.(sessions := AfterGet(t.sessions, id, now))
  }

  ghost function DeleteViewer(t: ViewerTable, id: string): ViewerTable {
    match Find(t.sessions, id)
    case None => t
    case Some(slot) =>
      t.(sessions := AfterDelete(t.sessions, id), byPod := RemoveViewer(t.byPod, slot.value.podSessionID, id))
  }

  ghost function DropPod(t: ViewerTable, pod: string): ViewerTable { t.(byPod := t.byPod - {pod}) }

  ghost function PurgeViewers(t: ViewerTable, now: Time): ViewerTable {
    t.(sessions := AfterPurge(t.sessions, now), byPod := RemoveViewers(t.byPod, DeadKeys(t.sessions, now)))
  }

  /** The recency list after getting some ids one after the other. */
  ghost function Visit(s: Recency<string, ViewerSession>, ids: seq<string>, now: Time): Recency<string, ViewerSession> {
    if ids == [] then s else AfterGet(Visit(s, ids[..|ids| - 1], now), ids[|ids| - 1], now)
  }

  /** The sessions a listing returns, in the order the ids are visited. */
  ghost function Listed(s: Recency<string, ViewerSession>, ids: seq<string>, now: Time): seq<ViewerSession> {
    if ids == [] then []
    else
      var before := Listed(s, ids[..|ids| - 1], now);
      match Lookup(s, ids[|ids| - 1], now)
      case None => before
      case Some(v) => before + [v]
  }

  ghost function Missing(s: Recency<string, ViewerSession>, ids: set<string>, now: Time): set<string> {
    set id | id in ids && Lookup(s, id, now).None?
  }

  ghost function ViewersOf(t: ViewerTable, pod: string): set<string> {
    At(t.byPod, pod)
  }

  ghost function ListByPod(t: ViewerTable, pod: string, ids: seq<string>, now: Time): ViewerTable {
    var left := ViewersOf(t, pod) - Missing(t.sessions, ViewersOf(t, pod), now);
    t.(sessions := Visit(t.sessions, ids, now),
       byPod := if pod !in t.byPod then t.byPod else if left == {} then t.byPod - {pod} else t.byPod[pod := left])
  }

  // ----- token records and the viewer index -----

  datatype TokenTable = TokenTable(
    capacity: nat, records: Recency<string, TokenRecord>, byViewer: map<string, string>)

  /** The hashes some viewers are indexed under. */
  function IndexedHashes(index: map<string, string>, viewers: set<string>): set<string> {
    set v | v in viewers && v in index :: index[v]
  }

  /** Forgets the index entries and the indexed records of some viewers. */
  ghost function DropTokens(t: TokenTable, viewers: set<string>): TokenTable {
    t.(byViewer := t.byViewer - viewers,
       records := Keep(t.records, IndexedHashes(t.byViewer, viewers)))
  }

  /** Forgets every index entry that points at one of some hashes. */
  function DropHashes(index: map<string, string>, hashes: set<string>): map<string, string> {
    map v | v in index && index[v] !in hashes :: index[v]
  }

  ghost function PutToken(t: TokenTable, r: TokenRecord): TokenTable {
    var v := r.viewerSessionID;
    var t1 := if v in t.byViewer && t.byViewer[v] != r.tokenHash then DropTokens(t, {v}) else t;
    var gone := match Evicted(t1.records, t1.capacity, r.tokenHash) case None => {} case Some(h) => {h};
    t1.(records := AfterPut(t1.records, t1.capacity, Slot(r.tokenHash, r, r.expiresAt)),
        byViewer := DropHashes(t1.byViewer, gone)[v := r.tokenHash])
  }

  /** The usable record of a viewer for a pod: indexed, live, its own, and with a raw token. */
  ghost function UsableToken(t: TokenTable, viewer: string, pod: string, now: Time): Option<TokenRecord> {
    if viewer !in t.byViewer then None
    else match Lookup(t.records, t.byViewer[viewer], now)
      case None => None
      case Some(r) =>
        if r.viewerSessionID != viewer || r.podSessionID != pod || r.rawToken == "" then None else Some(r)
  }

  ghost function GetToken(t: TokenTable, viewer: string, pod: string, now: Time): TokenTable {
    if viewer !in t.byViewer then t
    else
      var hash := t.byViewer[viewer];
      var t1 := t.(records := AfterGet(t.records, hash, now));
      if Lookup(t.records, hash, now).None? then t1.(byViewer := t.byViewer - {viewer})
      else if UsableToken(t, viewer, pod, now).None? then DropTokens(t1, {viewer})
      else t1
  }

  ghost function PurgeTokens(t: TokenTable, deadViewers: set<string>, now: Time): TokenTable {
    var t1 := DropTokens(t, deadViewers);
    t1.(records := AfterPurge(t1.records, now), byViewer := DropHashes(t1.byViewer, DeadKeys(t1.records, now)))
  }

  // ----- auth requests -----

  datatype AuthTable = AuthTable(capacity: nat, requests: Recency<string, AuthRequest>)

  ghost function CreateAuth(t: AuthTable, r: AuthRequest, secret: string): AuthTable {
    var stored := r.(passwordHash := secret);
    t.(requests := AfterPut(t.requests, t.capacity, Slot(stored.id, stored, stored.expiresAt)))
  }

  /** The request a consume hands out: live, unused, and with the matching hash. */
  ghost function Consumable(t: AuthTable, id: string, hash: string, now: Time): Option<AuthRequest> {
    match Lookup(t.requests, id, now)
    case None => None
    case Some(r) =>
      if r.usedAt.Some? || r.passwordHash != hash then None else Some(r.(usedAt := Some(now)))
  }

  ghost function ConsumeAuth(t: AuthTable, id: string, hash: string, now: Time): AuthTable {
    var got := AfterGet(t.requests, id, now);
    t.(requests := if Consumable(t, id, hash, now).Some? then AfterDelete(got, id) else got)
  }

  // ----- the store -----

  datatype StoreState = StoreState(pods: PodTable, viewers: ViewerTable, auths: AuthTable, tokens: TokenTable)

  /** One call of the store; each runs under the mutex, so each is one step. */
  datatype StoreOp =
    | PutPodSession(pod: PodSession)
    | GetPodSession(id: string, now: Time)
    | ListPodSessions(now: Time)
    | DeletePodSession(id: string)
    | FindPodSessionByPVC(namespace: string, pvcUID: string, now: Time)
    | PutViewerSession(viewer: ViewerSession)
    | GetViewerSession(id: string, now: Time)
    | DeleteViewerSession(id: string)
    | ListViewerSessionsByPod(id: string, visited: seq<string>, now: Time)
    | CreateAuthRequest(request: AuthRequest, secret: string)
    | ConsumeAuthRequest(id: string, passwordHash: string, now: Time)
    | PutTokenRecord(record: TokenRecord)
    | GetTokenRecord(viewerID: string, podID: string, now: Time)
    | PurgeExpired(now: Time)

  ghost function Step(s: StoreState, op: StoreOp): StoreState {
    match op
    case PutPodSession(p) => s.(pods := PutPod(s.pods, p))
    case GetPodSession(id, now) => s.(pods := GetPod(s.pods, id, now))
    case ListPodSessions(now) => s.(pods := s.pods.(sessions := AfterPurge(s.pods.sessions, now)))
    case DeletePodSession(id) => s.(pods := DeletePod(s.pods, id), viewers := DropPod(s.viewers, id))
    case FindPodSessionByPVC(ns, uid, now) => s.(pods := FindByPVC(s.pods, PvcKey(ns, uid), now))
    case PutViewerSession(v) => s.(viewers := PutViewer(s.viewers, v))
    case GetViewerSession(id, now) =>
      s.(viewers := GetViewer(s.viewers, id, now),
         tokens := if Lookup(s.viewers.sessions, id, now).None? then DropTokens(s.tokens, {id}) else s.tokens)
    case DeleteViewerSession(id) =>
      s.(viewers := DeleteViewer(s.viewers, id), tokens := DropTokens(s.tokens, {id}))
    case ListViewerSessionsByPod(pod, visited, now) =>
      s.(viewers := ListByPod(s.viewers, pod, visited, now),
         tokens := DropTokens(s.tokens, Missing(s.viewers.sessions, ViewersOf(s.viewers, pod), now)))
    case CreateAuthRequest(r, secret) => s.(auths := CreateAuth(s.auths, r, secret))
    case ConsumeAuthRequest(id, hash, now) => s.(auths := ConsumeAuth(s.auths, id, hash, now))
    case PutTokenRecord(r) => s.(tokens := PutToken(s.tokens, r))
    case GetTokenRecord(v, p, now) => s.(tokens := GetToken(s.tokens, v, p, now))
    case PurgeExpired(now) =>
      s.(pods := s.pods.(sessions := AfterPurge(s.pods.sessions, now), byPVC := AfterPurge(s.pods.byPVC, now)),
         viewers := PurgeViewers(s.viewers, now),
         auths := s.auths.(requests := AfterPurge(s.auths.requests, now)),
         tokens := PurgeTokens(s.tokens, DeadKeys(s.viewers.sessions, now), now))
  }

  /** Listing visits exactly the indexed ids, each once, in any order. */
  ghost predicate IsOp(s: StoreState, op: StoreOp) {
    match op
    case ListViewerSessionsByPod(pod, visited, now) =>
      NoDuplicates(visited) && forall id :: id in visited <==> id in ViewersOf(s.viewers, pod)
    case _ => true
  }

  function Bounded(maxEntries: int): nat { if maxEntries <= 0 then 1 else maxEntries }

  datatype Capacities = Capacities(pods: int, viewers: int, auths: int, tokens: int, indexes: int)

  function Empty(c: Capacities): StoreState {
    StoreState(PodTable(Bounded(c.pods), [], Bounded(c.indexes), []),
               ViewerTable(Bounded(c.viewers), [], map[]),
               AuthTable(Bounded(c.auths), []),
               TokenTable(Bounded(c.tokens), [], map[]))
  }

  /** The state after a sequence of calls on a new store. */
  ghost function After(c: Capacities, ops: seq<StoreOp>): StoreState {
    if ops == [] then Empty(c) else Step(After(c, ops[..|ops| - 1]), ops[|ops| - 1])
  }

  lemma AfterLast(c: Capacities, ops: seq<StoreOp>)
    requires ops != []
    ensures After(c, ops) == Step(After(c, ops[..|ops| - 1]), ops[|ops| - 1])
    ensures ops == ops[..|ops| - 1] + [ops[|ops| - 1]]
  {
    hide Step;
  }

  /** Every call of the sequence is one the store can make in the state it is made in. */
  ghost predicate IsTrace(c: Capacities, ops: seq<StoreOp>) {
    forall i :: 0 <= i < |ops| ==> IsOp(After(c, ops[..i]), ops[i])
  }

  lemma TracePrefix(c: Capacities, ops: seq<StoreOp>)
    requires IsTrace(c, ops) && ops != []
    ensures IsTrace(c, ops[..|ops| - 1]) && IsOp(After(c, ops[..|ops| - 1]), ops[|ops| - 1])
  {
    var init := ops[..|ops| - 1];
    forall i | 0 <= i < |init| ensures IsOp(After(c, init[..i]), init[i]) {
      assert init[..i] == ops[..i];
    }
  }
}
