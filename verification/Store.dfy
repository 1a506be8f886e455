/**
 * The session store: five caches and two index maps updated in place. Every method runs under
 * one mutex, so it is one step; each is proved to take the store's value to the value its
 * operation in StoreModel gives, and to return what that operation reads.
 */
module Store {
  import opened Results
  import opened Cache
  import opened StoreModel
  import opened StoreInvariants

  datatype Kind = PodItem | ViewerItem | AuthItem | TokenItem

  datatype ExpiredItem = ExpiredItem(kind: Kind, id: string)

  class Store {
    const podSessions: LruCache<string, PodSession>
    const viewerSessions: LruCache<string, ViewerSession>
    const authRequests: LruCache<string, AuthRequest>
    const tokenRecords: LruCache<string, TokenRecord>
    var tokenByViewer: map<string, string>
    const podSessionByPVC: LruCache<string, string>
    var viewerByPod: PodIndex

    ghost function Repr(): set<object> {
      {this, podSessions, viewerSessions, authRequests, tokenRecords, podSessionByPVC}
    }

    ghost predicate Wired()
      reads Repr()
    {
      && podSessions.Valid() && viewerSessions.Valid() && authRequests.Valid() && tokenRecords.Valid()
      && podSessionByPVC.Valid()
    }

    /** The value of the store. */
    ghost function State(): StoreState
      requires Wired()
      reads Repr()
    {
      StoreState(
        PodTable(podSessions.maxEntries, podSessions.Slots(), podSessionByPVC.maxEntries, podSessionByPVC.Slots()),
        ViewerTable(viewerSessions.maxEntries, viewerSessions.Slots(), viewerByPod),
        AuthTable(authRequests.maxEntries, authRequests.Slots()),
        TokenTable(tokenRecords.maxEntries, tokenRecords.Slots(), tokenByViewer))
    }

    ghost predicate Valid()
      reads Repr()
    {
      Wired() && StoreOk(State())
    }

    constructor (c: Capacities)
      ensures Valid() && fresh(Repr()) && State() == Empty(c)
    {
      hide StoreOk, SlotsOf, NoDuplicates;
      podSessions := new LruCache(c.pods);
      viewerSessions := new LruCache(c.viewers);
      authRequests := new LruCache(c.auths);
      tokenRecords := new LruCache(c.tokens);
      tokenByViewer := map[];
      podSessionByPVC := new LruCache(c.indexes);
      viewerByPod := map[];
      EmptyOk(c);
    }

    method PutPodSession(session: PodSession)
      requires Valid()
      modifies Repr()
      ensures Valid() && State() == Step(old(State()), StoreOp.PutPodSession(session))
    {
      hide StoreOk, Keep, Find, AfterPut, SlotsOf, NoDuplicates, Evicted, PvcKey;
      StepOk(State(), StoreOp.PutPodSession(session));
      podSessions.Peek(session.id);
      if session.id in podSessions.items {
        var existing := podSessions.items[session.id].value;
        var oldKey := KeyOf(existing);
        var newKey := KeyOf(session);
        if oldKey != newKey {
          var _ := podSessionByPVC.Delete(oldKey);
        }
      }
      var _ := podSessions.Put(session.id, session, session.expiresAt);
      var _ := podSessionByPVC.Put(KeyOf(session), session.id, session.expiresAt);
    }

    method GetPodSession(id: string, now: Time) returns (session: Option<PodSession>)
      requires Valid()
      modifies Repr()
      ensures Valid() && State() == Step(old(State()), StoreOp.GetPodSession(id, now))
      ensures session == Lookup(old(State()).pods.sessions, id, now)
    {
      hide StoreOk, Keep, Find, AfterGet;
      StepOk(State(), StoreOp.GetPodSession(id, now));
      session := podSessions.Get(id, now);
    }

    method GetPodSessionIncludingExpired(id: string) returns (session: Option<PodSession>)
      requires Valid()
      ensures session == match Find(State().pods.sessions, id) case None => None case Some(slot) => Some(slot.value)
    {
      hide StoreOk, Find, SlotsOf;
      podSessions.Peek(id);
      if id !in podSessions.items {
        return None;
      }
      return Some(podSessions.items[id].value);
    }

    method ListPodSessions(now: Time) returns (sessions: seq<PodSession>)
      requires Valid()
      modifies Repr()
      ensures Valid() && State() == Step(old(State()), StoreOp.ListPodSessions(now))
      ensures multiset(sessions) == multiset(ValuesOf(State().pods.sessions))
    {
      hide StoreOk, Keep, ValuesOf, DeadKeys;
      StepOk(State(), StoreOp.ListPodSessions(now));
      sessions := podSessions.Values(now);
    }

    /** The expired sessions, left in place. */
    method ListExpiredPodSessions(now: Time) returns (sessions: seq<PodSession>)
      requires Valid()
      ensures multiset(sessions) == multiset(ExpiredValues(State().pods.sessions, now))
    {
      hide StoreOk, Find, SlotsOf, Keep, ValuesOf, DeadKeys, NoDuplicates;
      ghost var slots := podSessions.Slots();
      ghost var alive: set<string> := {};
      sessions := [];
      var pending := podSessions.items.Keys;
      ExpiredStart(podSessions.order, podSessions.items, now);
      while pending != {}
        invariant pending <= Keys(slots) && alive <= Keys(slots) && alive !! DeadKeys(slots, now)
        invariant Keys(slots) - DeadKeys(slots, now) <= pending + alive && pending !! alive
        invariant multiset(sessions) == multiset(ValuesOf(Keep(slots, pending + alive)))
        decreases pending
      {
        var id :| id in pending;
        var item := podSessions.items[id];
        podSessions.Peek(id);
        DeadOrAlive(slots, Slot(id, item.value, item.expiresAt), now);
        if !Expired(item.expiresAt, now) {
          assert pending + alive == (pending - {id}) + (alive + {id});
          alive := alive + {id};
        } else {
          assert pending + alive == (pending - {id} + alive) + {id};
          OneMoreValue(slots, pending - {id} + alive, Slot(id, item.value, item.expiresAt));
          sessions := sessions + [item.value];
        }
        pending := pending - {id};
      }
      assert pending + alive == Keys(slots) - DeadKeys(slots, now);
    }

    method DeletePodSession(id: string)
      requires Valid()
      modifies Repr()
      ensures Valid() && State() == Step(old(State()), StoreOp.DeletePodSession(id))
    {
      hide StoreOk, Keep, Find, SlotsOf, NoDuplicates, PvcKey, Keys;
      StepOk(State(), StoreOp.DeletePodSession(id));
      KeepAbsent(podSessions.Slots(), id);
      var session := podSessions.Delete(id);
      if session.Some? {
        var _ := podSessionByPVC.Delete(KeyOf(session.value));
      }
      viewerByPod := viewerByPod - {id};
    }

    method FindPodSessionByPVC(namespace: string, pvcUID: string, now: Time) returns (session: Option<PodSession>)
      requires Valid()
      modifies Repr()
      ensures Valid() && State() == Step(old(State()), StoreOp.FindPodSessionByPVC(namespace, pvcUID, now))
      ensures session == FoundByPVC(old(State()).pods, PvcKey(namespace, pvcUID), now)
    {
      hide StoreOk, Keep, AfterGet, Lookup, SlotsOf, NoDuplicates, PvcKey, Find;
      StepOk(State(), StoreOp.FindPodSessionByPVC(namespace, pvcUID, now));
      var key := PvcKey(namespace, pvcUID);
      var id := podSessionByPVC.Get(key, now);
      if id.None? {
        return None;
      }
      session := podSessions.Get(id.value, now);
      if session.None? {
        var _ := podSessionByPVC.Delete(key);
      }
    }

    method PutViewerSession(session: ViewerSession)
      requires Valid()
      modifies Repr()
      ensures Valid() && State() == Step(old(State()), StoreOp.PutViewerSession(session))
    {
      hide StoreOk, Keep, Find, AfterPut, SlotsOf, NoDuplicates, Evicted, RemoveViewer, AddViewer;
      StepOk(State(), StoreOp.PutViewerSession(session));
      viewerSessions.Peek(session.id);
      NoEmptyPod(State());
      if session.id in viewerSessions.items {
        var existing := viewerSessions.items[session.id].value;
        if existing.podSessionID != session.podSessionID {
          DeleteViewerByPod(existing.podSessionID, session.id);
        }
      }
      var _ := viewerSessions.Put(session.id, session, session.expiresAt);
      AddInTwoSteps(viewerByPod, session.podSessionID, session.id);
      if session.podSessionID !in viewerByPod {
        viewerByPod := viewerByPod[session.podSessionID := {}];
      }
      viewerByPod := viewerByPod[session.podSessionID := viewerByPod[session.podSessionID] + {session.id}];
    }

    method GetViewerSession(id: string, now: Time) returns (session: Option<ViewerSession>)
      requires Valid()
      modifies Repr()
      ensures Valid() && State() == Step(old(State()), StoreOp.GetViewerSession(id, now))
      ensures session == Lookup(old(State()).viewers.sessions, id, now)
    {
      hide StoreOk, Keep, AfterGet, Lookup, SlotsOf, NoDuplicates, DropTokens, Find;
      StepOk(State(), StoreOp.GetViewerSession(id, now));
      session := viewerSessions.Get(id, now);
      if session.None? {
        DeleteTokenForViewer(id);
      }
    }

    method DeleteViewerSession(id: string)
      requires Valid()
      modifies Repr()
      ensures Valid() && State() == Step(old(State()), StoreOp.DeleteViewerSession(id))
    {
      hide StoreOk, Keep, Find, SlotsOf, NoDuplicates, DropTokens, RemoveViewer;
      StepOk(State(), StoreOp.DeleteViewerSession(id));
      KeepAbsent(viewerSessions.Slots(), id);
      NoEmptyPod(State());
      var session := viewerSessions.Delete(id);
      if session.Some? {
        DeleteViewerByPod(session.value.podSessionID, id);
      }
      DeleteTokenForViewer(id);
    }

    method CreateAuthRequest(req: AuthRequest, secret: string)
      requires Valid()
      modifies Repr()
      ensures Valid() && State() == Step(old(State()), StoreOp.CreateAuthRequest(req, secret))
    {
      hide StoreOk, AfterPut, Evicted, SlotsOf, NoDuplicates;
      StepOk(State(), StoreOp.CreateAuthRequest(req, secret));
      var copyReq := req.(passwordHash := secret);
      var _ := authRequests.Put(copyReq.id, copyReq, copyReq.expiresAt);
    }

    method ConsumeAuthRequest(id: string, passwordHash: string, now: Time) returns (req: Option<AuthRequest>)
      requires Valid()
      modifies Repr()
      ensures Valid() && State() == Step(old(State()), StoreOp.ConsumeAuthRequest(id, passwordHash, now))
      ensures req == Consumable(old(State()).auths, id, passwordHash, now)
    {
      hide StoreOk, Keep, AfterGet, Lookup, SlotsOf, NoDuplicates, Find;
      StepOk(State(), StoreOp.ConsumeAuthRequest(id, passwordHash, now));
      var found := authRequests.Get(id, now);
      if found.None? || found.value.usedAt.Some? {
        return None;
      }
      if found.value.passwordHash != passwordHash {
        return None;
      }
      var used := found.value.(usedAt := Some(now));
      var _ := authRequests.Delete(id);
      return Some(used);
    }

    method PutTokenRecord(record: TokenRecord)
      requires Valid()
      modifies Repr()
      ensures Valid() && State() == Step(old(State()), StoreOp.PutTokenRecord(record))
    {
      hide StoreOk, Keep, AfterPut, Evicted, SlotsOf, NoDuplicates, DropTokens, DropHashes, Find;
      StepOk(State(), StoreOp.PutTokenRecord(record));
      var viewer := record.viewerSessionID;
      if viewer in tokenByViewer && tokenByViewer[viewer] != record.tokenHash {
        DeleteTokenForViewer(viewer);
      }
      DropNoHash(tokenByViewer);
      var evicted := tokenRecords.Put(record.tokenHash, record, record.expiresAt);
      if evicted.Some? {
        DeleteTokenIndexByHash(evicted.value);
      }
      tokenByViewer := tokenByViewer[viewer := record.tokenHash];
    }

    method GetTokenRecord(viewerSessionID: string, podSessionID: string, now: Time) returns (found: Option<TokenRecord>)
      requires Valid()
      modifies Repr()
      ensures Valid() && State() == Step(old(State()), StoreOp.GetTokenRecord(viewerSessionID, podSessionID, now))
      ensures found == UsableToken(old(State()).tokens, viewerSessionID, podSessionID, now)
    {
      hide StoreOk, Keep, AfterGet, Lookup, SlotsOf, NoDuplicates, DropTokens, Find;
      StepOk(State(), StoreOp.GetTokenRecord(viewerSessionID, podSessionID, now));
      if viewerSessionID !in tokenByViewer {
        return None;
      }
      var hash := tokenByViewer[viewerSessionID];
      var record := tokenRecords.Get(hash, now);
      if record.None? {
        tokenByViewer := tokenByViewer - {viewerSessionID};
        return None;
      }
      if record.value.viewerSessionID != viewerSessionID || record.value.podSessionID != podSessionID
         || record.value.rawToken == "" {
        DeleteTokenForViewer(viewerSessionID);
        return None;
      }
      return record;
    }

    /** The sessions of a pod; ids that no longer lead to a live session are dropped, with their tokens. */
    method ListViewerSessionsByPod(podSessionID: string, now: Time)
      returns (sessions: seq<ViewerSession>, ghost visited: seq<string>)
      requires Valid()
      modifies Repr()
      ensures IsOp(old(State()), StoreOp.ListViewerSessionsByPod(podSessionID, visited, now))
      ensures Valid() && State() == Step(old(State()), StoreOp.ListViewerSessionsByPod(podSessionID, visited, now))
      ensures sessions == Listed(old(State()).viewers.sessions, visited, now)
    {
      hide StoreOk, Keep, AfterGet, Lookup, Find, SlotsOf, NoDuplicates, DropTokens, Missing, At, Visit, Listed;
      ghost var before := State();
      ghost var s := before.viewers.sessions;
      ghost var ids := At(viewerByPod, podSessionID);
      visited := [];
      sessions := [];
      ListStart(before, podSessionID, now);
      if podSessionID !in viewerByPod {
        return;
      }
      var pending := viewerByPod[podSessionID];
      ghost var left := ids;
      while pending != {}
        invariant Wired() && podSessionID in viewerByPod
        invariant NoDuplicates(visited) && Elements(visited) !! pending && Elements(visited) + pending == ids
        invariant left == ids - Missing(s, Elements(visited), now)
        invariant viewerByPod == before.viewers.byPod[podSessionID := left]
        invariant State() == before.(
          viewers := before.viewers.(sessions := Visit(s, visited, now), byPod := viewerByPod),
          tokens := DropTokens(before.tokens, Missing(s, Elements(visited), now)))
        invariant sessions == Listed(s, visited, now)
        decreases pending
      {
        var id :| id in pending;
        pending := pending - {id};
        VisitOne(before, visited, id, now);
        var session := viewerSessions.Get(id, now);
        if session.None? {
          UpdateTwice(before.viewers.byPod, podSessionID, left, left - {id});
          left := left - {id};
          viewerByPod := viewerByPod[podSessionID := viewerByPod[podSessionID] - {id}];
          DeleteTokenForViewer(id);
        } else {
          sessions := sessions + [session.value];
        }
        visited := visited + [id];
      }
      ListEnd(before, podSessionID, visited, now);
      if viewerByPod[podSessionID] == {} {
        viewerByPod := viewerByPod - {podSessionID};
      }
      StepOk(before, StoreOp.ListViewerSessionsByPod(podSessionID, visited, now));
    }

    /** Purges every cache, and the index entries of the viewers and tokens purged. */
    method PurgeExpired(now: Time) returns (expired: seq<ExpiredItem>)
      requires Valid()
      modifies Repr()
      ensures Valid() && State() == Step(old(State()), StoreOp.PurgeExpired(now))
      ensures NoDuplicates(expired) && forall item :: item in expired <==> Purged(old(State()), item, now)
    {
      hide StoreOk, Keep, Find, SlotsOf, NoDuplicates, DropTokens, DropHashes, DeadKeys, RemoveViewers, Purged, Ids, Step, AfterPurge, NoDuplicates;
      ghost var before := State();
      StepOk(before, StoreOp.PurgeExpired(now));
      NoEmptyPod(before);
      var pods := PurgeCache(PodItem, podSessions, now);
      var viewers := PurgeCache(ViewerItem, viewerSessions, now);
      ForgetViewers(viewers);
      assert State().tokens == DropTokens(before.tokens, DeadKeys(before.viewers.sessions, now));
      var auths := PurgeCache(AuthItem, authRequests, now);
      var tokens := PurgeCache(TokenItem, tokenRecords, now);
      ForgetHashes(tokens);
      var _ := podSessionByPVC.PurgeExpired(now);
      PurgedInParts(before, pods, viewers, auths, tokens, now);
      PurgeParts(before, now);
      assert State() == Step(before, StoreOp.PurgeExpired(now));
      return pods + viewers + auths + tokens;
    }

    /** Removes some viewers from every pod, and their tokens. */
    method ForgetViewers(viewers: seq<ExpiredItem>)
      requires Wired() && forall pod :: pod in viewerByPod ==> viewerByPod[pod] != {}
      modifies this, tokenRecords
      ensures Wired()
      ensures var s := old(State());
        State() == s.(
          viewers := s.viewers.(byPod := RemoveViewers(s.viewers.byPod, Ids(viewers))),
          tokens := DropTokens(s.tokens, Ids(viewers)))
    {
      hide Keep, Find, SlotsOf, NoDuplicates, DropTokens, RemoveViewers, Ids;
      ghost var s := State();
      NothingForgotten(s);
      var i := 0;
      while i < |viewers|
        invariant 0 <= i <= |viewers| && Wired()
        invariant State() == s.(
          viewers := s.viewers.(byPod := RemoveViewers(s.viewers.byPod, Ids(viewers[..i]))),
          tokens := DropTokens(s.tokens, Ids(viewers[..i])))
      {
        OneMoreForgotten(s, viewers, i);
        RemoveFromEveryPod(viewers[i].id);
        DeleteTokenForViewer(viewers[i].id);
        i := i + 1;
      }
      assert viewers[..i] == viewers;
    }

    method RemoveFromEveryPod(viewer: string)
      requires forall pod :: pod in viewerByPod ==> viewerByPod[pod] != {}
      modifies this`viewerByPod
      ensures viewerByPod == RemoveViewers(old(viewerByPod), {viewer})
    {
      ghost var before := viewerByPod;
      var pending := viewerByPod.Keys;
      while pending != {}
        invariant pending <= before.Keys
        invariant forall pod :: pod in viewerByPod <==>
          pod in before && (pod in pending || before[pod] - {viewer} != {})
        invariant forall pod :: pod in viewerByPod ==>
          viewerByPod[pod] == if pod in pending then before[pod] else before[pod] - {viewer}
        decreases pending
      {
        var pod :| pod in pending;
        pending := pending - {pod};
        viewerByPod := viewerByPod[pod := viewerByPod[pod] - {viewer}];
        if viewerByPod[pod] == {} {
          viewerByPod := viewerByPod - {pod};
        }
      }
    }

    method ForgetHashes(tokens: seq<ExpiredItem>)
      modifies this`tokenByViewer
      ensures tokenByViewer == DropHashes(old(tokenByViewer), Ids(tokens))
    {
      ghost var before := tokenByViewer;
      DropNoHash(before);
      var i := 0;
      while i < |tokens|
        invariant 0 <= i <= |tokens|
        invariant tokenByViewer == DropHashes(before, Ids(tokens[..i]))
      {
        IdsGrow(tokens, i);
        DropHashesTwice(before, Ids(tokens[..i]), tokens[i].id);
        DeleteTokenIndexByHash(tokens[i].id);
        i := i + 1;
      }
      assert tokens[..i] == tokens;
    }

    // ----- index maintenance, called with the mutex held -----

    method DeleteViewerByPod(podSessionID: string, viewerSessionID: string)
      requires forall pod :: pod in viewerByPod ==> viewerByPod[pod] != {}
      modifies this`viewerByPod
      ensures viewerByPod == RemoveViewer(old(viewerByPod), podSessionID, viewerSessionID)
    {
      if podSessionID !in viewerByPod {
        return;
      }
      viewerByPod := viewerByPod[podSessionID := viewerByPod[podSessionID] - {viewerSessionID}];
      if viewerByPod[podSessionID] == {} {
        viewerByPod := viewerByPod - {podSessionID};
      }
    }

    method DeleteTokenForViewer(viewerSessionID: string)
      requires Wired()
      modifies this`tokenByViewer, tokenRecords
      ensures Wired() && State() == old(State()).(tokens := DropTokens(old(State()).tokens, {viewerSessionID}))
    {
      hide SlotsOf, NoDuplicates, DropTokens, Find, Keep;
      DropOne(State().tokens, viewerSessionID);
      if viewerSessionID !in tokenByViewer {
        return;
      }
      var tokenHash := tokenByViewer[viewerSessionID];
      tokenByViewer := tokenByViewer - {viewerSessionID};
      var _ := tokenRecords.Delete(tokenHash);
    }

    method DeleteTokenIndexByHash(tokenHash: string)
      modifies this`tokenByViewer
      ensures tokenByViewer == DropHashes(old(tokenByViewer), {tokenHash})
    {
      ghost var before := tokenByViewer;
      var pending := tokenByViewer.Keys;
      while pending != {}
        invariant tokenByViewer == map v | v in before && (v in pending || before[v] != tokenHash) :: before[v]
        invariant pending <= before.Keys
        decreases pending
      {
        var viewer :| viewer in pending;
        pending := pending - {viewer};
        if tokenByViewer[viewer] == tokenHash {
          tokenByViewer := tokenByViewer - {viewer};
        }
      }
    }
  }

  method PurgeCache<V(!new)>(kind: Kind, c: LruCache<string, V>, now: Time) returns (items: seq<ExpiredItem>)
    requires c.Valid()
    modifies c
    ensures c.Valid() && c.Slots() == AfterPurge(old(c.Slots()), now)
    ensures AllOf(items, kind, DeadKeys(old(c.Slots()), now))
  {
    hide Keep, SlotsOf, DeadKeys;
    var keys := c.PurgeExpired(now);
    items := [];
    var i := 0;
    while i < |keys|
      invariant 0 <= i <= |keys| && |items| == i
      invariant forall k :: 0 <= k < i ==> items[k] == ExpiredItem(kind, keys[k])
    {
      items := items + [ExpiredItem(kind, keys[i])];
      i := i + 1;
    }
    forall id ensures id in Ids(items) <==> id in keys {
      if id in keys {
        var k :| 0 <= k < |keys| && keys[k] == id;
        assert items[k] in items;
      }
    }
  }

  // ----- facts about the operations -----

  ghost function Ids(items: seq<ExpiredItem>): set<string> { set item | item in items :: item.id }

  /** What a purge reports: the expired keys of each cache, where a token already dropped with its viewer no longer counts. */
  ghost predicate Purged(s: StoreState, item: ExpiredItem, now: Time) {
    match item.kind
    case PodItem => item.id in DeadKeys(s.pods.sessions, now)
    case ViewerItem => item.id in DeadKeys(s.viewers.sessions, now)
    case AuthItem => item.id in DeadKeys(s.auths.requests, now)
    case TokenItem => item.id in DeadKeys(DropTokens(s.tokens, DeadKeys(s.viewers.sessions, now)).records, now)
  }

  ghost predicate AllOf(items: seq<ExpiredItem>, kind: Kind, ids: set<string>) {
    NoDuplicates(items) && Ids(items) == ids && forall item :: item in items ==> item.kind == kind
  }

  lemma JoinKinds(a: seq<ExpiredItem>, b: seq<ExpiredItem>)
    requires NoDuplicates(a) && NoDuplicates(b) && forall x, y :: x in a && y in b ==> x.kind != y.kind
    ensures NoDuplicates(a + b)
  {}

  lemma PurgedInParts(
    s: StoreState, pods: seq<ExpiredItem>, viewers: seq<ExpiredItem>, auths: seq<ExpiredItem>, tokens: seq<ExpiredItem>, now: Time)
    requires AllOf(pods, PodItem, DeadKeys(s.pods.sessions, now))
    requires AllOf(viewers, ViewerItem, DeadKeys(s.viewers.sessions, now))
    requires AllOf(auths, AuthItem, DeadKeys(s.auths.requests, now))
    requires AllOf(tokens, TokenItem, DeadKeys(DropTokens(s.tokens, DeadKeys(s.viewers.sessions, now)).records, now))
    ensures var all := pods + viewers + auths + tokens;
      NoDuplicates(all) && forall item :: item in all <==> Purged(s, item, now)
  {
    hide DeadKeys, DropTokens;
    JoinKinds(pods, viewers);
    JoinKinds(pods + viewers, auths);
    JoinKinds(pods + viewers + auths, tokens);
    hide NoDuplicates;
    forall item ensures item in pods + viewers + auths + tokens <==> Purged(s, item, now) {
      IsAmong(pods, PodItem, item);
      IsAmong(viewers, ViewerItem, item);
      IsAmong(auths, AuthItem, item);
      IsAmong(tokens, TokenItem, item);
    }
  }

  // The purge written out table by table.
  lemma PurgeParts(s: StoreState, now: Time)
    ensures var dead := DeadKeys(s.viewers.sessions, now);
      var left := DropTokens(s.tokens, dead);
      Step(s, StoreOp.PurgeExpired(now)) == StoreState(
        PodTable(s.pods.capacity, AfterPurge(s.pods.sessions, now), s.pods.indexCapacity, AfterPurge(s.pods.byPVC, now)),
        ViewerTable(s.viewers.capacity, AfterPurge(s.viewers.sessions, now), RemoveViewers(s.viewers.byPod, dead)),
        AuthTable(s.auths.capacity, AfterPurge(s.auths.requests, now)),
        TokenTable(s.tokens.capacity, AfterPurge(left.records, now), DropHashes(left.byViewer, DeadKeys(left.records, now))))
  {}

  lemma IsAmong(items: seq<ExpiredItem>, kind: Kind, item: ExpiredItem)
    requires forall x :: x in items ==> x.kind == kind
    ensures item in items <==> item.kind == kind && item.id in Ids(items)
  {
    if item.kind == kind && item.id in Ids(items) { var x :| x in items && x.id == item.id; }
  }

  lemma IdsGrow(items: seq<ExpiredItem>, i: nat)
    requires i < |items|
    ensures Ids(items[..i + 1]) == Ids(items[..i]) + {items[i].id}
  {
    assert items[..i + 1] == items[..i] + [items[i]];
  }

  lemma DropHashesTwice(index: map<string, string>, a: set<string>, h: string)
    ensures DropHashes(DropHashes(index, a), {h}) == DropHashes(index, a + {h})
  {}

  lemma RemoveViewersTwice(index: PodIndex, a: set<string>, v: string)
    ensures RemoveViewers(RemoveViewers(index, a), {v}) == RemoveViewers(index, a + {v})
    ensures forall pod :: pod in RemoveViewers(index, a) ==> RemoveViewers(index, a)[pod] != {}
  {
    assert forall pod :: pod in index ==> index[pod] - a - {v} == index[pod] - (a + {v});
  }

  lemma NothingForgotten(s: StoreState)
    requires forall pod :: pod in s.viewers.byPod ==> s.viewers.byPod[pod] != {}
    ensures Ids([]) == {} && RemoveViewers(s.viewers.byPod, {}) == s.viewers.byPod && DropTokens(s.tokens, {}) == s.tokens
  {
    DropNone(s.tokens);
    assert forall pod :: pod in s.viewers.byPod ==> s.viewers.byPod[pod] - {} == s.viewers.byPod[pod];
  }

  lemma OneMoreForgotten(s: StoreState, viewers: seq<ExpiredItem>, i: nat)
    requires i < |viewers|
    ensures var done, id := Ids(viewers[..i]), viewers[i].id;
      && Ids(viewers[..i + 1]) == done + {id}
      && (forall pod :: pod in RemoveViewers(s.viewers.byPod, done) ==> RemoveViewers(s.viewers.byPod, done)[pod] != {})
      && RemoveViewers(RemoveViewers(s.viewers.byPod, done), {id}) == RemoveViewers(s.viewers.byPod, done + {id})
      && DropTokens(DropTokens(s.tokens, done), {id}) == DropTokens(s.tokens, done + {id})
  {
    IdsGrow(viewers, i);
    RemoveViewersTwice(s.viewers.byPod, Ids(viewers[..i]), viewers[i].id);
    DropTwice(s.tokens, Ids(viewers[..i]), {viewers[i].id});
    hide Ids, RemoveViewers, DropTokens;
  }

  ghost function ExpiredValues<K(!new), V(!new)>(s: Recency<K, V>, now: Time): seq<V> {
    ValuesOf(Keep(s, Keys(s) - DeadKeys(s, now)))
  }

  lemma ExpiredStart<V(!new)>(order: seq<string>, items: map<string, Item<V>>, now: Time)
    requires NoDuplicates(order) && forall k :: k in order <==> k in items
    ensures var s := SlotsOf(order, items);
      Distinct(s) && items.Keys == Keys(s) && ValuesOf(Keep(s, items.Keys + {})) == []
  {
    var s := SlotsOf(order, items);
    SlotsOfFacts(order, items);
    hide SlotsOf, Keep, NoDuplicates, Find, Distinct, ValuesOf;
    KeysOfItems(order, items, Keys(s));
    hide Keys;
    assert items.Keys + {} == Keys(s);
    NothingSeen(s);
  }

  lemma DeadOrAlive<V(!new)>(s: Recency<string, V>, slot: Slot<string, V>, now: Time)
    requires Distinct(s) && Find(s, slot.key) == Some(slot)
    ensures slot in s && (slot.key in DeadKeys(s, now) <==> Expired(slot.expiresAt, now))
  {
    UniqueSlot(s, slot);
  }

  lemma KeepAbsent<V(!new)>(s: Recency<string, V>, key: string)
    ensures Find(s, key).None? ==> Keep(s, {key}) == s
  {
    if Find(s, key).None? {
      KeysAre(s);
      KeepNone(s, {key});
    }
  }

  ghost function Elements(ids: seq<string>): set<string> { set id | id in ids }

  lemma {:induction false} VisitLookup(s: Recency<string, ViewerSession>, ids: seq<string>, id: string, now: Time)
    requires Distinct(s)
    ensures Distinct(Visit(s, ids, now)) && Lookup(Visit(s, ids, now), id, now) == Lookup(s, id, now)
  {
    if ids != [] {
      var init := Visit(s, ids[..|ids| - 1], now);
      VisitLookup(s, ids[..|ids| - 1], id, now);
      GetLookup(init, ids[|ids| - 1], id, now);
    }
  }

  lemma DropTwice(t: TokenTable, a: set<string>, b: set<string>)
    ensures DropTokens(DropTokens(t, a), b) == DropTokens(t, a + b)
  {
    var t1 := DropTokens(t, a);
    KeepTwice(t.records, IndexedHashes(t.byViewer, a), IndexedHashes(t1.byViewer, b));
    HashesOfBoth(t.byViewer, a, b);
    assert t.byViewer - (a + b) == t1.byViewer - b;
  }

  lemma HashesOfBoth(index: map<string, string>, a: set<string>, b: set<string>)
    ensures IndexedHashes(index, a + b) == IndexedHashes(index, a) + IndexedHashes(index - a, b)
  {
    forall k | k in IndexedHashes(index, a + b) ensures k in IndexedHashes(index, a) + IndexedHashes(index - a, b) {
      var v :| v in a + b && v in index && index[v] == k;
      if v !in a { assert v in index - a && (index - a)[v] == k; }
    }
  }

  lemma DropNone(t: TokenTable)
    ensures DropTokens(t, {}) == t
  {
    KeepNone(t.records, IndexedHashes(t.byViewer, {}));
    assert t.byViewer - {} == t.byViewer;
  }

  lemma ListStart(s: StoreState, pod: string, now: Time)
    requires StoreOk(s)
    ensures Distinct(s.viewers.sessions)
    ensures Elements([]) == {} && NoDuplicates<string>([]) && Missing(s.viewers.sessions, {}, now) == {}
    ensures Visit(s.viewers.sessions, [], now) == s.viewers.sessions && Listed(s.viewers.sessions, [], now) == []
    ensures DropTokens(s.tokens, {}) == s.tokens
    ensures At(s.viewers.byPod, pod) == if pod in s.viewers.byPod then s.viewers.byPod[pod] else {}
  {
    DropNone(s.tokens);
  }

  lemma ListEnd(s: StoreState, pod: string, visited: seq<string>, now: Time)
    requires pod in s.viewers.byPod && Elements(visited) == At(s.viewers.byPod, pod)
    ensures var list, index := s.viewers.sessions, s.viewers.byPod;
      var left := At(index, pod) - Missing(list, Elements(visited), now);
      && (forall id :: id in visited <==> id in ViewersOf(s.viewers, pod))
      && Step(s, StoreOp.ListViewerSessionsByPod(pod, visited, now)) == s.(
        viewers := s.viewers.(sessions := Visit(list, visited, now),
          byPod := if left == {} then index[pod := left] - {pod} else index[pod := left]),
        tokens := DropTokens(s.tokens, Missing(list, Elements(visited), now)))
  {
    hide DropTokens, Visit, Missing;
    var left := At(s.viewers.byPod, pod) - Missing(s.viewers.sessions, Elements(visited), now);
    assert s.viewers.byPod[pod := left] - {pod} == s.viewers.byPod - {pod};
  }

  lemma UpdateTwice(index: PodIndex, pod: string, a: set<string>, b: set<string>)
    ensures index[pod := a][pod := b] == index[pod := b]
  {}

  // One more id visited.
  lemma VisitOne(s: StoreState, visited: seq<string>, id: string, now: Time)
    requires Distinct(s.viewers.sessions) && NoDuplicates(visited) && id !in visited
    ensures var list, more := s.viewers.sessions, visited + [id];
      var found := Lookup(list, id, now);
      var gone := Missing(list, Elements(visited), now);
      && NoDuplicates(more) && Elements(more) == Elements(visited) + {id}
      && Visit(list, more, now) == AfterGet(Visit(list, visited, now), id, now)
      && Lookup(Visit(list, visited, now), id, now) == found
      && Listed(list, more, now) == (if found.None? then Listed(list, visited, now) else Listed(list, visited, now) + [found.value])
      && Missing(list, Elements(more), now) == (if found.None? then gone + {id} else gone)
      && DropTokens(DropTokens(s.tokens, gone), {id}) == DropTokens(s.tokens, gone + {id})
  {
    var list, more := s.viewers.sessions, visited + [id];
    VisitLookup(list, visited, id, now);
    DropTwice(s.tokens, Missing(list, Elements(visited), now), {id});
    AppendFresh(visited, id);
    assert more[..|more| - 1] == visited;
    hide AfterGet, Lookup, DropTokens;
  }

  lemma AddInTwoSteps(index: PodIndex, pod: string, viewer: string)
    ensures var made := if pod in index then index else index[pod := {}];
      made[pod := made[pod] + {viewer}] == AddViewer(index, pod, viewer)
  {}

  lemma NoEmptyPod(s: StoreState)
    requires StoreOk(s)
    ensures forall pod :: pod in s.viewers.byPod ==> s.viewers.byPod[pod] != {}
  {}

  lemma DropOne(t: TokenTable, viewer: string)
    ensures DropTokens(t, {viewer})
      == if viewer !in t.byViewer then t
         else t.(byViewer := t.byViewer - {viewer}, records := AfterDelete(t.records, t.byViewer[viewer]))
  {
    if viewer !in t.byViewer {
      KeepNone(t.records, IndexedHashes(t.byViewer, {viewer}));
      assert t.byViewer - {viewer} == t.byViewer;
    } else {
      assert IndexedHashes(t.byViewer, {viewer}) == {t.byViewer[viewer]};
    }
  }

  lemma DropNoHash(index: map<string, string>)
    ensures DropHashes(index, {}) == index
  {}
}
