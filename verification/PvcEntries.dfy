/** The entries of the PVC index over every run of the store: which session each leads to, and when a lookup finds it. */
module PvcEntries {
  import opened Results
  import opened Cache
  import opened StoreModel
  import opened StoreInvariants

  predicate PutsFor(op: StoreOp, key: string) { op.PutPodSession? && KeyOf(op.pod) == key }

  predicate PutsId(op: StoreOp, id: string) { op.PutPodSession? && op.pod.id == id }

  /** The session last put for the key. */
  function LastPutFor(ops: seq<StoreOp>, key: string): Option<PodSession> {
    if ops == [] then None
    else if PutsFor(ops[|ops| - 1], key) then Some(ops[|ops| - 1].pod)
    else LastPutFor(ops[..|ops| - 1], key)
  }

  /** The session last put under the id. */
  function LastPutOf(ops: seq<StoreOp>, id: string): Option<PodSession> {
    if ops == [] then None
    else if PutsId(ops[|ops| - 1], id) then Some(ops[|ops| - 1].pod)
    else LastPutOf(ops[..|ops| - 1], id)
  }

  // ----- when a call drops the entry of a key -----

  ghost predicate StoredFor(t: PodTable, id: string, key: string) {
    match Find(t.sessions, id)
    case None => false
    case Some(slot) => KeyOf(slot.value) == key
  }

  /** The index without the entry of the claim the session is moved away from. */
  ghost function BeforePut(t: PodTable, p: PodSession): Recency<string, string> {
    match Find(t.sessions, p.id)
    case None => t.byPVC
    case Some(prior) => if KeyOf(prior.value) != KeyOf(p) then AfterDelete(t.byPVC, KeyOf(prior.value)) else t.byPVC
  }

  /**
   * The call drops the entry of the key: a put that moves a stored session away from the claim or
   * evicts the entry, a delete of a stored session of the claim, a lookup that finds nothing, or a
   * purge when the entry has expired.
   */
  ghost predicate Drops(s: StoreState, op: StoreOp, key: string) {
    match op
    case PutPodSession(p) =>
      KeyOf(p) != key
      && (StoredFor(s.pods, p.id, key) || Evicted(BeforePut(s.pods, p), s.pods.indexCapacity, KeyOf(p)) == Some(key))
    case DeletePodSession(id) => StoredFor(s.pods, id, key)
    case FindPodSessionByPVC(namespace, pvcUID, now) => PvcKey(namespace, pvcUID) == key && FoundByPVC(s.pods, key, now).None?
    case PurgeExpired(now) => key in DeadKeys(s.pods.byPVC, now)
    case _ => false
  }

  /** The key was put, and no call since its last put dropped it. */
  ghost predicate Kept(c: Capacities, ops: seq<StoreOp>, key: string) {
    if ops == [] then false
    else
      var before, op := ops[..|ops| - 1], ops[|ops| - 1];
      PutsFor(op, key) || (Kept(c, before, key) && !Drops(After(c, before), op, key))
  }

  function EntryOf(p: PodSession): Slot<string, string> { Slot(KeyOf(p), p.id, p.expiresAt) }

  lemma EntryAfterPut(t: PodTable, p: PodSession, key: string)
    requires PodsOk(t)
    ensures Find(PutPod(t, p).byPVC, key) ==
      if key == KeyOf(p) then Some(EntryOf(p))
      else if StoredFor(t, p.id, key) || Evicted(BeforePut(t, p), t.indexCapacity, KeyOf(p)) == Some(key) then None
      else Find(t.byPVC, key)
  {
    var index := BeforePut(t, p);
    hide AfterPut, Keep, KeyOf, Keys, Evicted;
    match Find(t.sessions, p.id) {
      case None =>
      case Some(prior) =>
        KeepOk(t.byPVC, t.indexCapacity, {KeyOf(prior.value)});
        FindAfterKeep(t.byPVC, {KeyOf(prior.value)}, key);
    }
    FindAfterPut(index, t.indexCapacity, EntryOf(p), key);
  }

  lemma EntryAfterFind(t: PodTable, key: string, now: Time, other: string)
    requires PodsOk(t)
    ensures Find(FindByPVC(t, key, now).byPVC, other) ==
      if other == key && FoundByPVC(t, key, now).None? then None else Find(t.byPVC, other)
  {
    GetOk(t.byPVC, t.indexCapacity, key, now);
    FindAfterGet(t.byPVC, key, now, other);
    FindAfterKeep(AfterGet(t.byPVC, key, now), {key}, other);
    hide AfterGet, Keep;
  }

  /** What a call does to the entry of a key: it is written by a put, gone when dropped, and unchanged otherwise. */
  lemma EntryAfter(s: StoreState, op: StoreOp, key: string)
    requires StoreOk(s)
    ensures Find(Step(s, op).pods.byPVC, key) ==
      if PutsFor(op, key) then Some(EntryOf(op.pod)) else if Drops(s, op, key) then None else Find(s.pods.byPVC, key)
  {
    var t := s.pods;
    hide PutPod, FindByPVC, FoundByPVC, Keep, KeyOf, PvcKey, Evicted, BeforePut, Keys;
    match op
    case PutPodSession(p) => EntryAfterPut(t, p, key);
    case DeletePodSession(id) =>
      if Find(t.sessions, id).Some? { FindAfterKeep(t.byPVC, {KeyOf(Find(t.sessions, id).value.value)}, key); }
    case FindPodSessionByPVC(namespace, pvcUID, now) => EntryAfterFind(t, PvcKey(namespace, pvcUID), now, key);
    case PurgeExpired(now) => FindAfterKeep(t.byPVC, DeadKeys(t.byPVC, now), key);
    case _ =>
  }

  /** Over any run the index holds an entry for a key exactly while it is kept, and it leads to the session last put for it. */
  lemma {:induction false} IndexHoldsLastPut(c: Capacities, ops: seq<StoreOp>, key: string)
    ensures Kept(c, ops, key) ==> LastPutFor(ops, key).Some?
    ensures Find(After(c, ops).pods.byPVC, key) == if Kept(c, ops, key) then Some(EntryOf(LastPutFor(ops, key).value)) else None
  {
    if ops != [] {
      var n := |ops| - 1;
      AfterLast(c, ops);
      TraceOk(c, ops[..n]);
      IndexHoldsLastPut(c, ops[..n], key);
      EntryAfter(After(c, ops[..n]), ops[n], key);
      hide After, Step, StoreOk, Drops, PutsFor, Find;
    }
  }

  // ----- stored sessions -----

  lemma {:induction false} StoredIsLastPut(c: Capacities, ops: seq<StoreOp>)
    ensures forall x :: x in After(c, ops).pods.sessions ==> LastPutOf(ops, x.key) == Some(x.value)
  {
    if ops != [] {
      var n := |ops| - 1;
      AfterLast(c, ops);
      TraceOk(c, ops[..n]);
      StoredIsLastPut(c, ops[..n]);
      SessionsAfter(After(c, ops[..n]), ops[n]);
      hide After, Step, StoreOk;
    }
  }

  lemma SessionsAfter(s: StoreState, op: StoreOp)
    requires StoreOk(s)
    ensures forall x :: x in Step(s, op).pods.sessions ==>
      if PutsId(op, x.key) then x.value == op.pod else x in s.pods.sessions
  {
    var t := s.pods;
    hide AfterPut, AfterGet, Keep, KeyOf, PvcKey;
    match op
    case PutPodSession(p) => PutOk(t.sessions, t.capacity, Slot(p.id, p, p.expiresAt));
    case GetPodSession(id, now) => GetOk(t.sessions, t.capacity, id, now);
    case FindPodSessionByPVC(namespace, pvcUID, now) =>
      var key := PvcKey(namespace, pvcUID);
      match Lookup(t.byPVC, key, now) {
        case None =>
        case Some(id) => GetOk(t.sessions, t.capacity, id, now);
      }
    case _ =>
  }

  // A session last put under its id for the key, when that id was also the last put for the key.
  lemma {:induction false} LastOfBoth(ops: seq<StoreOp>, p: PodSession, q: PodSession)
    requires LastPutOf(ops, q.id) == Some(p) && LastPutFor(ops, KeyOf(p)) == Some(q)
    ensures p == q
  {
    var op := ops[|ops| - 1];
    if !PutsId(op, q.id) && !PutsFor(op, KeyOf(p)) { LastOfBoth(ops[..|ops| - 1], p, q); }
  }

  // ----- what a lookup finds -----

  ghost predicate StoredAndLive(t: PodTable, id: string, p: PodSession, now: Time) {
    Slot(id, p, p.expiresAt) in t.sessions && !Expired(p.expiresAt, now)
  }

  /**
   * A lookup returns a session if and only if the key was kept since its last put, its entry has not
   * expired, and the session is stored, live, under the id that was last put for the key.
   */
  lemma LookupIsExact(c: Capacities, ops: seq<StoreOp>, key: string, now: Time, p: PodSession)
    ensures var t, last := After(c, ops).pods, LastPutFor(ops, key);
      FoundByPVC(t, key, now) == Some(p) <==>
        Kept(c, ops, key) && last.Some? && !Expired(last.value.expiresAt, now) && StoredAndLive(t, last.value.id, p, now)
  {
    IndexHoldsLastPut(c, ops, key);
    TraceOk(c, ops);
    var t, last := After(c, ops).pods, LastPutFor(ops, key);
    hide After, Kept, LastPutFor;
    if last.Some? {
      var id := last.value.id;
      if StoredAndLive(t, id, p, now) { FindIs(t.sessions, Slot(id, p, p.expiresAt)); }
      if Find(t.sessions, id).Some? { assert Find(t.sessions, id).value in t.sessions; }
    }
  }

  /** The session last put for a claim is found if and only if its key was kept since and it is still stored, as put, and live. */
  lemma LastPutIsFoundExactly(c: Capacities, ops: seq<StoreOp>, q: PodSession, now: Time)
    requires LastPutFor(ops, KeyOf(q)) == Some(q)
    ensures FoundByPVC(After(c, ops).pods, KeyOf(q), now) == Some(q) <==>
      Kept(c, ops, KeyOf(q)) && StoredAndLive(After(c, ops).pods, q.id, q, now)
  {
    LookupIsExact(c, ops, KeyOf(q), now, q);
    hide After, Kept, LastPutFor, KeyOf;
  }

  /** A delete of another session keeps a session found if and only if that other is not stored for the same claim. */
  lemma DeleteKeepsFoundExactly(t: PodTable, id: string, key: string, now: Time, p: PodSession)
    requires PodsOk(t) && FoundByPVC(t, key, now) == Some(p) && p.id != id
    ensures FoundByPVC(DeletePod(t, id), key, now) == Some(p) <==> !StoredFor(t, id, key)
  {
    hide KeyOf, Keep;
    var found := Lookup(t.byPVC, key, now).value;
    assert Find(t.sessions, found).value in t.sessions;
    match Find(t.sessions, id)
    case None =>
    case Some(slot) =>
      FindAfterKeep(t.byPVC, {KeyOf(slot.value)}, key);
      FindAfterKeep(t.sessions, {id}, found);
  }
}
