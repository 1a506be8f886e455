/** Auth requests over every run of the store: each is handed out at most once. */
module AuthRuns {
  import opened Results
  import opened Cache
  import opened StoreModel
  import opened StoreInvariants

  predicate Creates(op: StoreOp, id: string) { op.CreateAuthRequest? && op.request.id == id }

  /** The call hands the request out. */
  ghost predicate HandsOut(s: StoreState, op: StoreOp, id: string) {
    op.ConsumeAuthRequest? && op.id == id && Consumable(s.auths, id, op.passwordHash, op.now).Some?
  }

  function Created(ops: seq<StoreOp>, id: string): nat {
    if ops == [] then 0 else Created(ops[..|ops| - 1], id) + (if Creates(ops[|ops| - 1], id) then 1 else 0)
  }

  ghost function HandedOut(c: Capacities, ops: seq<StoreOp>, id: string): nat {
    if ops == [] then 0
    else
      var init := ops[..|ops| - 1];
      HandedOut(c, init, id) + (if HandsOut(After(c, init), ops[|ops| - 1], id) then 1 else 0)
  }

  /** The request last created under the id, as it was stored. */
  function LastCreated(ops: seq<StoreOp>, id: string): Option<AuthRequest> {
    if ops == [] then None
    else match ops[|ops| - 1]
      case CreateAuthRequest(r, secret) => if r.id == id then Some(r.(passwordHash := secret)) else LastCreated(ops[..|ops| - 1], id)
      case _ => LastCreated(ops[..|ops| - 1], id)
  }

  /** It is the one of the last call that creates under the id, with the secret of that call. */
  lemma {:induction false} LastCreatedIs(ops: seq<StoreOp>, id: string, r: AuthRequest)
    ensures LastCreated(ops, id) == Some(r) <==>
      exists i :: 0 <= i < |ops| && ops[i].CreateAuthRequest? && ops[i].request.id == id
        && r == ops[i].request.(passwordHash := ops[i].secret)
        && forall j :: i < j < |ops| && ops[j].CreateAuthRequest? ==> ops[j].request.id != id
  {
    if ops != [] {
      var n := |ops| - 1;
      LastCreatedIs(ops[..n], id, r);
      assert forall i :: 0 <= i < n ==> ops[..n][i] == ops[i];
    }
  }

  // What one call does to the stored requests.
  lemma StepAuths(s: StoreState, op: StoreOp, id: string)
    requires StoreOk(s)
    ensures var before, after := s.auths.requests, Step(s, op).auths.requests;
      && (forall x :: x in after && x.key == id ==>
        if Creates(op, id) then x.value == op.request.(passwordHash := op.secret) else x in before)
      && (HandsOut(s, op, id) ==> id in Keys(before) && id !in Keys(after))
  {
    var t := s.auths;
    match op
    case CreateAuthRequest(r, secret) => PutOk(t.requests, t.capacity, Slot(r.id, r.(passwordHash := secret), r.expiresAt));
    case ConsumeAuthRequest(k, hash, now) => GetFacts(t.requests, k, now);
    case _ =>
  }

  /** Each creation is handed out at most once: a stored request is one not yet handed out. */
  lemma {:induction false} HandedOutAtMostOnce(c: Capacities, ops: seq<StoreOp>, id: string)
    ensures HandedOut(c, ops, id) + (if id in Keys(After(c, ops).auths.requests) then 1 else 0) <= Created(ops, id)
  {
    if ops != [] {
      var n := |ops| - 1;
      HandedOutAtMostOnce(c, ops[..n], id);
      TraceOk(c, ops[..n]);
      StepAuths(After(c, ops[..n]), ops[n], id);
      var before, after := After(c, ops[..n]).auths.requests, After(c, ops).auths.requests;
      assert id in Keys(after) && !Creates(ops[n], id) ==> id in Keys(before);
      hide HandsOut, Step, Creates;
    }
  }

  lemma {:induction false} StoredIsLastCreated(c: Capacities, ops: seq<StoreOp>, id: string)
    ensures forall x :: x in After(c, ops).auths.requests && x.key == id ==> LastCreated(ops, id) == Some(x.value)
  {
    if ops != [] {
      var n := |ops| - 1;
      StoredIsLastCreated(c, ops[..n], id);
      TraceOk(c, ops[..n]);
      StepAuths(After(c, ops[..n]), ops[n], id);
      hide Step;
    }
  }

  /** What is handed out is the request last created under that id: unexpired, unused, and with the same secret. */
  lemma HandedOutIsLastCreated(c: Capacities, ops: seq<StoreOp>, id: string, hash: string, now: Time)
    ensures match Consumable(After(c, ops).auths, id, hash, now)
      case None => true
      case Some(r) =>
        && LastCreated(ops, id) == Some(r.(usedAt := None))
        && r.usedAt == Some(now) && r.passwordHash == hash && !Expired(r.expiresAt, now)
  {
    TraceOk(c, ops);
    StoredIsLastCreated(c, ops, id);
    var t := After(c, ops).auths;
    hide After, LastCreated;
    match Lookup(t.requests, id, now)
    case None =>
    case Some(r) => assert Find(t.requests, id).value in t.requests;
  }

  lemma StaysAbsent(s: StoreState, op: StoreOp, id: string)
    requires StoreOk(s) && !Creates(op, id) && id !in Keys(s.auths.requests)
    ensures id !in Keys(Step(s, op).auths.requests)
  {
    StepAuths(s, op, id);
    hide Step;
  }

  /** Once handed out, a request is never handed out again until it is created anew, whatever is called in between. */
  lemma {:induction false} HandedOutForGood(
    c: Capacities, ops: seq<StoreOp>, consume: StoreOp, more: seq<StoreOp>, id: string, hash: string, now: Time)
    requires HandsOut(After(c, ops), consume, id) && Created(more, id) == 0
    ensures id !in Keys(After(c, ops + [consume] + more).auths.requests)
    ensures Consumable(After(c, ops + [consume] + more).auths, id, hash, now) == None
  {
    var all := ops + [consume] + more;
    hide StoreOk, Step, HandsOut, Creates, Keys;
    if more == [] {
      assert all[..|all| - 1] == ops && all[|all| - 1] == consume;
      TraceOk(c, ops);
      StepAuths(After(c, ops), consume, id);
    } else {
      var n := |more| - 1;
      var before := ops + [consume] + more[..n];
      assert all[..|all| - 1] == before && all[|all| - 1] == more[n];
      HandedOutForGood(c, ops, consume, more[..n], id, hash, now);
      TraceOk(c, before);
      StaysAbsent(After(c, before), more[n], id);
    }
    hide After;
  }

  /** A wrong hash does not use the request up: it stays stored, and the right hash still gets it. */
  lemma WrongHashKeepsTheRequest(s: StoreState, id: string, hash: string, wrong: string, now: Time)
    requires StoreOk(s) && wrong != hash && Consumable(s.auths, id, hash, now).Some?
    ensures Consumable(s.auths, id, wrong, now) == None
    ensures Consumable(Step(s, ConsumeAuthRequest(id, wrong, now)).auths, id, hash, now) == Consumable(s.auths, id, hash, now)
  {
    GetLookup(s.auths.requests, id, id, now);
    hide AfterGet, Lookup, Keep, Find, StoreOk;
  }
}
