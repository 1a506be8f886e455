/** The auth hook of a viewer pod: when it allows, over every run of store calls and hooks. */
module Hooks {
  import opened Results
  import opened Cache
  import opened StoreModel
  import opened StoreInvariants
  import opened AuthRuns

  datatype HookInput = HookInput(
    hookClientToken: string, podSessionID: string, username: string, authRequestID: string, passwordHash: string)

  /** Neither is empty and they are the same. */
  predicate ConstantTimeEqual(a: string, b: string) { a != "" && b != "" && a == b }

  predicate InScope(req: AuthRequest, input: HookInput) {
    req.viewerSessionID == input.username && req.podSessionID == input.podSessionID
  }

  predicate ViewerActiveStatus(status: ViewerStatus) { status != ViewerClosed && status != ViewerExpired }

  /** The viewer of a request is stored, unexpired and neither closed nor expired. */
  ghost predicate ViewerUsable(s: StoreState, id: string, now: Time) {
    match Lookup(s.viewers.sessions, id, now)
    case None => false
    case Some(v) => ViewerActiveStatus(v.status)
  }

  ghost predicate PodUsable(s: StoreState, id: string, now: Time) {
    match Lookup(s.pods.sessions, id, now)
    case None => false
    case Some(p) => p.status == PodReady
  }

  /** The store calls a hook makes: it stops at the first check that denies. */
  ghost function HookOps(s: StoreState, token: string, input: HookInput, now: Time): seq<StoreOp> {
    if !ConstantTimeEqual(input.hookClientToken, token) then []
    else
      var consume := ConsumeAuthRequest(input.authRequestID, input.passwordHash, now);
      match Consumable(s.auths, input.authRequestID, input.passwordHash, now)
      case None => [consume]
      case Some(req) =>
        if !InScope(req, input) then [consume]
        else if !ViewerUsable(s, req.viewerSessionID, now) then [consume, GetViewerSession(req.viewerSessionID, now)]
        else [consume, GetViewerSession(req.viewerSessionID, now), GetPodSession(req.podSessionID, now)]
  }

  ghost predicate HookAllows(s: StoreState, token: string, input: HookInput, now: Time) {
    && ConstantTimeEqual(input.hookClientToken, token)
    && match Consumable(s.auths, input.authRequestID, input.passwordHash, now)
       case None => false
       case Some(req) => InScope(req, input) && ViewerUsable(s, req.viewerSessionID, now) && PodUsable(s, req.podSessionID, now)
  }

  /**
   * A hook allows exactly with the configured token, which must not be empty, a stored request of that id that is
   * unexpired, unused and has the hash, viewer and pod the hook gives, while the viewer is stored, unexpired and
   * neither closed nor expired, and the pod session stored, unexpired and ready.
   */
  lemma HookAllowsExactly(s: StoreState, token: string, input: HookInput, now: Time)
    requires StoreOk(s)
    ensures HookAllows(s, token, input, now) <==>
      && token != "" && input.hookClientToken == token
      && (exists x :: x in s.auths.requests && x.key == input.authRequestID && (x.expiresAt == 0 || now < x.expiresAt)
           && x.value.usedAt == None && x.value.passwordHash == input.passwordHash
           && x.value.viewerSessionID == input.username && x.value.podSessionID == input.podSessionID)
      && (exists x :: x in s.viewers.sessions && x.key == input.username && (x.expiresAt == 0 || now < x.expiresAt)
           && x.value.status != ViewerClosed && x.value.status != ViewerExpired)
      && (exists x :: x in s.pods.sessions && x.key == input.podSessionID && (x.expiresAt == 0 || now < x.expiresAt)
           && x.value.status == PodReady)
  {
    RequestExactly(s, input, now);
    ViewerUsableExactly(s, input.username, now);
    PodUsableExactly(s, input.podSessionID, now);
    hide Consumable, InScope, ViewerUsable, PodUsable, StoreOk;
  }

  lemma RequestExactly(s: StoreState, input: HookInput, now: Time)
    requires StoreOk(s)
    ensures var r := Consumable(s.auths, input.authRequestID, input.passwordHash, now);
      && (r.Some? && InScope(r.value, input) <==>
          exists x :: x in s.auths.requests && x.key == input.authRequestID && (x.expiresAt == 0 || now < x.expiresAt)
            && x.value.usedAt == None && x.value.passwordHash == input.passwordHash
            && x.value.viewerSessionID == input.username && x.value.podSessionID == input.podSessionID)
      && (r.Some? && InScope(r.value, input) ==>
          r.value.viewerSessionID == input.username && r.value.podSessionID == input.podSessionID)
  {
    var id := input.authRequestID;
    LookupMeans(s.auths.requests, id, now);
    hide Lookup, PodsOk, ViewersOk, TokensOk;
    if x :| x in s.auths.requests && x.key == id && (x.expiresAt == 0 || now < x.expiresAt) {
      assert Lookup(s.auths.requests, id, now) == Some(x.value);
    }
  }

  lemma ViewerUsableExactly(s: StoreState, id: string, now: Time)
    requires StoreOk(s)
    ensures ViewerUsable(s, id, now) <==>
      exists x :: x in s.viewers.sessions && x.key == id && (x.expiresAt == 0 || now < x.expiresAt)
        && x.value.status != ViewerClosed && x.value.status != ViewerExpired
  {
    LookupMeans(s.viewers.sessions, id, now);
    hide Lookup, PodsOk, AuthsOk, TokensOk;
    if x :| x in s.viewers.sessions && x.key == id && (x.expiresAt == 0 || now < x.expiresAt) {
      assert Lookup(s.viewers.sessions, id, now) == Some(x.value);
    }
  }

  lemma PodUsableExactly(s: StoreState, id: string, now: Time)
    requires StoreOk(s)
    ensures PodUsable(s, id, now) <==>
      exists x :: x in s.pods.sessions && x.key == id && (x.expiresAt == 0 || now < x.expiresAt) && x.value.status == PodReady
  {
    LookupMeans(s.pods.sessions, id, now);
    hide Lookup, ViewersOk, AuthsOk, TokensOk;
    if x :| x in s.pods.sessions && x.key == id && (x.expiresAt == 0 || now < x.expiresAt) {
      assert Lookup(s.pods.sessions, id, now) == Some(x.value);
    }
  }

  ghost function Steps(s: StoreState, ops: seq<StoreOp>): StoreState {
    if ops == [] then s else Step(Steps(s, ops[..|ops| - 1]), ops[|ops| - 1])
  }

  // ----- runs -----

  datatype Call = Hook(input: HookInput, now: Time) | Op(op: StoreOp)

  ghost function OpsOf(s: StoreState, token: string, call: Call): seq<StoreOp> {
    match call
    case Hook(input, now) => HookOps(s, token, input, now)
    case Op(op) => [op]
  }

  /** The store calls of a run, in order. */
  ghost function Flatten(c: Capacities, token: string, calls: seq<Call>): seq<StoreOp> {
    if calls == [] then []
    else
      var before := Flatten(c, token, calls[..|calls| - 1]);
      before + OpsOf(After(c, before), token, calls[|calls| - 1])
  }

  ghost function AllowedHooks(c: Capacities, token: string, calls: seq<Call>, id: string): nat {
    if calls == [] then 0
    else
      var init, last := calls[..|calls| - 1], calls[|calls| - 1];
      AllowedHooks(c, token, init, id)
        + (if last.Hook? && last.input.authRequestID == id && HookAllows(After(c, Flatten(c, token, init)), token, last.input, last.now)
           then 1 else 0)
  }

  function CreatedIn(calls: seq<Call>, id: string): nat {
    if calls == [] then 0
    else CreatedIn(calls[..|calls| - 1], id) + (if calls[|calls| - 1].Op? && Creates(calls[|calls| - 1].op, id) then 1 else 0)
  }

  lemma {:induction false} AfterConcat(c: Capacities, a: seq<StoreOp>, b: seq<StoreOp>)
    ensures After(c, a + b) == Steps(After(c, a), b)
  {
    if b == [] {
      assert a + b == a;
    } else {
      var n := |b| - 1;
      AfterConcat(c, a, b[..n]);
      assert (a + b)[..|a + b| - 1] == a + b[..n];
    }
  }

  lemma {:induction false} StepsKeepNoKey(s: StoreState, ops: seq<StoreOp>, id: string)
    requires StoreOk(s) && forall i :: 0 <= i < |ops| ==> !Creates(ops[i], id)
    ensures StoreOk(Steps(s, ops))
    ensures id in Keys(Steps(s, ops).auths.requests) ==> id in Keys(s.auths.requests)
  {
    if ops != [] {
      var n := |ops| - 1;
      StepsKeepNoKey(s, ops[..n], id);
      StepOk(Steps(s, ops[..n]), ops[n]);
      if id !in Keys(s.auths.requests) { StaysAbsent(Steps(s, ops[..n]), ops[n], id); }
      else if id !in Keys(Steps(s, ops[..n]).auths.requests) { StaysAbsent(Steps(s, ops[..n]), ops[n], id); }
      hide Step, StoreOk;
    }
  }

  /** A hook whose request is found uses it up for good, whatever the later checks say. */
  lemma HookUsesUp(s: StoreState, token: string, input: HookInput, now: Time)
    requires StoreOk(s) && ConstantTimeEqual(input.hookClientToken, token)
    requires Consumable(s.auths, input.authRequestID, input.passwordHash, now).Some?
    ensures input.authRequestID !in Keys(Steps(s, HookOps(s, token, input, now)).auths.requests)
  {
    var ops := HookOps(s, token, input, now);
    var id := input.authRequestID;
    var consume := ConsumeAuthRequest(id, input.passwordHash, now);
    assert ops[..1] == [consume] && ops[0] == consume;
    assert HandsOut(s, consume, id);
    StepOk(s, consume);
    StepAuths(s, consume, id);
    var t := Step(s, consume);
    hide Step, HandsOut, Consumable, InScope, ViewerUsable, StoreOk;
    StepsFrom(s, ops);
    assert forall i :: 0 <= i < |ops[1..]| ==> !Creates(ops[1..][i], id);
    hide HookOps;
    StepsKeepNoKey(t, ops[1..], id);
  }

  lemma {:induction false} StepsFrom(s: StoreState, ops: seq<StoreOp>)
    requires ops != []
    ensures Steps(s, ops) == Steps(Step(s, ops[0]), ops[1..])
  {
    hide Step;
    var n := |ops| - 1;
    if n > 0 {
      StepsFrom(s, ops[..n]);
      assert ops[..n][1..] == ops[1..][..n - 1] && ops[1..][n - 1] == ops[n];
    } else {
      assert ops[..0] == [] && ops[1..] == [];
    }
  }

  lemma HookCreatesNothing(s: StoreState, token: string, input: HookInput, now: Time, id: string)
    ensures forall i :: 0 <= i < |HookOps(s, token, input, now)| ==> !Creates(HookOps(s, token, input, now)[i], id)
  {}

  lemma CallAuths(s: StoreState, token: string, call: Call, id: string)
    requires StoreOk(s)
    ensures var t := Steps(s, OpsOf(s, token, call));
      && StoreOk(t)
      && (call.Hook? && call.input.authRequestID == id && HookAllows(s, token, call.input, call.now) ==>
          id in Keys(s.auths.requests) && id !in Keys(t.auths.requests))
      && (id in Keys(t.auths.requests) ==> id in Keys(s.auths.requests) || (call.Op? && Creates(call.op, id)))
  {
    match call
    case Op(op) =>
      assert [op][..0] == [];
      StepOk(s, op);
      if id !in Keys(s.auths.requests) && !Creates(op, id) { StaysAbsent(s, op, id); }
    case Hook(input, now) =>
      HookCreatesNothing(s, token, input, now, id);
      StepsKeepNoKey(s, HookOps(s, token, input, now), id);
      if input.authRequestID == id && HookAllows(s, token, input, now) {
        HookUsesUp(s, token, input, now);
        hide HookOps, Steps, StoreOk;
      }
  }

  /** Over any run each creation of an auth request leads to at most one hook that allows. */
  lemma {:induction false} AllowedAtMostOncePerCreation(c: Capacities, token: string, calls: seq<Call>, id: string)
    ensures StoreOk(After(c, Flatten(c, token, calls)))
    ensures AllowedHooks(c, token, calls, id) + (if id in Keys(After(c, Flatten(c, token, calls)).auths.requests) then 1 else 0)
      <= CreatedIn(calls, id)
  {
    if calls == [] {
      EmptyOk(c);
      assert Keys(After(c, []).auths.requests) == {};
    } else {
      var init, last := calls[..|calls| - 1], calls[|calls| - 1];
      AllowedAtMostOncePerCreation(c, token, init, id);
      var ops := Flatten(c, token, init);
      AfterConcat(c, ops, OpsOf(After(c, ops), token, last));
      CallAuths(After(c, ops), token, last, id);
      hide After, OpsOf, Steps, HookAllows, StoreOk, Creates;
    }
  }

  /**
   * A hook that allows comes before the expiry of the request last created under its id, with
   * the secret, viewer and pod it was created for, while that viewer is live and its pod is ready.
   */
  lemma AllowedHookMatchesItsRequest(c: Capacities, token: string, calls: seq<Call>, input: HookInput, now: Time)
    requires HookAllows(After(c, Flatten(c, token, calls)), token, input, now)
    ensures var s := After(c, Flatten(c, token, calls));
      var created := LastCreated(Flatten(c, token, calls), input.authRequestID);
      && token != "" && input.hookClientToken == token
      && created.Some? && created.value.passwordHash == input.passwordHash
      && (created.value.expiresAt == 0 || now < created.value.expiresAt)
      && created.value.viewerSessionID == input.username && created.value.podSessionID == input.podSessionID
      && ViewerUsable(s, input.username, now) && PodUsable(s, input.podSessionID, now)
  {
    HandedOutIsLastCreated(c, Flatten(c, token, calls), input.authRequestID, input.passwordHash, now);
    hide After, Flatten, LastCreated, ViewerUsable, PodUsable;
  }
}
