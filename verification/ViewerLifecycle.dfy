/** Viewer sessions, their tokens and the auth hook, as steps over the store and the pods. */
module ViewerLifecycle {
  import opened Results
  import opened Cache
  import opened StoreModel
  import opened StoreInvariants
  import TokenIndex
  import ViewerIndex
  import opened LifecycleInvariants
  import opened World
  import opened Store
  import opened PodLifecycle
  import opened Hooks

  const MODE_READ_WRITE := "readwrite"

  datatype Permissions = Permissions(download: bool, create: bool, rename: bool, edit: bool, remove: bool)

  datatype Verification = Verification(allow: bool, permissions: Permissions)

  const NO_PERMISSIONS := Permissions(false, false, false, false, false)

  function PermissionsForMode(mode: string): Permissions {
    var write := mode == MODE_READ_WRITE;
    Permissions(true, write, write, write, write)
  }

  /** What a login attempt needs that the service makes up, and how it ends: a token, or none. */
  datatype Login = Login(authID: string, passwordHash: string, hooks: seq<HookInput>, token: Option<string>, tokenHash: string)

  datatype ViewerToken = ViewerToken(viewerSessionID: string, podSessionID: string, token: string, expiresAt: Time)

  datatype Heartbeat = Heartbeat(viewerSessionID: string, serverTime: Time, expiresAt: Time)

  function StatusFromPod(status: PodStatus): ViewerStatus {
    match status
    case PodReady => ViewerReady
    case PodFailed => ViewerFailed
    case PodTerminated => ViewerClosed
    case _ => ViewerCreating
  }

  /** A viewer shows what its pod session is: ready, failed, closed once that terminated, and else still creating. */
  predicate ShowsItsPod(v: ViewerSession) {
    && (v.tokenReady <==> v.podStatus == PodReady) && (v.status == ViewerReady <==> v.podStatus == PodReady)
    && (v.status == ViewerFailed <==> v.podStatus == PodFailed) && (v.status == ViewerClosed <==> v.podStatus == PodTerminated)
    && (v.status == ViewerCreating <==> v.podStatus == PodCreating || v.podStatus == PodTerminating)
  }

  /** A viewer following its pod session. */
  function Following(v: ViewerSession, p: PodSession): ViewerSession {
    v.(podStatus := p.status, status := StatusFromPod(p.status), tokenReady := p.status == PodReady)
  }

  /** Download always; everything else exactly in read-write mode. */
  predicate Grants(permission: string, p: Permissions) {
    && p.download
    && (p.create <==> permission == "readwrite") && (p.rename <==> permission == "readwrite")
    && (p.edit <==> permission == "readwrite") && (p.remove <==> permission == "readwrite")
  }

  ghost predicate GrantedTo(s: StoreState, viewer: string, now: Time, permissions: Permissions) {
    exists x :: x in s.viewers.sessions && x.key == viewer && (x.expiresAt == 0 || now < x.expiresAt)
      && Grants(x.value.permission, permissions)
  }

  lemma GrantedByStored(s: StoreState, viewer: string, now: Time)
    requires StoreOk(s)
    ensures match Lookup(s.viewers.sessions, viewer, now)
      case None => true
      case Some(v) => GrantedTo(s, viewer, now, PermissionsForMode(v.permission))
  {
    LookupMeans(s.viewers.sessions, viewer, now);
    hide Lookup, Distinct, PodsOk, AuthsOk, TokensOk;
  }

  /**
   * A login of a viewer: the store with the auth request, the states between the hooks the pod calls
   * meanwhile, and when it calls them.
   */
  ghost predicate LoginRun(s: StoreState, viewer: string, pod: string, login: Login, cfg: SessionConfig, at: Time,
    states: seq<StoreState>, ats: seq<Time>)
  {
    && |states| == |login.hooks| + 1 && |ats| == |login.hooks|
    && states[0] == Asked(s, viewer, pod, login, cfg.authRequestTTL, at)
    && (forall i :: 0 <= i < |ats| ==> at <= ats[i])
    && forall i :: 0 <= i < |ats| ==>
         states[i + 1] == Steps(states[i], HookOps(states[i], cfg.hookClientToken, login.hooks[i], ats[i]))
  }

  /** The store after the cached token was looked up in vain and the auth request stored. */
  ghost function Asked(s: StoreState, viewer: string, pod: string, login: Login, ttl: int, at: Time): StoreState {
    Step(Step(s, StoreOp.GetTokenRecord(viewer, pod, at)),
         StoreOp.CreateAuthRequest(AuthRequest(login.authID, viewer, pod, login.passwordHash, None, at + ttl), login.passwordHash))
  }

  /** The live viewer session, for its own user or for anyone, or why there is none. */
  ghost function Access(s: StoreState, id: string, userID: string, anyone: bool, now: Time): Result<ViewerSession, ServiceError> {
    match Lookup(s.viewers.sessions, id, now)
    case None => Failure(NotFound)
    case Some(v) => if !anyone && v.userID != userID then Failure(Denied) else Success(v)
  }

  ghost predicate StoresViewer(s: StoreState, v: ViewerSession) { Slot(v.id, v, v.expiresAt) in s.viewers.sessions }

  ghost predicate StoresPod(s: StoreState, p: PodSession) { Slot(p.id, p, p.expiresAt) in s.pods.sessions }

  /** One of the pods is the session's, and shows that status. */
  ghost predicate SeenNow(pods: seq<Pod>, p: PodSession, status: PodStatus) {
    exists q :: q in pods && SeenAs(p, q, status)
  }

  /** The sessions that live on are still stored. */
  ghost predicate SessionsLiveOn(s: StoreState, t: StoreState, now: Time) {
    && (forall x :: x in s.pods.sessions && !Expired(x.expiresAt, now) ==> x in t.pods.sessions)
    && (forall x :: x in s.viewers.sessions && !Expired(x.expiresAt, now) ==> x in t.viewers.sessions)
  }

  /** The claim of the viewer is named and found, and the pod name is new in its namespace. */
  predicate CanCreate(v: ViewerSession, claim: Result<EnsureInput, ServiceError>, pods: seq<Pod>, podName: string) {
    v.namespace != "" && v.pvcName != "" && claim.Success? && !Exists(pods, v.namespace, podName)
  }

  /** There is a session to issue a token for: the viewer's own, or one that can be created when the API works. */
  ghost predicate CanUse(
    s: StoreState, pods: seq<Pod>, v: ViewerSession, claim: Result<EnsureInput, ServiceError>, podName: string, now: Time, works: bool)
  {
    || Lookup(s.pods.sessions, v.podSessionID, now).Some?
    || (works && CanCreate(v, claim, pods, podName))
  }

  /** The session the token is for: the viewer's own looked at again, or if that is gone one for the claim. */
  ghost predicate TokenSession(s: StoreState, v: ViewerSession, claim: Result<EnsureInput, ServiceError>, version: string, now: Time,
    used: PodSession)
  {
    match Lookup(s.pods.sessions, v.podSessionID, now)
    case Some(p) => Resynced(p, used)
    case None =>
      && claim.Success? && KeyOf(used) == PvcKey(v.namespace, claim.value.pvcUID)
      && used.runtimeVersion == version && used.adminContext == v.adminContext
  }

  class ViewerService {
    const pods: PodService

    constructor (pods: PodService)
      ensures this.pods == pods
    {
      this.pods := pods;
    }

    // ----- the hook -----

    /** The verdict of the hook; a request it finds is used up whatever the verdict. */
    method VerifyHook(input: HookInput) returns (verdict: Verification, ghost at: Time)
      requires pods.Inv()
      modifies pods.store.Repr(), pods.api`time, pods.api`calls
      ensures pods.Inv() && old(pods.api.time) <= at == pods.api.time
      ensures pods.store.State() == Steps(old(pods.store.State()), HookOps(old(pods.store.State()), pods.cfg.hookClientToken, input, at))
      ensures verdict.allow <==> HookAllows(old(pods.store.State()), pods.cfg.hookClientToken, input, at)
      ensures verdict.allow ==> input.hookClientToken == pods.cfg.hookClientToken && pods.cfg.hookClientToken != ""
      ensures verdict.allow ==> GrantedTo(old(pods.store.State()), input.username, at, verdict.permissions)
      ensures !verdict.allow ==> verdict.permissions == Permissions(false, false, false, false, false)
      ensures SessionsLiveOn(old(pods.store.State()), pods.store.State(), at)
    {
      hide StoreOk, Consistent, Orderly, Step, Store.State, Store.Wired, Lookup, Consumable, Steps, SessionsLiveOn, GrantedTo;
      ghost var s := pods.store.State();
      ConsistentIsOk(s);
      at := pods.api.time;
      NoSteps(s);
      AllLiveOn(s, s, at);
      if !ConstantTimeEqual(input.hookClientToken, pods.cfg.hookClientToken) {
        return Verification(false, NO_PERMISSIONS), at;
      }
      var now := pods.api.Now();
      at := now;
      GrantedByStored(s, input.username, now);
      ghost var consume := StoreOp.ConsumeAuthRequest(input.authRequestID, input.passwordHash, now);
      ConsistentStep(s, consume);
      OneStep(s, consume);
      var req := pods.store.ConsumeAuthRequest(input.authRequestID, input.passwordHash, now);
      AllLiveOn(s, pods.store.State(), at);
      if req.None? {
        return Verification(false, NO_PERMISSIONS), at;
      }
      if req.value.viewerSessionID != input.username || req.value.podSessionID != input.podSessionID {
        return Verification(false, NO_PERMISSIONS), at;
      }
      ghost var s1 := pods.store.State();
      ghost var getViewer := StoreOp.GetViewerSession(req.value.viewerSessionID, now);
      ConsistentStep(s1, getViewer);
      TwoSteps(s, consume, getViewer);
      var viewer := pods.store.GetViewerSession(req.value.viewerSessionID, now);
      GetViewerLivesOn(s, s1, req.value.viewerSessionID, now);
      if viewer.None? || viewer.value.status == ViewerClosed || viewer.value.status == ViewerExpired {
        return Verification(false, NO_PERMISSIONS), at;
      }
      ghost var s2 := pods.store.State();
      ThreeSteps(s, consume, getViewer, StoreOp.GetPodSession(req.value.podSessionID, now));
      ConsistentStep(s2, StoreOp.GetPodSession(req.value.podSessionID, now));
      GetPodLivesOn(s2, req.value.podSessionID, now);
      LiveOnChain(s, s2, Step(s2, StoreOp.GetPodSession(req.value.podSessionID, now)), now, now);
      var pod := pods.store.GetPodSession(req.value.podSessionID, now);
      if pod.None? || pod.value.status != PodReady {
        return Verification(false, NO_PERMISSIONS), at;
      }
      return Verification(true, PermissionsForMode(viewer.value.permission)), at;
    }

    // ----- tokens -----

    /** What the pod does during a login: it calls the hook, each time in the state the call before left. */
    method CallHooks(hooks: seq<HookInput>) returns (ghost states: seq<StoreState>, ghost ats: seq<Time>)
      requires pods.Inv()
      modifies pods.store.Repr(), pods.api`time, pods.api`calls
      ensures pods.Inv() && old(pods.api.time) <= pods.api.time && pods.api.pods == old(pods.api.pods)
      ensures SessionsLiveOn(old(pods.store.State()), pods.store.State(), pods.api.time)
      ensures |states| == |hooks| + 1 && |ats| == |hooks|
      ensures states[0] == old(pods.store.State()) && states[|hooks|] == pods.store.State()
      ensures forall i :: 0 <= i < |hooks| ==> old(pods.api.time) <= ats[i]
      ensures forall i :: 0 <= i < |hooks| ==>
        states[i + 1] == Steps(states[i], HookOps(states[i], pods.cfg.hookClientToken, hooks[i], ats[i]))
    {
      hide StoreOk, Consistent, Orderly, Step, Store.State, Store.Wired, Steps, HookOps, HookAllows, SessionsLiveOn, GrantedTo;
      ghost var s := pods.store.State();
      AllLiveOn(s, s, pods.api.time);
      states, ats := [s], [];
      for i := 0 to |hooks|
        invariant pods.Inv() && old(pods.api.time) <= pods.api.time && pods.api.pods == old(pods.api.pods)
        invariant SessionsLiveOn(s, pods.store.State(), pods.api.time)
        invariant |states| == i + 1 && |ats| == i && states[0] == s && states[i] == pods.store.State()
        invariant forall j :: 0 <= j < i ==> old(pods.api.time) <= ats[j]
        invariant forall j :: 0 <= j < i ==>
          states[j + 1] == Steps(states[j], HookOps(states[j], pods.cfg.hookClientToken, hooks[j], ats[j]))
      {
        ghost var before := pods.api.time;
        var _, hooked := VerifyHook(hooks[i]);
        LiveOnChain(s, states[i], pods.store.State(), before, hooked);
        states, ats := states + [pods.store.State()], ats + [hooked];
      }
    }

    /**
     * The cached token of a viewer for a pod; or, when there is none, a login with a request stored for that
     * viewer and pod, during which the pod calls the hook, and then a new token stored with its own expiry.
     */
    method IssueTokenFor(viewer: ViewerSession, pod: PodSession, login: Login)
      returns (result: Result<ViewerToken, ServiceError>, ghost at: Time, ghost states: seq<StoreState>, ghost ats: seq<Time>)
      requires pods.Inv()
      modifies pods.store.Repr(), pods.api`time, pods.api`calls
      ensures pods.Inv() && old(pods.api.time) <= at <= pods.api.time && pods.api.pods == old(pods.api.pods)
      ensures SessionsLiveOn(old(pods.store.State()), pods.store.State(), pods.api.time)
      ensures var s := old(pods.store.State());
        match UsableToken(s.tokens, viewer.id, pod.id, at)
        case Some(r) =>
          && result == Success(ViewerToken(viewer.id, pod.id, r.rawToken, r.expiresAt))
          && pods.store.State() == Step(s, StoreOp.GetTokenRecord(viewer.id, pod.id, at))
        case None =>
          && LoginRun(s, viewer.id, pod.id, login, pods.cfg, at, states, ats)
          && var last := states[|states| - 1];
             match login.token
             case None => result == Failure(LoginFailed) && pods.store.State() == last
             case Some(token) =>
               && result == Success(ViewerToken(viewer.id, pod.id, token, at + pods.cfg.tokenTTL))
               && pods.store.State() == Step(last, StoreOp.PutTokenRecord(
                 TokenRecord(login.tokenHash, token, viewer.id, pod.id, at + pods.cfg.tokenTTL)))
      ensures result.Success? ==>
        var t := result.value;
        forall now :: t.token != "" && !Expired(t.expiresAt, now) ==>
          match UsableToken(pods.store.State().tokens, viewer.id, pod.id, now)
          case None => false
          case Some(r) => r.rawToken == t.token && r.expiresAt == t.expiresAt
    {
      hide StoreOk, Consistent, Orderly, Step, Store.State, Store.Wired, UsableToken, Steps, HookOps, HookAllows, SessionsLiveOn, GrantedTo,
        LoginRun, Asked;
      var now := pods.api.Now();
      at := now;
      states, ats := [], [];
      ghost var s := pods.store.State();
      ConsistentStep(s, StoreOp.GetTokenRecord(viewer.id, pod.id, now));
      StepTouches(s, StoreOp.GetTokenRecord(viewer.id, pod.id, now));
      FoundTokenStays(s, viewer.id, pod.id, now);
      var record := pods.store.GetTokenRecord(viewer.id, pod.id, now);
      AllLiveOn(s, pods.store.State(), now);
      if record.Some? {
        return Success(ViewerToken(viewer.id, pod.id, record.value.rawToken, record.value.expiresAt)), at, states, ats;
      }
      var request := AuthRequest(login.authID, viewer.id, pod.id, login.passwordHash, None, now + pods.cfg.authRequestTTL);
      ConsistentStep(pods.store.State(), StoreOp.CreateAuthRequest(request, login.passwordHash));
      StepTouches(pods.store.State(), StoreOp.CreateAuthRequest(request, login.passwordHash));
      pods.store.CreateAuthRequest(request, login.passwordHash);
      AllLiveOn(s, pods.store.State(), now);
      AskedIs(s, viewer.id, pod.id, login, pods.cfg.authRequestTTL, now);
      states, ats := CallHooks(login.hooks);
      LiveOnChain(s, states[0], pods.store.State(), now, pods.api.time);
      LoginRunIs(s, viewer.id, pod.id, login, pods.cfg, now, states, ats);
      if login.token.None? {
        return Failure(LoginFailed), at, states, ats;
      }
      var expiresAt := now + pods.cfg.tokenTTL;
      var issued := TokenRecord(login.tokenHash, login.token.value, viewer.id, pod.id, expiresAt);
      ConsistentStep(pods.store.State(), StoreOp.PutTokenRecord(issued));
      PutTokenIsUsable(pods.store.State(), issued);
      StepTouches(pods.store.State(), StoreOp.PutTokenRecord(issued));
      SameLiveOn(s, pods.store.State(), Step(pods.store.State(), StoreOp.PutTokenRecord(issued)), pods.api.time);
      pods.store.PutTokenRecord(issued);
      return Success(ViewerToken(viewer.id, pod.id, login.token.value, expiresAt)), at, states, ats;
    }

    // ----- sessions -----

    /** A new viewer session on a usable pod session; claim is what looking up and checking the PVC gave. */
    method CreateViewerSession(claim: Result<EnsureInput, ServiceError>, userID: string, id: string, podID: string, podName: string)
      returns (result: Result<ViewerSession, ServiceError>)
      requires pods.Inv() && (claim.Success? ==> claim.value.namespace != "")
      requires FreshPod(pods.store.State(), podID) && forall pod :: id !in ViewersOf(pods.store.State().viewers, pod)
      modifies pods.Repr()
      ensures pods.Inv()
      ensures claim.Failure? ==> result == Failure(claim.error)
      ensures AlwaysWorks(pods.api.script) && claim.Success? && !Exists(old(pods.api.pods), claim.value.namespace, podName) ==>
        result.Success?
      ensures result.Success? ==>
        var v := result.value;
        && claim.Success? && v.id == id && v.userID == userID && v.permission == claim.value.mode
        && v.namespace == claim.value.namespace && v.pvcName == claim.value.pvcName && v.adminContext == claim.value.adminContext
        && v.lastHeartbeatAt == pods.api.time && v.expiresAt == pods.api.time + pods.cfg.viewerSessionTimeout
        && ShowsItsPod(v)
        && Slot(id, v, v.expiresAt) in pods.store.State().viewers.sessions
        && ViewerIndex.UnderOwnPod(pods.store.State().viewers, Slot(id, v, v.expiresAt))
        && exists p :: ServesClaim(pods.store.State(), p, claim.value, v)
    {
      hide StoreOk, Consistent, Orderly, Step, Store.State, Store.Wired, FreshPod, ViewersOf, KeyOf, PvcKey, ViewerIndex.UnderOwnPod,
        FindsReusable, FoundByPVC, Serving, Marked, AlwaysWorks, Exists;
      if claim.Failure? {
        return Failure(claim.error);
      }
      ghost var s := pods.store.State();
      var ensured, _ := pods.EnsurePodSession(claim.value, podID, podName);
      if ensured.Failure? {
        return Failure(ensured.error);
      }
      var pod := ensured.value;
      var now := pods.api.Now();
      var viewer := ViewerSession(id, pod.id, claim.value.namespace, claim.value.pvcName, userID, claim.value.mode,
        StatusFromPod(pod.status), pod.status, pod.status == PodReady, now, now + pods.cfg.viewerSessionTimeout, claim.value.adminContext);
      PutViewerFacts(pods.store.State(), viewer);
      pods.store.PutViewerSession(viewer);
      assert ServesClaim(pods.store.State(), pod, claim.value, viewer);
      return Success(viewer);
    }

    /** The stored session of a user, or of anyone, or why there is none. */
    method FindViewer(id: string, userID: string, anyone: bool, now: Time) returns (result: Result<ViewerSession, ServiceError>)
      requires pods.Inv()
      modifies pods.store.Repr()
      ensures pods.Inv() && pods.store.State() == Step(old(pods.store.State()), StoreOp.GetViewerSession(id, now))
      ensures result == Access(old(pods.store.State()), id, userID, anyone, now)
      ensures result.Success? ==> result.value.id == id && StoresViewer(pods.store.State(), result.value)
    {
      hide StoreOk, Consistent, Orderly, Step, Store.State, Store.Wired, Lookup, Keys;
      ghost var s := pods.store.State();
      ConsistentStep(s, StoreOp.GetViewerSession(id, now));
      FoundViewerStays(s, id, now);
      var viewer := pods.store.GetViewerSession(id, now);
      if viewer.None? {
        return Failure(NotFound);
      }
      if !anyone && viewer.value.userID != userID {
        return Failure(Denied);
      }
      return Success(viewer.value);
    }

    /**
     * Keeps a viewer session and its pod session alive. A refusal changes nothing but what looking the
     * viewer up does; a pod session that cannot be refreshed fails the heartbeat after the viewer's.
     */
    method HeartbeatForUser(id: string, userID: string) returns (result: Result<Heartbeat, ServiceError>, ghost at: Time)
      requires pods.Inv()
      modifies pods.Repr()
      ensures pods.Inv() && old(pods.api.time) <= at <= pods.api.time && SameMarks(old(pods.api.pods), pods.api.pods)
      ensures var s := old(pods.store.State());
        match Access(s, id, userID, userID == "", at)
        case Failure(error) =>
          && result == Failure(error) && pods.api.pods == old(pods.api.pods)
          && pods.store.State() == Step(s, StoreOp.GetViewerSession(id, at))
        case Success(v) =>
          && StoresViewer(pods.store.State(), v.(lastHeartbeatAt := at, expiresAt := at + pods.cfg.viewerSessionTimeout))
          && (result.Success? ==> result.value == Heartbeat(id, at, at + pods.cfg.viewerSessionTimeout))
          && match Lookup(s.pods.sessions, v.podSessionID, at)
             case None => result.Success? && pods.api.pods == old(pods.api.pods)
             case Some(p) =>
               && (result.Success? ==> StoresPod(pods.store.State(),
                     p.(lastActiveAt := pods.api.time, expiresAt := pods.api.time + pods.cfg.podKeepaliveGrace)))
               && (result.Success? ==> Exists(old(pods.api.pods), p.namespace, p.podName))
               && (AlwaysWorks(pods.api.script) && Exists(old(pods.api.pods), p.namespace, p.podName) ==> result.Success?)
    {
      hide StoreOk, Consistent, Orderly, Aged, Step, Store.State, Store.Wired, Lookup, Keys, MayPutPod, ViewersOf, Exists, FreshPod, AlwaysWorks,
        SameMarks;
      assert pods.api !in pods.store.Repr();
      MarksStay(pods.api.pods);
      ghost var s0 := pods.store.State();
      var now := pods.api.Now();
      at := now;
      StepTouches(s0, StoreOp.GetViewerSession(id, now));
      var found := FindViewer(id, userID, userID == "", now);
      if found.Failure? {
        return Failure(found.error), at;
      }
      StoredMayBePut(pods.store.State(), found.value);
      var viewer := found.value.(lastHeartbeatAt := now, expiresAt := now + pods.cfg.viewerSessionTimeout);
      PutViewerFacts(pods.store.State(), viewer);
      pods.store.PutViewerSession(viewer);
      ghost var s := pods.store.State();
      ConsistentStep(s, StoreOp.GetPodSession(viewer.podSessionID, now));
      FoundPodMayBePut(s, viewer.podSessionID, now);
      var pod := pods.store.GetPodSession(viewer.podSessionID, now);
      if pod.Some? {
        ghost var t := pods.store.State();
        var refreshed := pods.RefreshPodSessionKeepalive(pod.value);
        if refreshed.Failure? {
          return Failure(refreshed.error), at;
        }
        PutRefreshed(t, pod.value, refreshed.value);
      }
      return Success(Heartbeat(id, now, viewer.expiresAt)), at;
    }

    /** Closes a viewer session, for whoever has access to it: neither it nor a token of it is left. */
    method CloseViewerSessionForUser(id: string, userID: string) returns (result: Result<ViewerSession, ServiceError>, ghost at: Time)
      requires pods.Inv()
      modifies pods.store.Repr(), pods.api`time, pods.api`calls
      ensures pods.Inv() && old(pods.api.time) <= at == pods.api.time
      ensures var s := old(pods.store.State());
        match Access(s, id, userID, userID == "", at)
        case Failure(error) => result == Failure(error) && pods.store.State() == Step(s, StoreOp.GetViewerSession(id, at))
        case Success(v) =>
          && result == Success(v.(status := ViewerClosed, expiresAt := at))
          && pods.store.State() == Step(Step(s, StoreOp.GetViewerSession(id, at)), StoreOp.DeleteViewerSession(id))
          && id !in Keys(pods.store.State().viewers.sessions) && TokenIndex.NoTokenOf(pods.store.State().tokens, id)
    {
      hide StoreOk, Consistent, Orderly, Step, Store.State, Store.Wired, Lookup, Keys, TokenIndex.NoTokenOf;
      var now := pods.api.Now();
      at := now;
      var found := FindViewer(id, userID, userID == "", now);
      if found.Failure? {
        return Failure(found.error), at;
      }
      ConsistentStep(pods.store.State(), StoreOp.DeleteViewerSession(id));
      ClosedLeavesNothing(pods.store.State(), id);
      pods.store.DeleteViewerSession(id);
      return Success(found.value.(status := ViewerClosed, expiresAt := now)), at;
    }

    /** A pod session looked at again, and stored, when the API answers. */
    method LookAgain(pod: PodSession) returns (synced: PodSession)
      requires pods.Inv() && StoresPod(pods.store.State(), pod)
      modifies pods.store.Repr(), pods.api`time, pods.api`calls
      ensures pods.Inv() && old(pods.api.time) <= pods.api.time && pods.api.pods == old(pods.api.pods)
      ensures Resynced(pod, synced) && StoresPod(pods.store.State(), synced)
      ensures synced == pod || SeenNow(pods.api.pods, pod, synced.status)
      ensures AlwaysWorks(pods.api.script) && Exists(pods.api.pods, pod.namespace, pod.podName) ==>
        SeenNow(pods.api.pods, pod, synced.status)
      ensures pods.store.State() == old(pods.store.State()).(pods := pods.store.State().pods)
    {
      hide StoreOk, Consistent, Orderly, Step, Store.State, Store.Wired, MayPutPod, Exists, AlwaysWorks;
      var result := pods.SyncPodStatus(pod);
      if result.Failure? {
        return pod;
      }
      SyncedMayBePut(pods.store.State(), pod, result.value);
      pods.store.PutPodSession(result.value);
      return result.value;
    }

    /** A viewer session brought up to date with its pod, for its user only; the pod is looked at when the API answers. */
    method GetViewerSession(id: string, userID: string) returns (result: Result<ViewerSession, ServiceError>, ghost at: Time)
      requires pods.Inv()
      modifies pods.store.Repr(), pods.api`time, pods.api`calls
      ensures pods.Inv() && old(pods.api.time) <= at <= pods.api.time
      ensures var s := old(pods.store.State());
        match Access(s, id, userID, false, at)
        case Failure(error) => result == Failure(error) && pods.store.State() == Step(s, StoreOp.GetViewerSession(id, at))
        case Success(stored) =>
          && result.Success?
          && var v := result.value;
             && (match Lookup(s.pods.sessions, stored.podSessionID, at)
                 case None => v == stored
                 case Some(p) =>
                   && v == stored.(podStatus := v.podStatus, status := v.status, tokenReady := v.tokenReady) && ShowsItsPod(v)
                   && v == Following(stored, p.(status := v.podStatus))
                   && (v.podStatus == p.status || SeenNow(pods.api.pods, p, v.podStatus))
                   && (AlwaysWorks(pods.api.script) && Exists(pods.api.pods, p.namespace, p.podName) ==>
                       SeenNow(pods.api.pods, p, v.podStatus)))
             && v.id == id && StoresViewer(pods.store.State(), v)
             && forall x :: x in pods.store.State().pods.sessions && x.key == v.podSessionID ==> v == Following(v, x.value)
    {
      hide StoreOk, Consistent, Orderly, Step, Store.State, Store.Wired, Lookup, Keys, ViewersOf, MayPutPod, SeenNow, Resynced,
        Exists, AlwaysWorks, Following, ShowsItsPod;
      var now := pods.api.Now();
      at := now;
      StepTouches(pods.store.State(), StoreOp.GetViewerSession(id, now));
      var found := FindViewer(id, userID, false, now);
      if found.Failure? {
        return Failure(found.error), at;
      }
      var viewer := found.value;
      ghost var s := pods.store.State();
      ConsistentStep(s, StoreOp.GetPodSession(viewer.podSessionID, now));
      FoundPodMayBePut(s, viewer.podSessionID, now);
      var pod := pods.store.GetPodSession(viewer.podSessionID, now);
      if pod.None? {
        return Success(viewer), at;
      }
      var synced := LookAgain(pod.value);
      SameId(pod.value, synced);
      FollowFacts(viewer, synced, pod.value.(status := synced.status));
      viewer := Following(viewer, synced);
      ghost var t := pods.store.State();
      SessionIsUnique(t, synced);
      StoredMayBePut(t, found.value);
      PutViewerFacts(t, viewer);
      pods.store.PutViewerSession(viewer);
      return Success(viewer), at;
    }

    /**
     * A session for a viewer whose pod session is gone: the pods labelled with the old session are marked
     * for deletion, then as for a new viewer of the claim.
     */
    method ReplaceMissingPodSession(viewer: ViewerSession, claim: Result<EnsureInput, ServiceError>, podID: string, podName: string)
      returns (result: Result<PodSession, ServiceError>)
      requires pods.Inv() && FreshPod(pods.store.State(), podID)
      modifies pods.Repr()
      ensures pods.Inv() && old(pods.api.time) <= pods.api.time
      ensures pods.store.State() == old(pods.store.State()).(pods := pods.store.State().pods)
      ensures result.Success? ==> viewer.namespace != "" && viewer.pvcName != ""
      ensures
        && AlwaysWorks(pods.api.script) && viewer.namespace != "" && viewer.pvcName != "" && claim.Success?
        && !Exists(old(pods.api.pods), viewer.namespace, podName)
        ==> result.Success?
      ensures result.Success? ==>
        var p := result.value;
        && claim.Success? && KeyOf(p) == PvcKey(viewer.namespace, claim.value.pvcUID) && StoresPod(pods.store.State(), p)
        && p.runtimeVersion == pods.runtimeVersion && p.adminContext == viewer.adminContext
        && var query := Query(viewer.namespace, None, Some(viewer.podSessionID), None);
           var marked := Marked(old(pods.api.pods), Labelled(old(pods.api.pods), query));
           || pods.api.pods == marked
           || pods.api.pods
             == Marked(marked, Serving(marked, viewer.namespace, claim.value.pvcUID, pods.runtimeVersion)) + [PodFor(p)]
    {
      hide StoreOk, Consistent, Orderly, Store.State, Store.Wired, FreshPod, KeyOf, PvcKey, Step, FindsReusable, FoundByPVC, Serving,
        Marked, Labelled, AlwaysWorks, Exists;
      assert pods.api !in pods.store.Repr();
      if viewer.namespace == "" || viewer.pvcName == "" {
        return Failure(NotFound);
      }
      if claim.Failure? {
        return Failure(claim.error);
      }
      var deleted, marked := pods.DeleteViewerPodsBySessionID(viewer.namespace, viewer.podSessionID);
      if !deleted {
        return Failure(Upstream);
      }
      MarkingKeepsNames(old(pods.api.pods), marked, viewer.namespace, podName);
      var input := claim.value.(namespace := viewer.namespace, adminContext := viewer.adminContext);
      var ensured, _ := pods.EnsurePodSession(input, podID, podName);
      return ensured;
    }

    /** The viewer's own pod session; or when that is gone a replacement, and then the viewer is stored following it. */
    method SessionToUse(viewer: ViewerSession, claim: Result<EnsureInput, ServiceError>, podID: string, podName: string, now: Time)
      returns (result: Result<PodSession, ServiceError>, kept: ViewerSession)
      requires pods.Inv() && StoresViewer(pods.store.State(), viewer) && FreshPod(pods.store.State(), podID)
      modifies pods.Repr()
      ensures pods.Inv() && old(pods.api.time) <= pods.api.time && pods.store.State().tokens == old(pods.store.State()).tokens
      ensures match Lookup(old(pods.store.State()).pods.sessions, viewer.podSessionID, now)
        case Some(p) => result == Success(p) && kept == viewer && pods.api.pods == old(pods.api.pods)
        case None =>
          && (CanCreate(viewer, claim, old(pods.api.pods), podName) && AlwaysWorks(pods.api.script) ==> result.Success?)
          && (result.Success? ==>
              && claim.Success? && KeyOf(result.value) == PvcKey(viewer.namespace, claim.value.pvcUID)
              && result.value.runtimeVersion == pods.runtimeVersion && result.value.adminContext == viewer.adminContext
              && kept == viewer.(podSessionID := result.value.id, podStatus := kept.podStatus, status := kept.status,
                   tokenReady := kept.tokenReady)
              && ShowsItsPod(kept))
      ensures result.Success? ==> StoresPod(pods.store.State(), result.value) && StoresViewer(pods.store.State(), kept)
    {
      hide StoreOk, Consistent, Orderly, Step, Store.State, Store.Wired, Lookup, Keys, ViewersOf, MayPutPod, FreshPod,
        KeyOf, PvcKey, Serving, Marked, Labelled, Exists, AlwaysWorks, Following, ShowsItsPod;
      kept := viewer;
      ghost var s := pods.store.State();
      ConsistentStep(s, StoreOp.GetPodSession(viewer.podSessionID, now));
      FreshStays(s, StoreOp.GetPodSession(viewer.podSessionID, now), podID);
      StepTouches(s, StoreOp.GetPodSession(viewer.podSessionID, now));
      FoundPodMayBePut(s, viewer.podSessionID, now);
      var stored := pods.store.GetPodSession(viewer.podSessionID, now);
      if stored.Some? {
        return Success(stored.value), kept;
      }
      var replacement := ReplaceMissingPodSession(viewer, claim, podID, podName);
      if replacement.Failure? {
        return replacement, kept;
      }
      ghost var s1 := pods.store.State();
      StoredMayBePut(s1, viewer);
      MovedFacts(viewer, replacement.value);
      kept := Following(viewer.(podSessionID := replacement.value.id), replacement.value);
      PutViewerFacts(s1, kept);
      pods.store.PutViewerSession(kept);
      return replacement, kept;
    }

    /**
     * A token for a live viewer of the user, on a ready pod session: the viewer's own, or the replacement
     * if that one is gone. It is issued if and only if that session is ready and a usable token is cached
     * or the login answers. Unless the login itself fails, a failure leaves the tokens as they were.
     */
    method IssueToken(id: string, userID: string, claim: Result<EnsureInput, ServiceError>, podID: string, podName: string, login: Login)
      returns (result: Result<ViewerToken, ServiceError>, ghost at: Time, ghost used: PodSession, ghost kept: ViewerSession,
        ghost issued: Time)
      requires pods.Inv() && FreshPod(pods.store.State(), podID)
      modifies pods.Repr()
      ensures pods.Inv() && old(pods.api.time) <= at <= issued <= pods.api.time
      ensures var s := old(pods.store.State());
        match Access(s, id, userID, false, at)
        case Failure(error) =>
          && result == Failure(error) && pods.api.pods == old(pods.api.pods)
          && pods.store.State() == Step(s, StoreOp.GetViewerSession(id, at))
        case Success(v) =>
          var answered := UsableToken(s.tokens, id, used.id, issued).Some? || login.token.Some?;
          && (CanUse(s, old(pods.api.pods), v, claim, podName, at, AlwaysWorks(pods.api.script)) ==>
              (result.Success? <==> used.status == PodReady && answered))
          && (result.Success? ==> answered)
          && (match Lookup(s.pods.sessions, v.podSessionID, at)
              case None => true
              case Some(p) =>
                && pods.api.pods == old(pods.api.pods) && Resynced(p, used)
                && (used == p || SeenNow(pods.api.pods, p, used.status))
                && (AlwaysWorks(pods.api.script) && Exists(pods.api.pods, p.namespace, p.podName) ==>
                    SeenNow(pods.api.pods, p, used.status)))
          && (result.Failure? && result.error != LoginFailed ==> pods.store.State().tokens == s.tokens)
          && (result.Success? ==>
            && result.value.viewerSessionID == id && result.value.podSessionID == used.id && used.status == PodReady
            && TokenSession(s, v, claim, pods.runtimeVersion, at, used)
            && (StoresPod(pods.store.State(), used) || Expired(used.expiresAt, pods.api.time))
            && (StoresViewer(pods.store.State(), kept) || Expired(kept.expiresAt, pods.api.time))
            && (match Lookup(s.pods.sessions, v.podSessionID, at)
                case Some(_) => kept == v
                case None =>
                  kept == v.(podSessionID := used.id, podStatus := kept.podStatus, status := kept.status, tokenReady := kept.tokenReady)
                  && ShowsItsPod(kept)))
          && (result.Success? ==>
              match UsableToken(s.tokens, id, used.id, issued)
              case Some(r) => result.value == ViewerToken(id, used.id, r.rawToken, r.expiresAt)
              case None =>
                && login.token.Some?
                && result.value == ViewerToken(id, used.id, login.token.value, issued + pods.cfg.tokenTTL))
      ensures result.Success? ==> forall now :: result.value.token != "" && !Expired(result.value.expiresAt, now) ==>
          UsableToken(pods.store.State().tokens, id, result.value.podSessionID, now).Some?
    {
      hide StoreOk, Consistent, Orderly, Step, Store.State, Store.Wired, Lookup, Keys, ViewersOf, MayPutPod, Resynced, FreshPod,
        UsableToken, KeyOf, PvcKey, Serving, Marked, Labelled, SeenNow, SessionsLiveOn, Exists, AlwaysWorks, LoginRun, Asked, HookOps, Steps,
        Following, ShowsItsPod, Expired;
      used, kept := *, *;
      var now := pods.api.Now();
      at := now;
      issued := now;
      ghost var s := pods.store.State();
      FreshStays(s, StoreOp.GetViewerSession(id, now), podID);
      StepTouches(s, StoreOp.GetViewerSession(id, now));
      FoundViewerStays(s, id, now);
      var found := FindViewer(id, userID, false, now);
      if found.Failure? {
        return Failure(found.error), at, used, kept, issued;
      }
      var viewer := found.value;
      var session, moved := SessionToUse(viewer, claim, podID, podName, now);
      if session.Failure? {
        return Failure(session.error), at, used, kept, issued;
      }
      viewer := moved;
      kept := viewer;
      ghost var before := session.value;
      var pod := LookAgain(session.value);
      used := pod;
      SameId(before, used);
      if pod.status != PodReady {
        return Failure(NotReady), at, used, kept, issued;
      }
      ghost var s3 := pods.store.State();
      ghost var states, ats;
      result, issued, states, ats := IssueTokenFor(viewer, pod, login);
      StillStored(s3, pods.store.State(), used, pods.api.time);
      ViewerStillStored(s3, pods.store.State(), kept, pods.api.time);
    }
  }

  /** Who has access to a viewer session: its user, or anyone where that is not asked, while it is stored and unexpired. */
  lemma AccessExactly(s: StoreState, id: string, userID: string, anyone: bool, now: Time)
    requires StoreOk(s)
    ensures var a := Access(s, id, userID, anyone, now);
      && (forall v :: a == Success(v) <==> Open(s, id, now, v) && (anyone || v.userID == userID))
      && (a == Failure(Denied) <==> exists v :: Open(s, id, now, v) && !anyone && v.userID != userID)
      && (a == Failure(NotFound) <==> forall v :: !Open(s, id, now, v))
  {
    LookupMeans(s.viewers.sessions, id, now);
    hide Lookup, PodsOk, AuthsOk, TokensOk, Distinct;
    forall v ensures Open(s, id, now, v) <==> Lookup(s.viewers.sessions, id, now) == Some(v) {}
    hide Open;
  }

  ghost predicate Open(s: StoreState, id: string, now: Time, v: ViewerSession) {
    exists x :: x in s.viewers.sessions && x.key == id && x.value == v && (x.expiresAt == 0 || now < x.expiresAt)
  }

  // ----- a login -----

  lemma AskedIs(s: StoreState, viewer: string, pod: string, login: Login, ttl: int, at: Time)
    ensures Asked(s, viewer, pod, login, ttl, at) == Step(Step(s, StoreOp.GetTokenRecord(viewer, pod, at)),
      StoreOp.CreateAuthRequest(AuthRequest(login.authID, viewer, pod, login.passwordHash, None, at + ttl), login.passwordHash))
  {}

  lemma LoginRunIs(s: StoreState, viewer: string, pod: string, login: Login, cfg: SessionConfig, at: Time,
    states: seq<StoreState>, ats: seq<Time>)
    requires |states| == |login.hooks| + 1 && |ats| == |login.hooks|
    requires states[0] == Asked(s, viewer, pod, login, cfg.authRequestTTL, at)
    requires forall i :: 0 <= i < |ats| ==> at <= ats[i]
    requires forall i :: 0 <= i < |ats| ==>
      states[i + 1] == Steps(states[i], HookOps(states[i], cfg.hookClientToken, login.hooks[i], ats[i]))
    ensures LoginRun(s, viewer, pod, login, cfg, at, states, ats)
  {
    hide Asked, Steps, HookOps;
  }

  /**
   * The hook of a login, asked with the configured token and the secret of that login: it allows exactly until
   * the request expires, while the viewer is live and the pod session ready.
   */
  lemma LoginIsLetIn(s: StoreState, viewer: string, pod: string, login: Login, token: string, ttl: int, at: Time, now: Time)
    requires Consistent(s)
    ensures var asked := Asked(s, viewer, pod, login, ttl, at);
      && Slot(login.authID, AuthRequest(login.authID, viewer, pod, login.passwordHash, None, at + ttl), at + ttl) in asked.auths.requests
      && (HookAllows(asked, token, HookInput(token, pod, viewer, login.authID, login.passwordHash), now) <==>
          && token != "" && (at + ttl == 0 || now < at + ttl)
          && ViewerUsable(s, viewer, now) && PodUsable(s, pod, now))
  {
    var r := AuthRequest(login.authID, viewer, pod, login.passwordHash, None, at + ttl);
    var got, create := StoreOp.GetTokenRecord(viewer, pod, at), StoreOp.CreateAuthRequest(r, login.passwordHash);
    var s1 := Step(s, got);
    ConsistentStep(s, got);
    StepTouches(s, got);
    ConsistentStep(s1, create);
    StepTouches(s1, create);
    var asked := Step(s1, create);
    RequestIsStored(s1, r);
    hide Step;
    RequestExactly(asked, HookInput(token, pod, viewer, login.authID, login.passwordHash), now);
    SameUsable(s, asked, viewer, pod, now);
    hide Consumable, InScope, ViewerUsable, PodUsable, StoreOk, Covered, Agrees, NoStale;
  }

  lemma SameUsable(s: StoreState, t: StoreState, viewer: string, pod: string, now: Time)
    requires t.viewers == s.viewers && t.pods == s.pods
    ensures ViewerUsable(t, viewer, now) == ViewerUsable(s, viewer, now) && PodUsable(t, pod, now) == PodUsable(s, pod, now)
  {}

  lemma RequestIsStored(s: StoreState, r: AuthRequest)
    requires StoreOk(s)
    ensures var t := Step(s, StoreOp.CreateAuthRequest(r, r.passwordHash)).auths.requests;
      Slot(r.id, r, r.expiresAt) in t && forall x :: x in t && x.key == r.id ==> x.value == r && x.expiresAt == r.expiresAt
  {
    PutFacts(s.auths.requests, s.auths.capacity, Slot(r.id, r, r.expiresAt));
    hide AfterPut;
  }

  /** A token of a viewer for a pod is usable when its record is stored, unexpired, and has a raw token. */
  lemma UsableTokenExactly(s: StoreState, viewer: string, pod: string, now: Time, r: TokenRecord)
    requires StoreOk(s)
    ensures UsableToken(s.tokens, viewer, pod, now) == Some(r) <==>
      exists x :: x in s.tokens.records && x.value == r && (x.expiresAt == 0 || now < x.expiresAt)
        && r.viewerSessionID == viewer && r.podSessionID == pod && r.rawToken != ""
  {
    var t := s.tokens;
    hide Lookup, PodsOk, ViewersOk, AuthsOk;
    if viewer in t.byViewer { LookupMeans(t.records, t.byViewer[viewer], now); }
    hide Distinct;
  }

  // ----- facts about the store calls -----

  lemma ConsistentIsOk(s: StoreState)
    requires Consistent(s)
    ensures StoreOk(s)
  {}

  ghost predicate ServesClaim(s: StoreState, p: PodSession, claim: EnsureInput, v: ViewerSession) {
    && Slot(p.id, p, p.expiresAt) in s.pods.sessions && v.podSessionID == p.id && v.podStatus == p.status
    && KeyOf(p) == PvcKey(claim.namespace, claim.pvcUID)
  }

  lemma MarkingKeepsNames(pods: seq<Pod>, marked: set<Pod>, namespace: string, name: string)
    ensures Exists(Marked(pods, marked), namespace, name) == Exists(pods, namespace, name)
  {
    MarkedIsAged(pods, marked);
    AgedExist(pods, Marked(pods, marked), namespace, name);
  }

  lemma AllLiveOn(s: StoreState, t: StoreState, now: Time)
    requires t.pods == s.pods && t.viewers == s.viewers
    ensures SessionsLiveOn(s, t, now)
  {}

  lemma GetViewerLivesOn(s: StoreState, t: StoreState, id: string, now: Time)
    requires StoreOk(s) && t.pods == s.pods && t.viewers == s.viewers
    ensures SessionsLiveOn(s, Step(t, StoreOp.GetViewerSession(id, now)), now)
  {
    GetFacts(s.viewers.sessions, id, now);
    hide AfterGet;
  }

  lemma GetPodLivesOn(s: StoreState, id: string, now: Time)
    requires StoreOk(s)
    ensures SessionsLiveOn(s, Step(s, StoreOp.GetPodSession(id, now)), now)
  {
    GetFacts(s.pods.sessions, id, now);
    hide AfterGet;
  }

  lemma LiveOnChain(s: StoreState, t: StoreState, u: StoreState, before: Time, now: Time)
    requires SessionsLiveOn(s, t, before) && SessionsLiveOn(t, u, now) && before <= now
    ensures SessionsLiveOn(s, u, now)
  {}

  lemma SameLiveOn(s: StoreState, t: StoreState, u: StoreState, now: Time)
    requires SessionsLiveOn(s, t, now) && u.pods == t.pods && u.viewers == t.viewers
    ensures SessionsLiveOn(s, u, now)
  {}

  lemma ViewerStillStored(s: StoreState, t: StoreState, v: ViewerSession, now: Time)
    requires SessionsLiveOn(s, t, now) && StoresViewer(s, v)
    ensures StoresViewer(t, v) || Expired(v.expiresAt, now)
  {}

  lemma StillStored(s: StoreState, t: StoreState, p: PodSession, now: Time)
    requires SessionsLiveOn(s, t, now) && StoresPod(s, p)
    ensures StoresPod(t, p) || Expired(p.expiresAt, now)
  {}

  lemma FollowFacts(v: ViewerSession, p: PodSession, q: PodSession)
    requires q.status == p.status
    ensures var w := Following(v, p);
      && w == v.(podStatus := p.status, status := w.status, tokenReady := w.tokenReady) && ShowsItsPod(w)
      && w == Following(v, q) && w == Following(w, p)
  {}

  lemma MarksStay(pods: seq<Pod>)
    ensures SameMarks(pods, pods)
  {}

  lemma MovedFacts(v: ViewerSession, p: PodSession)
    ensures var w := Following(v.(podSessionID := p.id), p);
      && w == v.(podSessionID := p.id, podStatus := w.podStatus, status := w.status, tokenReady := w.tokenReady)
      && ShowsItsPod(w)
  {}

  lemma SameId(p: PodSession, q: PodSession)
    requires Resynced(p, q)
    ensures q.id == p.id && KeyOf(q) == KeyOf(p) && q.runtimeVersion == p.runtimeVersion && q.adminContext == p.adminContext
  {}

  lemma NoSteps(s: StoreState)
    ensures Steps(s, []) == s
  {}

  lemma OneStep(s: StoreState, a: StoreOp)
    requires a.ConsumeAuthRequest?
    ensures Steps(s, [a]) == Step(s, a)
    ensures Step(s, a).viewers == s.viewers && Step(s, a).pods == s.pods
  {
    assert [a][..0] == [];
  }

  lemma TwoSteps(s: StoreState, a: StoreOp, b: StoreOp)
    requires a.ConsumeAuthRequest? && b.GetViewerSession?
    ensures Steps(s, [a, b]) == Step(Step(s, a), b)
    ensures Step(Step(s, a), b).pods == s.pods
  {
    OneStep(s, a);
    StepsLast(s, [a], b);
    hide Steps;
    assert [a, b] == [a] + [b];
  }

  lemma StepsLast(s: StoreState, ops: seq<StoreOp>, op: StoreOp)
    ensures Steps(s, ops + [op]) == Step(Steps(s, ops), op)
  {
    hide Step;
    assert (ops + [op])[..|ops + [op]| - 1] == ops;
  }

  lemma ThreeSteps(s: StoreState, a: StoreOp, b: StoreOp, d: StoreOp)
    requires a.ConsumeAuthRequest? && b.GetViewerSession?
    ensures Steps(s, [a, b, d]) == Step(Step(Step(s, a), b), d)
  {
    TwoSteps(s, a, b);
    StepsLast(s, [a, b], d);
    hide Step, Steps;
    assert [a, b, d] == [a, b] + [d];
  }

  lemma FoundTokenStays(s: StoreState, viewer: string, pod: string, now: Time)
    requires Consistent(s)
    ensures match UsableToken(s.tokens, viewer, pod, now)
      case None => true
      case Some(r) => forall later :: !Expired(r.expiresAt, later) ==>
        UsableToken(Step(s, StoreOp.GetTokenRecord(viewer, pod, now)).tokens, viewer, pod, later) == Some(r)
  {
    var t := s.tokens;
    assert TokensOk(t);
    match UsableToken(t, viewer, pod, now)
    case None =>
    case Some(r) =>
      var hash := t.byViewer[viewer];
      var slot := Find(t.records, hash).value;
      assert slot.value == r && slot.expiresAt == r.expiresAt;
      GetFacts(t.records, hash, now);
      FindIs(AfterGet(t.records, hash, now), slot);
      hide AfterGet, Keep, Find;
  }

  lemma PutTokenIsUsable(s: StoreState, r: TokenRecord)
    requires Consistent(s)
    ensures forall now :: r.rawToken != "" && !Expired(r.expiresAt, now) ==>
      UsableToken(Step(s, StoreOp.PutTokenRecord(r)).tokens, r.viewerSessionID, r.podSessionID, now) == Some(r)
  {
    var t := s.tokens;
    assert TokensOk(t);
    PutTokenHolds(t, r);
    hide StoreOk, PutToken;
  }

  lemma PutTokenHolds(t: TokenTable, r: TokenRecord)
    requires TokensOk(t)
    ensures var u := PutToken(t, r);
      && r.viewerSessionID in u.byViewer && u.byViewer[r.viewerSessionID] == r.tokenHash
      && Find(u.records, r.tokenHash) == Some(Slot(r.tokenHash, r, r.expiresAt))
  {
    var v := r.viewerSessionID;
    var slot := Slot(r.tokenHash, r, r.expiresAt);
    DropTokensOk(t, {v});
    var t1 := if v in t.byViewer && t.byViewer[v] != r.tokenHash then DropTokens(t, {v}) else t;
    PutFacts(t1.records, t1.capacity, slot);
    FindIs(AfterPut(t1.records, t1.capacity, slot), slot);
    hide AfterPut, Keep, Find, DropTokens, TokensOk, DropHashes, Evicted;
  }

  lemma PutViewerFacts(s: StoreState, v: ViewerSession)
    requires Consistent(s) && ViewerIndex.MayPutViewer(s.viewers, v)
    ensures var t := Step(s, StoreOp.PutViewerSession(v));
      && Consistent(t) && t.pods == s.pods && t.tokens == s.tokens
      && Slot(v.id, v, v.expiresAt) in t.viewers.sessions && ViewerIndex.UnderOwnPod(t.viewers, Slot(v.id, v, v.expiresAt))
  {
    ConsistentStep(s, StoreOp.PutViewerSession(v));
    ViewerIndex.PutViewerIndex(s.viewers, v);
    hide PutViewer, ViewerIndex.UnderOwnPod;
  }

  lemma StoredMayBePut(s: StoreState, v: ViewerSession)
    requires Slot(v.id, v, v.expiresAt) in s.viewers.sessions
    ensures forall w: ViewerSession :: w.id == v.id ==> ViewerIndex.MayPutViewer(s.viewers, w)
  {
    KeysAre(s.viewers.sessions);
    assert Slot(v.id, v, v.expiresAt).key in Keys(s.viewers.sessions);
  }

  lemma FoundViewerStays(s: StoreState, id: string, now: Time)
    requires Consistent(s)
    ensures match Lookup(s.viewers.sessions, id, now)
      case None => true
      case Some(v) =>
        var t := Step(s, StoreOp.GetViewerSession(id, now));
        v.id == id && StoresViewer(t, v) && t.tokens == s.tokens && t.pods == s.pods
  {
    GetFacts(s.viewers.sessions, id, now);
    match Find(s.viewers.sessions, id)
    case None =>
    case Some(slot) => assert slot in s.viewers.sessions && slot == Slot(id, slot.value, slot.value.expiresAt);
  }

  lemma FoundPodMayBePut(s: StoreState, id: string, now: Time)
    requires Consistent(s)
    ensures var t := Step(s, StoreOp.GetPodSession(id, now));
      && t.viewers == s.viewers
      && match Lookup(s.pods.sessions, id, now)
         case None => forall x :: x in t.pods.sessions ==> x.key != id
         case Some(p) => p.id == id && Slot(id, p, p.expiresAt) in t.pods.sessions && MayPutPod(t, p)
  {
    GetFacts(s.pods.sessions, id, now);
    ConsistentStep(s, StoreOp.GetPodSession(id, now));
    var t := Step(s, StoreOp.GetPodSession(id, now));
    match Find(s.pods.sessions, id)
    case None =>
    case Some(slot) =>
      assert slot in s.pods.sessions && slot == Slot(id, slot.value, slot.value.expiresAt);
      if slot in t.pods.sessions { FindIs(t.pods.sessions, slot); }
      UniqueSlot(s.pods.sessions, slot);
      hide AfterGet, Keep;
  }

  lemma PutRefreshed(s: StoreState, p: PodSession, q: PodSession)
    requires Consistent(s) && MayPutPod(s, p) && q == p.(lastActiveAt := q.lastActiveAt, expiresAt := q.expiresAt)
    ensures var t := Step(s, StoreOp.PutPodSession(q)); StoresPod(t, q) && t.viewers == s.viewers
  {
    PutPodFacts(s, q);
  }

  lemma ClosedLeavesNothing(s: StoreState, id: string)
    requires Consistent(s)
    ensures var t := Step(s, StoreOp.DeleteViewerSession(id));
      id !in Keys(t.viewers.sessions) && TokenIndex.NoTokenOf(t.tokens, id)
  {
    TokenIndex.DropLeavesNone(s.tokens, {id});
    KeysAre(s.viewers.sessions);
    hide DropTokens, TokenIndex.NoTokenOf, TokensOk;
  }

  lemma SyncedMayBePut(s: StoreState, pod: PodSession, synced: PodSession)
    requires Consistent(s) && Slot(pod.id, pod, pod.expiresAt) in s.pods.sessions && Resynced(pod, synced)
    ensures MayPutPod(s, synced)
    ensures var t := Step(s, StoreOp.PutPodSession(synced));
      Consistent(t) && t == s.(pods := t.pods) && StoresPod(t, synced)
  {
    FindIs(s.pods.sessions, Slot(pod.id, pod, pod.expiresAt));
    PutPodFacts(s, synced);
    ConsistentStep(s, StoreOp.PutPodSession(synced));
  }

  lemma SessionIsUnique(s: StoreState, p: PodSession)
    requires Consistent(s) && Slot(p.id, p, p.expiresAt) in s.pods.sessions
    ensures forall x :: x in s.pods.sessions && x.key == p.id ==> x.value == p
  {
    UniqueSlot(s.pods.sessions, Slot(p.id, p, p.expiresAt));
  }
}
