/** Deleting a claim: allowed only when no active pod mounts it and no source refers to it. */
module PvcDeletion {
  import opened Results
  import PodPhases
  import opened PvcReferences
  import opened PvcGuard
  import opened PvcManifests

  datatype Pod = Pod(namespace: string, name: string, phase: PodPhases.Phase, volumes: seq<Volume>)

  datatype Claim = Claim(namespace: string, name: string, uid: string)

  datatype DeleteError = PVCNotFound | PVCInUse(pods: seq<string>) | PVCReferenced(references: seq<Reference>) | Unreadable(why: ReferenceError) | ApiFailure

  /** How the API calls of one deletion answer, beyond what the state decides. */
  datatype Faults = Faults(getFails: bool, listPodsFails: bool, deleteFails: bool)

  predicate Uses(pod: Pod, name: string) {
    exists i :: 0 <= i < |pod.volumes| && pod.volumes[i].claimName == Some(name)
  }

  /** An active pod of the namespace mounts the claim. */
  predicate Mounts(pod: Pod, namespace: string, name: string) {
    pod.namespace == namespace && !PodPhases.Terminal(pod.phase) && name != "" && Uses(pod, name)
  }

  /** Some active pod of that name mounts the claim. */
  ghost predicate MountedBy(pods: seq<Pod>, namespace: string, name: string, pod: string) {
    exists i :: 0 <= i < |pods| && Mounts(pods[i], namespace, name) && pods[i].name == pod
  }

  /** The names of the active pods that mount the claim, once per volume. */
  method DetectMountedPods(pods: seq<Pod>, namespace: string, name: string) returns (mounted: seq<string>)
    ensures forall p :: p in mounted <==> MountedBy(pods, namespace, name, p)
  {
    mounted := [];
    for i := 0 to |pods|
      invariant forall p :: p in mounted <==> MountedBy(pods[..i], namespace, name, p)
    {
      MoreMounts(pods, i, namespace, name);
      if pods[i].namespace != namespace || PodPhases.Terminal(pods[i].phase) {
        continue;
      }
      ghost var before, found := mounted, false;
      for v := 0 to |pods[i].volumes|
        invariant found <==> name != "" && exists j :: 0 <= j < v && pods[i].volumes[j].claimName == Some(name)
        invariant forall p :: p in mounted <==> p in before || (found && p == pods[i].name)
      {
        var claim := pods[i].volumes[v].claimName;
        if claim.None? || claim.value == "" || claim.value != name {
          continue;
        }
        mounted := mounted + [pods[i].name];
        found := true;
      }
      assert found <==> Mounts(pods[i], namespace, name);
    }
    assert pods[..|pods|] == pods;
  }

  lemma MoreMounts(pods: seq<Pod>, i: nat, namespace: string, name: string)
    requires i < |pods|
    ensures forall p :: MountedBy(pods[..i + 1], namespace, name, p) <==>
      MountedBy(pods[..i], namespace, name, p) || (Mounts(pods[i], namespace, name) && pods[i].name == p)
  {
    hide Mounts;
    var before, now := pods[..i], pods[..i + 1];
    assert now == before + [pods[i]];
    forall p ensures MountedBy(now, namespace, name, p)
      <==> MountedBy(before, namespace, name, p) || (Mounts(pods[i], namespace, name) && pods[i].name == p)
    {
      if MountedBy(before, namespace, name, p) {
        var j :| 0 <= j < i && Mounts(before[j], namespace, name) && before[j].name == p;
        assert now[j] == before[j];
      }
      if Mounts(pods[i], namespace, name) { assert now[i] == pods[i]; }
    }
  }

  class ClaimApi {
    var claims: map<PvcKey, Claim>
    var pods: seq<Pod>
    var cluster: Cluster

    /** A pod of the namespace that neither failed nor succeeded has the claim as a volume. */
    ghost predicate Mounted(namespace: string, name: string)
      reads this
    {
      exists i, j ::
        && 0 <= i < |pods| && pods[i].namespace == namespace && pods[i].phase != PodPhases.Failed && pods[i].phase != PodPhases.Succeeded
        && 0 <= j < |pods[i].volumes| && pods[i].volumes[j].claimName == Some(name) && name != ""
    }

    /** Every source of the namespace can be read, and none refers to the claim. */
    ghost predicate KnownUnreferenced(namespace: string, name: string)
      reads this
    {
      ReadableCluster(cluster, namespace, name) && forall r :: !RefersTo(cluster, namespace, name, r)
    }

    method DeletePVC(namespace: string, name: string, faults: Faults) returns (result: Result<Claim, DeleteError>)
      modifies this`claims
      ensures result.Success? <==>
        && faults == Faults(false, false, false) && (namespace, name) in old(claims)
        && !Mounted(namespace, name) && KnownUnreferenced(namespace, name)
      ensures match result
        case Success(claim) => claim == old(claims)[(namespace, name)] && claims == old(claims) - {(namespace, name)}
        case Failure(_) => claims == old(claims)
      ensures result.Failure? && result.error.PVCInUse? ==>
        result.error.pods != [] && forall p :: p in result.error.pods <==> MountedBy(pods, namespace, name, p)
      ensures result.Failure? && result.error.PVCReferenced? ==>
        && result.error.references != [] && InOrder((namespace, name), result.error.references)
        && forall r :: r in result.error.references ==> RefersTo(cluster, namespace, name, r)
      ensures
        && result.Failure? && result.error.PVCReferenced?
        && (forall r :: RefersTo(cluster, namespace, name, r) ==> NoNul(namespace, name, r))
        ==> forall r :: r in result.error.references <==> RefersLeast(cluster, namespace, name, r)
    {
      hide Detectable, CleanScope, Refers, InScope, Mounts, ReadableCluster, RefersTo, RefersLeast, NoNul, InOrder;
      var key := (namespace, name);
      if faults.getFails {
        return Failure(ApiFailure);
      }
      if key !in claims {
        return Failure(PVCNotFound);
      }
      var current := claims[key];
      if faults.listPodsFails {
        return Failure(ApiFailure);
      }
      var mountedPods := DetectMountedPods(pods, namespace, name);
      MountedMeans(pods, namespace, name, mountedPods);
      assert mountedPods != [] <==> Mounted(namespace, name);
      if mountedPods != [] {
        return Failure(PVCInUse(mountedPods));
      }
      var references := DetectPVCReferences(cluster, namespace, name);
      DetectableMeans(cluster, namespace, name);
      if references.Failure? {
        return Failure(Unreadable(references.error));
      }
      DetectableIsListed(cluster, namespace, Just(namespace, name));
      ScopeMeans(cluster, namespace, name);
      ReportedAreLeast(cluster, namespace, name);
      if references.value != [] {
        return Failure(PVCReferenced(references.value));
      }
      if faults.deleteFails {
        return Failure(ApiFailure);
      }
      claims := claims - {key};
      return Success(current);
    }
  }

  lemma MountedMeans(pods: seq<Pod>, namespace: string, name: string, mounted: seq<string>)
    requires forall p :: p in mounted <==> MountedBy(pods, namespace, name, p)
    ensures mounted != [] <==> exists i, j ::
      && 0 <= i < |pods| && pods[i].namespace == namespace && pods[i].phase != PodPhases.Failed && pods[i].phase != PodPhases.Succeeded
      && 0 <= j < |pods[i].volumes| && pods[i].volumes[j].claimName == Some(name) && name != ""
  {
    if mounted != [] { assert mounted[0] in mounted; }
    if i :| 0 <= i < |pods| && Mounts(pods[i], namespace, name) { assert MountedBy(pods, namespace, name, pods[i].name); }
  }

  // The bindings of a claim and the references its manifests hold.
  lemma ScopeMeans(k: Cluster, namespace: string, name: string)
    requires ReadableCluster(k, namespace, name) && k.deployments.Items? && k.statefulSets.Items?
    ensures forall r :: InScope(k, namespace, Just(namespace, name), Binding(namespace, name, r)) <==> RefersTo(k, namespace, name, r)
    ensures (forall b :: !InScope(k, namespace, Just(namespace, name), b)) <==> forall r :: !RefersTo(k, namespace, name, r)
  {
    forall r ensures InScope(k, namespace, Just(namespace, name), Binding(namespace, name, r)) <==> RefersTo(k, namespace, name, r) {
      ScopeIsWhatManifestsSay(k, namespace, name, r);
    }
    forall b | InScope(k, namespace, Just(namespace, name), b) ensures b == Binding(namespace, name, b.reference) {
      hide Collected;
    }
    hide InScope, RefersTo, ReadableCluster;
  }
}
