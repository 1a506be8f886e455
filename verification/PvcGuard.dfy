/**
 * The references of one claim, as the delete guard, the listing of a namespace and the listing
 * across namespaces compute them, and the guard itself.
 */
module PvcGuard {
  import opened Results
  import opened GoText
  import opened PvcReferences
  import opened PvcDedupe

  type PvcKey = (string, string)

  // ----- filtering -----

  function Kept(references: seq<Binding>, claims: Claims): seq<Binding> {
    if references == [] then []
    else
      var before, last := Kept(references[..|references| - 1], claims), references[|references| - 1];
      if Wanted(claims, last.pvcNamespace, last.pvcName) then before + [last] else before
  }

  lemma {:induction false} KeptMeans(references: seq<Binding>, claims: Claims)
    ensures forall b :: b in Kept(references, claims) <==> b in references && Wanted(claims, b.pvcNamespace, b.pvcName)
  {
    if references != [] {
      KeptMeans(references[..|references| - 1], claims);
      assert forall b :: b in references <==> b in references[..|references| - 1] || b == references[|references| - 1];
    }
  }

  method FilterBindings(references: seq<Binding>, claims: Claims) returns (filtered: seq<Binding>)
    ensures filtered == Kept(references, claims)
  {
    filtered := [];
    if claims == map[] {
      NothingKept(references, claims);
      return;
    }
    for i := 0 to |references|
      invariant filtered == Kept(references[..i], claims)
    {
      assert references[..i + 1][..i] == references[..i];
      if !(references[i].pvcNamespace in claims && references[i].pvcName in claims[references[i].pvcNamespace]) {
        continue;
      }
      filtered := filtered + [references[i]];
    }
    assert references[..|references|] == references;
  }

  lemma {:induction false} NothingKept(references: seq<Binding>, claims: Claims)
    requires claims == map[]
    ensures Kept(references, claims) == []
  {
    if references != [] { NothingKept(references[..|references| - 1], claims); }
  }

  /** The named claims of a list, by namespace. */
  function ClaimsOf(pvcs: seq<PvcKey>): Claims {
    if pvcs == [] then map[]
    else
      var before, (namespace, name) := ClaimsOf(pvcs[..|pvcs| - 1]), pvcs[|pvcs| - 1];
      if namespace == "" || name == "" then before
      else before[namespace := (if namespace in before then before[namespace] else {}) + {name}]
  }

  lemma {:induction false} ClaimsOfMeans(pvcs: seq<PvcKey>)
    ensures forall ns, name :: Wanted(ClaimsOf(pvcs), ns, name) <==> (ns, name) in pvcs && ns != "" && name != ""
  {
    if pvcs != [] {
      ClaimsOfMeans(pvcs[..|pvcs| - 1]);
      assert forall p :: p in pvcs <==> p in pvcs[..|pvcs| - 1] || p == pvcs[|pvcs| - 1];
    }
  }

  method ClaimsByNamespace(pvcs: seq<PvcKey>) returns (claims: Claims)
    ensures claims == ClaimsOf(pvcs)
  {
    claims := map[];
    for i := 0 to |pvcs|
      invariant claims == ClaimsOf(pvcs[..i])
    {
      assert pvcs[..i + 1][..i] == pvcs[..i];
      var (namespace, name) := pvcs[i];
      if namespace == "" || name == "" {
        continue;
      }
      if namespace !in claims {
        claims := claims[namespace := {}];
      }
      claims := claims[namespace := claims[namespace] + {name}];
    }
    assert pvcs[..|pvcs|] == pvcs;
  }

  // ----- the pipeline -----

  /** Every list call answers and every selected source can be read. */
  ghost predicate Detectable(k: Cluster, namespace: string, claims: Claims) {
    && AllReadable(k, namespace, k.deployments, "Deployment") && AllReadable(k, namespace, k.statefulSets, "StatefulSet")
    && (k.custom.None? || forall i :: 0 <= i < |k.custom.value| ==> CustomReadable(k, namespace, k.custom.value[i]))
    && ReposReadable(k, claims)
  }

  /** Some source of the cluster makes the binding. */
  ghost predicate Collected(k: Cluster, namespace: string, claims: Claims, b: Binding)
    requires k.deployments.Items? && k.statefulSets.Items?
  {
    || InDeployments(k, namespace, k.deployments.items, b)
    || InStatefulSets(k, namespace, claims, k.statefulSets.items, b)
    || (k.custom.Some? && InCustoms(k, namespace, k.custom.value, b))
    || (ReposListed(k) && InRepos(claims, k.backupRepos.items, b))
  }

  ghost predicate InScope(k: Cluster, namespace: string, claims: Claims, b: Binding)
    requires k.deployments.Items? && k.statefulSets.Items?
  {
    Collected(k, namespace, claims, b) && Wanted(claims, b.pvcNamespace, b.pvcName)
  }

  /** In scope, and with the least evidence for its target. */
  ghost predicate LeastInScope(k: Cluster, namespace: string, claims: Claims, b: Binding)
    requires k.deployments.Items? && k.statefulSets.Items?
  {
    && InScope(k, namespace, claims, b)
    && forall r :: InScope(k, namespace, claims, r) && SameTarget(r, b) ==> !Less(r.reference.evidence, b.reference.evidence)
  }

  /** No field of a binding in scope holds a NUL. */
  ghost predicate CleanScope(k: Cluster, namespace: string, claims: Claims)
    requires k.deployments.Items? && k.statefulSets.Items?
  {
    forall b :: InScope(k, namespace, claims, b) ==> Clean(b)
  }

  ghost predicate OnePerTarget(bindings: seq<Binding>) {
    forall i, j :: 0 <= i < j < |bindings| ==> !SameTarget(bindings[i], bindings[j])
  }

  lemma LeastOfScope(k: Cluster, namespace: string, claims: Claims, filtered: seq<Binding>, sorted: seq<Binding>)
    requires k.deployments.Items? && k.statefulSets.Items? && CleanScope(k, namespace, claims)
    requires forall b :: b in filtered <==> InScope(k, namespace, claims, b)
    requires IsSortOf(sorted, filtered)
    ensures forall b :: b in FirstPerKey(sorted) <==> LeastInScope(k, namespace, claims, b)
    ensures OnePerTarget(FirstPerKey(sorted))
  {
    hide InScope, Clean, SameTarget, Less, FirstPerKey, IsSortOf;
    DedupeKeepsLeastEvidence(filtered, sorted);
  }

  /** What is returned about a scope, whatever the fields hold: only bindings in scope, and every key in scope. */
  ghost predicate CoversScope(k: Cluster, namespace: string, claims: Claims, bindings: seq<Binding>)
    requires k.deployments.Items? && k.statefulSets.Items?
  {
    && (forall b :: b in bindings ==> InScope(k, namespace, claims, b))
    && (forall b :: InScope(k, namespace, claims, b) ==> KeyIn(bindings, DedupeKey(b)))
  }

  method ListPVCReferences(k: Cluster, namespace: string, claims: Claims) returns (result: Result<seq<Binding>, ReferenceError>)
    ensures result.Success? <==> Detectable(k, namespace, claims)
    ensures result.Success? ==> CoversScope(k, namespace, claims, result.value) && IsSorted(result.value)
    ensures result.Success? ==> (result.value == [] <==> forall b :: !InScope(k, namespace, claims, b))
    ensures result.Success? && CleanScope(k, namespace, claims) ==>
      OnePerTarget(result.value) && forall b :: b in result.value <==> LeastInScope(k, namespace, claims, b)
  {
    hide AllReadable, CustomReadable, ReposReadable, ReposListed, InDeployments, InStatefulSets, InCustoms, InRepos,
      Kept, FirstPerKey, IsSortOf, IsSorted, LeastInScope, CleanScope, OnePerTarget;
    var workloads := ListWorkloadReferences(k, namespace, claims);
    if workloads.Failure? {
      return Failure(workloads.error);
    }
    var custom := ListCustomReferences(k, namespace);
    if custom.Failure? {
      return Failure(custom.error);
    }
    var backups := ListBackupRepoReferences(k, claims);
    if backups.Failure? {
      return Failure(backups.error);
    }
    var references := workloads.value + custom.value + backups.value;
    ReadableIsListed(k, namespace);
    assert forall b :: b in references <==> Collected(k, namespace, claims, b);
    var filtered := FilterBindings(references, claims);
    KeptMeans(references, claims);
    var deduped := DedupeBindings(filtered);
    ghost var sorted :| IsSortOf(sorted, filtered) && deduped == FirstPerKey(sorted);
    DedupeCoversKeys(filtered, sorted);
    NothingCovered(k, namespace, claims, deduped);
    if CleanScope(k, namespace, claims) { LeastOfScope(k, namespace, claims, filtered, sorted); }
    return Success(deduped);
  }

  lemma NothingCovered(k: Cluster, namespace: string, claims: Claims, bindings: seq<Binding>)
    requires k.deployments.Items? && k.statefulSets.Items? && CoversScope(k, namespace, claims, bindings)
    ensures bindings == [] <==> forall b :: !InScope(k, namespace, claims, b)
  {
    hide InScope;
    if bindings != [] { assert bindings[0] in bindings; }
    forall b | InScope(k, namespace, claims, b) ensures bindings != [] { assert KeyIn(bindings, DedupeKey(b)); }
  }

  lemma ReadableIsListed(k: Cluster, namespace: string)
    ensures AllReadable(k, namespace, k.deployments, "Deployment") ==> k.deployments.Items?
    ensures AllReadable(k, namespace, k.statefulSets, "StatefulSet") ==> k.statefulSets.Items?
  {}

  // ----- restriction to one claim -----

  /** Just one claim, if it has a namespace and a name. */
  function Just(namespace: string, name: string): Claims {
    if namespace == "" || name == "" then map[] else map[namespace := {name}]
  }

  lemma {:induction false} DeclaredInOwnNamespace(source: Source, items: seq<Declared>, b: Binding)
    requires BindAll(source, items).Success? && b in BindAll(source, items).value
    ensures b.pvcNamespace == source.namespace
  {
    var init := items[..|items| - 1];
    if b in BindAll(source, init).value { DeclaredInOwnNamespace(source, init, b); }
  }

  lemma {:induction false} VolumesInOwnNamespace(source: Source, volumes: seq<Volume>, mounts: seq<Mount>, b: Binding)
    requires b in VolumeBindings(source, volumes, mounts)
    ensures b.pvcNamespace == source.namespace
  {
    var init := volumes[..|volumes| - 1];
    if b in VolumeBindings(source, init, mounts) { VolumesInOwnNamespace(source, init, mounts, b); }
  }

  // Every workload binds claims of its own namespace only.
  lemma WorkloadsBindLocally(k: Cluster, w: Workload, claims: Claims, b: Binding)
    requires FromDeployment(k, w, b) || FromStatefulSet(k, w, claims, b) || FromCustom(k, w, b)
    ensures b.pvcNamespace == w.meta.namespace
  {
    hide TrimSpace, FirstNonEmpty, MountPathOf;
    forall fallback | DeclaredBy(k, SourceOf(w.meta, w.kind, fallback), b) ensures b.pvcNamespace == w.meta.namespace {
      DeclaredLocally(k, SourceOf(w.meta, w.kind, fallback), b);
    }
    forall fallback | b in VolumeBindings(SourceOf(w.meta, w.kind, fallback), w.spec.volumes, w.spec.mounts)
      ensures b.pvcNamespace == w.meta.namespace
    {
      VolumesInOwnNamespace(SourceOf(w.meta, w.kind, fallback), w.spec.volumes, w.spec.mounts, b);
    }
    hide DeclaredBy, VolumeBindings;
  }

  lemma DeclaredLocally(k: Cluster, source: Source, b: Binding)
    requires DeclaredBy(k, source, b)
    ensures b.pvcNamespace == source.namespace
  {
    var body := TrimSpace(Get(source.annotations, REFERENCES_ANNOTATION));
    DeclaredInOwnNamespace(source, k.parse(body).value, b);
  }

  lemma SelectionIsLocal(meta: Meta, scope: string, namespace: string)
    requires namespace != "" && (scope == "" || scope == namespace) && meta.namespace == namespace
    ensures Selected(meta, scope) <==> Selected(meta, namespace)
  {}

  lemma StatefulSetIsLocal(k: Cluster, w: Workload, claims: Claims, b: Binding)
    requires b.pvcNamespace != "" && b.pvcName != "" && Wanted(claims, b.pvcNamespace, b.pvcName)
    ensures FromStatefulSet(k, w, claims, b) <==> FromStatefulSet(k, w, Just(b.pvcNamespace, b.pvcName), b)
  {
    hide DeclaredBy, VolumeBindings, FromTemplate, TrimSpace;
    var one := Just(b.pvcNamespace, b.pvcName);
    var source := SourceOf(w.meta, w.kind, "StatefulSet");
    assert forall i :: 0 <= i < |w.claimTemplates| ==> (FromTemplate(source, w, i, b) ==> b.pvcNamespace == w.meta.namespace) by {
      TemplatesBindLocally(source, w, b);
    }
  }

  lemma TemplatesBindLocally(source: Source, w: Workload, b: Binding)
    ensures forall i :: 0 <= i < |w.claimTemplates| ==> (FromTemplate(source, w, i, b) ==> b.pvcNamespace == w.meta.namespace)
  {
    hide ClaimNameMatches, TrimSpace, ReferenceTo;
  }

  /** What is collected about one claim depends neither on the scope listed nor on the other claims asked for. */
  lemma CollectedIsLocal(k: Cluster, scope: string, claims: Claims, b: Binding)
    requires k.deployments.Items? && k.statefulSets.Items?
    requires b.pvcNamespace != "" && b.pvcName != "" && (scope == "" || scope == b.pvcNamespace) && Wanted(claims, b.pvcNamespace, b.pvcName)
    ensures Collected(k, scope, claims, b) <==> Collected(k, b.pvcNamespace, Just(b.pvcNamespace, b.pvcName), b)
  {
    var ns := b.pvcNamespace;
    var one := Just(ns, b.pvcName);
    hide Selected, FromDeployment, FromStatefulSet, FromCustom;
    forall w: Workload ensures Selected(w.meta, scope) && FromDeployment(k, w, b) <==> Selected(w.meta, ns) && FromDeployment(k, w, b) {
      if FromDeployment(k, w, b) { WorkloadsBindLocally(k, w, claims, b); SelectionIsLocal(w.meta, scope, ns); }
    }
    forall w: Workload ensures Selected(w.meta, scope) && FromCustom(k, w, b) <==> Selected(w.meta, ns) && FromCustom(k, w, b) {
      if FromCustom(k, w, b) { WorkloadsBindLocally(k, w, claims, b); SelectionIsLocal(w.meta, scope, ns); }
    }
    forall w: Workload
      ensures Selected(w.meta, scope) && FromStatefulSet(k, w, claims, b) <==> Selected(w.meta, ns) && FromStatefulSet(k, w, one, b)
    {
      StatefulSetIsLocal(k, w, claims, b);
      if FromStatefulSet(k, w, claims, b) { WorkloadsBindLocally(k, w, claims, b); SelectionIsLocal(w.meta, scope, ns); }
    }
    assert forall repo :: FromRepo(repo, claims, b) <==> FromRepo(repo, one, b);
    hide FromRepo;
    if k.custom.Some? { CustomsAreLocal(k, scope, ns, k.custom.value, b); }
  }

  lemma CustomsAreLocal(k: Cluster, scope: string, ns: string, kinds: seq<Listing<Workload>>, b: Binding)
    requires forall w: Workload :: Selected(w.meta, scope) && FromCustom(k, w, b) <==> Selected(w.meta, ns) && FromCustom(k, w, b)
    ensures InCustoms(k, scope, kinds, b) <==> InCustoms(k, ns, kinds, b)
  {
    hide Selected, FromCustom;
    assert forall items :: InCustom(k, scope, items, b) <==> InCustom(k, ns, items, b);
  }

  /** The references of one claim, on its own terms. */
  ghost predicate Refers(k: Cluster, namespace: string, name: string, reference: Reference)
    requires k.deployments.Items? && k.statefulSets.Items?
  {
    LeastInScope(k, namespace, Just(namespace, name), Binding(namespace, name, reference))
  }

  lemma UnnamedRefersNothing(k: Cluster, namespace: string, name: string)
    requires k.deployments.Items? && k.statefulSets.Items? && (namespace == "" || name == "")
    ensures forall r :: !Refers(k, namespace, name, r)
  {
    hide Collected;
  }

  lemma ScopeIsLocal(k: Cluster, scope: string, claims: Claims, b: Binding)
    requires k.deployments.Items? && k.statefulSets.Items?
    requires b.pvcNamespace != "" && b.pvcName != "" && (scope == "" || scope == b.pvcNamespace) && Wanted(claims, b.pvcNamespace, b.pvcName)
    ensures LeastInScope(k, scope, claims, b) <==> Refers(k, b.pvcNamespace, b.pvcName, b.reference)
  {
    var one := Just(b.pvcNamespace, b.pvcName);
    CollectedIsLocal(k, scope, claims, b);
    forall r | SameTarget(r, b) ensures InScope(k, scope, claims, r) <==> InScope(k, b.pvcNamespace, one, r) {
      CollectedIsLocal(k, scope, claims, r);
    }
    hide Collected, Less;
    assert b == Binding(b.pvcNamespace, b.pvcName, b.reference);
  }

  // A readable cluster is readable in each namespace.
  lemma DetectableLocally(k: Cluster, claims: Claims, namespace: string, name: string)
    requires Detectable(k, "", claims) && claims != map[]
    ensures Detectable(k, namespace, Just(namespace, name))
  {
    hide DeclaredBindings, SourceOf;
  }

  // ----- the index by claim -----

  function RefsFor(bindings: seq<Binding>, key: PvcKey): seq<Reference> {
    if bindings == [] then []
    else
      var before, last := RefsFor(bindings[..|bindings| - 1], key), bindings[|bindings| - 1];
      if (last.pvcNamespace, last.pvcName) == key then before + [last.reference] else before
  }

  lemma {:induction false} RefsForMeans(bindings: seq<Binding>, key: PvcKey)
    ensures forall r :: r in RefsFor(bindings, key) <==> Binding(key.0, key.1, r) in bindings
  {
    if bindings != [] {
      RefsForMeans(bindings[..|bindings| - 1], key);
      assert forall b :: b in bindings <==> b in bindings[..|bindings| - 1] || b == bindings[|bindings| - 1];
    }
  }

  /** The references of one claim in the order of their sort keys. */
  ghost predicate InOrder(key: PvcKey, references: seq<Reference>) {
    forall i, j :: 0 <= i < j < |references| ==>
      !Less(SortKey(Binding(key.0, key.1, references[j])), SortKey(Binding(key.0, key.1, references[i])))
  }

  lemma {:induction false} RefsForInOrder(bindings: seq<Binding>, key: PvcKey)
    requires IsSorted(bindings)
    ensures InOrder(key, RefsFor(bindings, key))
  {
    hide SortKey, Less;
    if bindings != [] {
      var init, last := bindings[..|bindings| - 1], bindings[|bindings| - 1];
      RefsForInOrder(init, key);
      RefsForMeans(init, key);
      var before := RefsFor(init, key);
      forall i | 0 <= i < |before| ensures Binding(key.0, key.1, before[i]) in init { assert before[i] in before; }
    }
  }

  function At(index: map<PvcKey, seq<Reference>>, key: PvcKey): seq<Reference> { if key in index then index[key] else [] }

  method PvcReferenceIndex(bindings: seq<Binding>, allowed: Option<set<string>>) returns (index: map<PvcKey, seq<Reference>>)
    ensures forall key ::
      At(index, key) == if key.0 != "" && key.1 != "" && (allowed.None? || key.0 in allowed.value) then RefsFor(bindings, key) else []
  {
    index := map[];
    for i := 0 to |bindings|
      invariant forall key ::
        At(index, key) == if key.0 != "" && key.1 != "" && (allowed.None? || key.0 in allowed.value) then RefsFor(bindings[..i], key) else []
    {
      assert bindings[..i + 1][..i] == bindings[..i];
      var binding := bindings[i];
      if binding.pvcNamespace == "" || binding.pvcName == "" {
        continue;
      }
      if allowed.Some? && binding.pvcNamespace !in allowed.value {
        continue;
      }
      var key := (binding.pvcNamespace, binding.pvcName);
      index := index[key := At(index, key) + [binding.reference]];
    }
    assert bindings[..|bindings|] == bindings;
  }

  // ----- the three ways to ask -----

  lemma IndexIsRefers(k: Cluster, scope: string, claims: Claims, bindings: seq<Binding>, key: PvcKey)
    requires k.deployments.Items? && k.statefulSets.Items?
    requires key.0 != "" && key.1 != "" && (scope == "" || scope == key.0) && Wanted(claims, key.0, key.1)
    requires forall b :: b in bindings <==> LeastInScope(k, scope, claims, b)
    ensures forall r :: r in RefsFor(bindings, key) <==> Refers(k, key.0, key.1, r)
  {
    RefsForMeans(bindings, key);
    hide LeastInScope, RefsFor;
    forall r ensures r in RefsFor(bindings, key) <==> Refers(k, key.0, key.1, r) {
      ScopeIsLocal(k, scope, claims, Binding(key.0, key.1, r));
    }
  }

  lemma DetectableIsListed(k: Cluster, namespace: string, claims: Claims)
    requires Detectable(k, namespace, claims)
    ensures k.deployments.Items? && k.statefulSets.Items?
  {}

  /** Nothing in scope is about the claim. */
  ghost predicate Unreferenced(k: Cluster, scope: string, claims: Claims, key: PvcKey)
    requires k.deployments.Items? && k.statefulSets.Items?
  {
    forall b :: InScope(k, scope, claims, b) ==> (b.pvcNamespace, b.pvcName) != key
  }

  /** No namespace or name of a wanted claim holds a NUL. */
  ghost predicate NamesAreClean(claims: Claims) {
    forall namespace, name :: Wanted(claims, namespace, name) ==> '\0' !in namespace && '\0' !in name
  }

  // The references indexed under a claim are in scope, and there are none exactly when nothing in scope is about it.
  lemma IndexCoversScope(k: Cluster, scope: string, claims: Claims, bindings: seq<Binding>, key: PvcKey)
    requires k.deployments.Items? && k.statefulSets.Items? && CoversScope(k, scope, claims, bindings)
    requires NamesAreClean(claims) || forall namespace, name :: Wanted(claims, namespace, name) ==> (namespace, name) == key
    ensures forall r :: r in RefsFor(bindings, key) ==> InScope(k, scope, claims, Binding(key.0, key.1, r))
    ensures RefsFor(bindings, key) == [] <==> Unreferenced(k, scope, claims, key)
  {
    RefsForMeans(bindings, key);
    hide RefsFor, Collected, DedupeKey;
    if RefsFor(bindings, key) != [] {
      assert RefsFor(bindings, key)[0] in RefsFor(bindings, key);
      assert InScope(k, scope, claims, Binding(key.0, key.1, RefsFor(bindings, key)[0]));
    }
    if b :| InScope(k, scope, claims, b) && (b.pvcNamespace, b.pvcName) == key {
      var i :| 0 <= i < |bindings| && DedupeKey(bindings[i]) == DedupeKey(b);
      assert InScope(k, scope, claims, bindings[i]);
      if NamesAreClean(claims) { KeyDeterminesClaim(bindings[i], b); }
      assert Binding(key.0, key.1, bindings[i].reference) in bindings;
    }
  }

  // Only wanted claims that are in scope of the index come with a restriction to them.
  lemma IndexOfAllCoversScope(k: Cluster, scope: string, claims: Claims, bindings: seq<Binding>)
    requires k.deployments.Items? && k.statefulSets.Items? && CoversScope(k, scope, claims, bindings)
    ensures forall key, r :: r in RefsFor(bindings, key) ==> InScope(k, scope, claims, Binding(key.0, key.1, r))
    ensures NamesAreClean(claims) ==> forall key :: RefsFor(bindings, key) == [] <==> Unreferenced(k, scope, claims, key)
  {
    forall key, r | r in RefsFor(bindings, key) ensures InScope(k, scope, claims, Binding(key.0, key.1, r)) {
      RefsForMeans(bindings, key);
    }
    if NamesAreClean(claims) {
      forall key ensures RefsFor(bindings, key) == [] <==> Unreferenced(k, scope, claims, key) {
        IndexCoversScope(k, scope, claims, bindings, key);
      }
    }
  }

  lemma NothingInOrder(key: PvcKey)
    ensures InOrder(key, [])
  {}

  /** The delete guard: the references of one claim, or the error that keeps them from being known. */
  method DetectPVCReferences(k: Cluster, namespace: string, name: string) returns (result: Result<seq<Reference>, ReferenceError>)
    ensures result.Success? <==> Detectable(k, namespace, Just(namespace, name))
    ensures result.Success? ==>
      && (forall r :: r in result.value ==> InScope(k, namespace, Just(namespace, name), Binding(namespace, name, r)))
      && (result.value == [] <==> forall b :: !InScope(k, namespace, Just(namespace, name), b))
      && InOrder((namespace, name), result.value)
    ensures result.Success? && CleanScope(k, namespace, Just(namespace, name)) ==>
      forall r :: r in result.value <==> Refers(k, namespace, name, r)
  {
    hide Detectable, CleanScope, CoversScope, LeastInScope, Refers, RefsFor, OnePerTarget, At, Collected, IsSorted, InOrder;
    var claims := Just(namespace, name);
    var bindings := ListPVCReferences(k, namespace, claims);
    if bindings.Failure? {
      return Failure(bindings.error);
    }
    var index := PvcReferenceIndex(bindings.value, None);
    DetectableIsListed(k, namespace, claims);
    IndexCoversScope(k, namespace, claims, bindings.value, (namespace, name));
    RefsForInOrder(bindings.value, (namespace, name));
    NothingInOrder((namespace, name));
    if namespace == "" || name == "" {
      UnnamedRefersNothing(k, namespace, name);
    } else if CleanScope(k, namespace, claims) {
      IndexIsRefers(k, namespace, claims, bindings.value, (namespace, name));
    }
    return Success(At(index, (namespace, name)));
  }

  lemma NothingAt()
    ensures forall key: PvcKey :: At(map[], key) == []
  {}

  /** The listing of one namespace (none means all): no references at all when they cannot be known. */
  method ListReferences(k: Cluster, namespace: string, pvcs: seq<PvcKey>)
    returns (index: map<PvcKey, seq<Reference>>)
    ensures !Detectable(k, namespace, ClaimsOf(pvcs)) ==> index == map[]
    ensures Detectable(k, namespace, ClaimsOf(pvcs)) ==>
      && (forall key: PvcKey, r :: r in At(index, key) ==> InScope(k, namespace, ClaimsOf(pvcs), Binding(key.0, key.1, r)))
      && (NamesAreClean(ClaimsOf(pvcs)) ==>
          forall key: PvcKey :: key.0 != "" && key.1 != "" ==>
            (At(index, key) == [] <==> Unreferenced(k, namespace, ClaimsOf(pvcs), key)))
    ensures Detectable(k, namespace, ClaimsOf(pvcs)) && CleanScope(k, namespace, ClaimsOf(pvcs)) ==>
      forall key :: key in pvcs && (namespace == "" || key.0 == namespace) && key.0 != "" && key.1 != "" ==>
        forall r :: r in At(index, key) <==> Refers(k, key.0, key.1, r)
  {
    hide Detectable, CleanScope, LeastInScope, Refers, RefsFor, OnePerTarget, At, ClaimsOf, CoversScope, InScope, NamesAreClean, Unreferenced;
    var claims := ClaimsByNamespace(pvcs);
    ClaimsOfMeans(pvcs);
    var bindings := ListPVCReferences(k, namespace, claims);
    if bindings.Failure? {
      return map[];
    }
    index := PvcReferenceIndex(bindings.value, None);
    DetectableIsListed(k, namespace, claims);
    IndexOfAllCoversScope(k, namespace, claims, bindings.value);
    if CleanScope(k, namespace, claims) {
      forall key | key in pvcs && (namespace == "" || key.0 == namespace) && key.0 != "" && key.1 != ""
        ensures forall r :: r in At(index, key) <==> Refers(k, key.0, key.1, r)
      {
        assert Wanted(claims, key.0, key.1);
        IndexIsRefers(k, namespace, claims, bindings.value, key);
      }
    }
  }

  /** The listing across the allowed namespaces, from one cluster-wide collection. */
  method ListReferencesInNamespaces(k: Cluster, allowed: set<string>, pvcs: seq<PvcKey>)
    returns (index: map<PvcKey, seq<Reference>>)
    ensures !Detectable(k, "", ClaimsOf(pvcs)) ==> index == map[]
    ensures forall key: PvcKey :: key.0 !in allowed ==> At(index, key) == []
    ensures Detectable(k, "", ClaimsOf(pvcs)) ==>
      && (forall key: PvcKey, r :: r in At(index, key) ==> InScope(k, "", ClaimsOf(pvcs), Binding(key.0, key.1, r)))
      && (NamesAreClean(ClaimsOf(pvcs)) ==>
          forall key: PvcKey :: key.0 in allowed && key.0 != "" && key.1 != "" ==>
            (At(index, key) == [] <==> Unreferenced(k, "", ClaimsOf(pvcs), key)))
    ensures Detectable(k, "", ClaimsOf(pvcs)) && CleanScope(k, "", ClaimsOf(pvcs)) ==>
      forall key :: key in pvcs && key.0 in allowed && key.0 != "" && key.1 != "" ==>
        forall r :: r in At(index, key) <==> Refers(k, key.0, key.1, r)
  {
    hide Detectable, CleanScope, LeastInScope, Refers, RefsFor, OnePerTarget, At, ClaimsOf, CoversScope, InScope, NamesAreClean, Unreferenced;
    var claims := ClaimsByNamespace(pvcs);
    ClaimsOfMeans(pvcs);
    var bindings := ListPVCReferences(k, "", claims);
    if bindings.Failure? {
      index := map[];
      assert forall key: PvcKey :: At(index, key) == [] by { NothingAt(); }
      return;
    }
    index := PvcReferenceIndex(bindings.value, Some(allowed));
    DetectableIsListed(k, "", claims);
    IndexOfAllCoversScope(k, "", claims, bindings.value);
    if CleanScope(k, "", claims) {
      forall key | key in pvcs && key.0 in allowed && key.0 != "" && key.1 != ""
        ensures forall r :: r in At(index, key) <==> Refers(k, key.0, key.1, r)
      {
        assert Wanted(claims, key.0, key.1);
        IndexIsRefers(k, "", claims, bindings.value, key);
      }
    }
  }

  /**
   * On a snapshot whose sources can all be read, detection commutes with restriction: for a claim
   * asked for, the guard, the namespace listing and the cluster-wide listing see the same bindings.
   */
  lemma DetectionCommutesWithRestriction(k: Cluster, all: Claims, local: Claims, b: Binding)
    requires Detectable(k, "", all) && b.pvcNamespace != "" && b.pvcName != ""
    requires Wanted(all, b.pvcNamespace, b.pvcName) && Wanted(local, b.pvcNamespace, b.pvcName)
    ensures Detectable(k, b.pvcNamespace, Just(b.pvcNamespace, b.pvcName)) && Detectable(k, b.pvcNamespace, local)
    ensures LeastInScope(k, "", all, b) <==> LeastInScope(k, b.pvcNamespace, local, b)
    ensures LeastInScope(k, "", all, b) <==> LeastInScope(k, b.pvcNamespace, Just(b.pvcNamespace, b.pvcName), b)
  {
    DetectableIsListed(k, "", all);
    hide LeastInScope, AllReadable, CustomReadable;
    DetectableLocally(k, all, b.pvcNamespace, b.pvcName);
    assert local != map[];
    ScopeIsLocal(k, "", all, b);
    ScopeIsLocal(k, b.pvcNamespace, local, b);
    assert b == Binding(b.pvcNamespace, b.pvcName, b.reference);
  }
}
