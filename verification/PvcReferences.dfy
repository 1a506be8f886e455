/**
 * Detection of the workloads that refer to persistent volume claims: collect from workloads,
 * custom resources and backup repositories, keep the claims asked for, sort, and keep one
 * binding per target. Partner of the pipeline is the set of least-evidence bindings per target.
 */
module PvcReferences {
  import opened Results
  import opened GoText
  import DecimalText

  const SOURCE_LABEL := "storage.sealos.io/pvc-reference-source"
  const SOURCE_TYPE_LABEL := "storage.sealos.io/ref-source"
  const NAME_ANNOTATION := "storage.sealos.io/ref-name"
  const REFERENCES_ANNOTATION := "storage.sealos.io/pvc-references"
  const MOUNTED := "mounted"
  const OWNED := "owned"
  const EVIDENCE_ANNOTATION := "metadata-annotation"
  const EVIDENCE_WORKLOAD_VOLUME := "workload-volume"
  const EVIDENCE_STATEFUL_SET_CLAIM := "statefulset-volume-claim-template"
  const EVIDENCE_BACKUP_REPO := "backuprepo-status"

  // ----- the cluster snapshot -----

  datatype Meta = Meta(namespace: string, name: string, uid: string, labels: map<string, string>, annotations: map<string, string>)

  datatype Volume = Volume(name: string, claimName: Option<string>)

  datatype Mount = Mount(name: string, mountPath: string)

  /** Mounts of the init containers, then of the containers, then of the ephemeral ones. */
  datatype PodSpec = PodSpec(volumes: seq<Volume>, mounts: seq<Mount>)

  datatype Workload = Workload(meta: Meta, kind: string, spec: PodSpec, claimTemplates: seq<string>)

  /** backupPVCName is None when the field is not a string, and empty when it is missing. */
  datatype BackupRepo = BackupRepo(name: string, uid: string, backupPVCName: Option<string>)

  datatype Declared = Declared(
    name: string, claimName: string, claimNameSnake: string, namespace: string, relation: string,
    mountPath: string, mountPathSnake: string)

  /** What a list call answers. */
  datatype Listing<T> = NotFound | Unavailable | Items(items: seq<T>)

  /** custom is None without a dynamic client; parse is the JSON decoding of the references annotation. */
  datatype Cluster = Cluster(
    deployments: Listing<Workload>, statefulSets: Listing<Workload>, custom: Option<seq<Listing<Workload>>>,
    backupRepos: Listing<BackupRepo>, parse: string -> Option<seq<Declared>>)

  datatype Source = Source(
    sourceType: string, namespace: string, name: string, displayName: string, uid: string, annotations: map<string, string>)

  datatype Reference = Reference(
    sourceType: string, sourceNamespace: string, sourceName: string, sourceUID: string, relation: string,
    mountPath: string, evidence: string)

  datatype Binding = Binding(pvcNamespace: string, pvcName: string, reference: Reference)

  datatype ReferenceError = ListFailed | BadAnnotation | MissingName | BadBackupRepo

  /** Claim names by namespace. */
  type Claims = map<string, set<string>>

  predicate Wanted(claims: Claims, namespace: string, name: string) { namespace in claims && name in claims[namespace] }

  function Get(m: map<string, string>, key: string): string { if key in m then m[key] else "" }

  /** The label selector and the namespace of a list call, where no namespace means all. */
  predicate Selected(meta: Meta, namespace: string) {
    (namespace == "" || meta.namespace == namespace) && Get(meta.labels, SOURCE_LABEL) == "true"
  }

  function SourceOf(meta: Meta, kind: string, fallback: string): Source {
    var display := TrimSpace(Get(meta.annotations, NAME_ANNOTATION));
    Source(FirstNonEmpty([TrimSpace(Get(meta.labels, SOURCE_TYPE_LABEL)), if kind == "" then fallback else kind]),
           meta.namespace, meta.name, if display == "" then meta.name else display, meta.uid, meta.annotations)
  }

  function ReferenceTo(source: Source, relation: string, mountPath: string, evidence: string): Reference {
    Reference(source.sourceType, source.namespace, FirstNonEmpty([source.displayName, source.name]), source.uid,
              relation, mountPath, evidence)
  }

  // ----- what one source declares -----

  function DeclaredBinding(source: Source, item: Declared): Result<Option<Binding>, ReferenceError> {
    var name := FirstNonEmpty([TrimSpace(item.name), TrimSpace(item.claimName), TrimSpace(item.claimNameSnake)]);
    var namespace := if TrimSpace(item.namespace) == "" then source.namespace else TrimSpace(item.namespace);
    var relation := if TrimSpace(item.relation) == "" then MOUNTED else TrimSpace(item.relation);
    var mountPath := FirstNonEmpty([TrimSpace(item.mountPath), TrimSpace(item.mountPathSnake)]);
    if name == "" then Failure(MissingName)
    else if namespace != source.namespace then Success(None)
    else Success(Some(Binding(namespace, name, ReferenceTo(source, relation, mountPath, EVIDENCE_ANNOTATION))))
  }

  function BindAll(source: Source, items: seq<Declared>): Result<seq<Binding>, ReferenceError> {
    if items == [] then Success([])
    else
      var before :- BindAll(source, items[..|items| - 1]);
      var last :- DeclaredBinding(source, items[|items| - 1]);
      Success(if last.None? then before else before + [last.value])
  }

  /** The references a source declares in its annotation. */
  function DeclaredBindings(parse: string -> Option<seq<Declared>>, source: Source): Result<seq<Binding>, ReferenceError> {
    var body := TrimSpace(Get(source.annotations, REFERENCES_ANNOTATION));
    if body == "" then Success([])
    else match parse(body)
      case None => Failure(BadAnnotation)
      case Some(items) => BindAll(source, items)
  }

  lemma {:induction false} BindAllFails(source: Source, items: seq<Declared>, i: nat)
    requires i <= |items| && BindAll(source, items[..i]).Failure?
    ensures BindAll(source, items) == Failure(BindAll(source, items[..i]).error)
    decreases |items| - i
  {
    if i == |items| {
      assert items[..i] == items;
    } else {
      assert items[..i + 1][..i] == items[..i];
      BindAllFails(source, items, i + 1);
    }
  }

  method ReferencesFromSource(parse: string -> Option<seq<Declared>>, source: Source)
    returns (result: Result<seq<Binding>, ReferenceError>)
    ensures result == DeclaredBindings(parse, source)
  {
    hide TrimSpace, FirstNonEmpty, ReferenceTo, Get;
    var body := TrimSpace(Get(source.annotations, REFERENCES_ANNOTATION));
    if body == "" {
      return Success([]);
    }
    var declared := parse(body);
    if declared.None? {
      return Failure(BadAnnotation);
    }
    var items := declared.value;
    var references := [];
    for i := 0 to |items|
      invariant BindAll(source, items[..i]) == Success(references)
    {
      assert items[..i + 1][..i] == items[..i];
      var item := items[i];
      var name := FirstNonEmpty([TrimSpace(item.name), TrimSpace(item.claimName), TrimSpace(item.claimNameSnake)]);
      if name == "" {
        BindAllFails(source, items, i + 1);
        return Failure(MissingName);
      }
      var namespace := TrimSpace(item.namespace);
      if namespace == "" {
        namespace := source.namespace;
      }
      if namespace != source.namespace {
        continue;
      }
      var relation := TrimSpace(item.relation);
      if relation == "" {
        relation := MOUNTED;
      }
      var mountPath := FirstNonEmpty([TrimSpace(item.mountPath), TrimSpace(item.mountPathSnake)]);
      references := references + [Binding(namespace, name, ReferenceTo(source, relation, mountPath, EVIDENCE_ANNOTATION))];
    }
    assert items[..|items|] == items;
    return Success(references);
  }

  // ----- volumes and volume claim templates -----

  /** The first mount path given for a volume, or the empty string. */
  function MountPathOf(mounts: seq<Mount>, volume: string): string {
    if mounts == [] then ""
    else
      var before := MountPathOf(mounts[..|mounts| - 1], volume);
      var last := mounts[|mounts| - 1];
      if before == "" && last.name == volume && volume != "" then last.mountPath else before
  }

  method MountPathsByVolumeName(spec: PodSpec) returns (paths: map<string, string>)
    ensures forall volume :: Get(paths, volume) == MountPathOf(spec.mounts, volume)
  {
    paths := map[];
    for i := 0 to |spec.mounts|
      invariant forall volume :: Get(paths, volume) == MountPathOf(spec.mounts[..i], volume)
      invariant forall volume :: volume in paths ==> paths[volume] != ""
    {
      assert spec.mounts[..i + 1][..i] == spec.mounts[..i];
      var mount := spec.mounts[i];
      if mount.name == "" || mount.mountPath == "" {
        continue;
      }
      if mount.name !in paths {
        paths := paths[mount.name := mount.mountPath];
      }
    }
    assert spec.mounts[..|spec.mounts|] == spec.mounts;
  }

  function VolumeBindings(source: Source, volumes: seq<Volume>, mounts: seq<Mount>): seq<Binding> {
    if volumes == [] then []
    else
      var before, last := VolumeBindings(source, volumes[..|volumes| - 1], mounts), volumes[|volumes| - 1];
      if last.claimName.None? || TrimSpace(last.claimName.value) == "" then before
      else before + [Binding(source.namespace, TrimSpace(last.claimName.value),
                             ReferenceTo(source, MOUNTED, MountPathOf(mounts, last.name), EVIDENCE_WORKLOAD_VOLUME))]
  }

  method ReferencesFromPodSpec(source: Source, spec: PodSpec) returns (references: seq<Binding>)
    ensures references == VolumeBindings(source, spec.volumes, spec.mounts)
  {
    var mountPaths := MountPathsByVolumeName(spec);
    references := [];
    for i := 0 to |spec.volumes|
      invariant references == VolumeBindings(source, spec.volumes[..i], spec.mounts)
    {
      assert spec.volumes[..i + 1][..i] == spec.volumes[..i];
      var volume := spec.volumes[i];
      if volume.claimName.None? {
        continue;
      }
      var name := TrimSpace(volume.claimName.value);
      if name == "" {
        continue;
      }
      references := references + [Binding(source.namespace, name,
        ReferenceTo(source, MOUNTED, Get(mountPaths, volume.name), EVIDENCE_WORKLOAD_VOLUME))];
    }
    assert spec.volumes[..|spec.volumes|] == spec.volumes;
  }

  /** The claim is named after the template and the stateful set, followed by an ordinal. */
  predicate ClaimNameMatches(templateName: string, setName: string, claim: string) {
    var prefix := templateName + "-" + setName + "-";
    prefix <= claim && claim[|prefix|..] != "" && IsAtoi(claim[|prefix|..])
  }

  /** Claims made for a template match under every ordinal, and so do names with a signed number. */
  lemma OrdinalsMatch(templateName: string, setName: string, n: nat)
    requires n <= MAX_INT
    ensures ClaimNameMatches(templateName, setName, templateName + "-" + setName + "-" + DecimalText.NatToString(n))
    ensures ClaimNameMatches(templateName, setName, templateName + "-" + setName + "-" + ("-" + DecimalText.NatToString(n)))
  {
    DecimalText.NatToStringValue(n);
    var prefix, digits := templateName + "-" + setName + "-", DecimalText.NatToString(n);
    assert (prefix + digits)[..|prefix|] == prefix && (prefix + digits)[|prefix|..] == digits;
    assert (prefix + ("-" + digits))[..|prefix|] == prefix && (prefix + ("-" + digits))[|prefix|..] == "-" + digits;
    assert digits != "" && digits[0] != '-' && digits[0] != '+';
    assert ("-" + digits)[1..] == digits;
  }

  function ClaimBinding(source: Source, workload: Workload, templateName: string, claim: string): Binding {
    Binding(workload.meta.namespace, claim,
            ReferenceTo(source, OWNED, MountPathOf(workload.spec.mounts, templateName), EVIDENCE_STATEFUL_SET_CLAIM))
  }

  /** Some template of the stateful set makes the binding, for a claim that is wanted. */
  ghost predicate OwnsClaim(source: Source, workload: Workload, claims: Claims, b: Binding) {
    Wanted(claims, workload.meta.namespace, b.pvcName) && exists i :: 0 <= i < |workload.claimTemplates| && FromTemplate(source, workload, i, b)
  }

  predicate FromTemplate(source: Source, workload: Workload, i: nat, b: Binding)
    requires i < |workload.claimTemplates|
  {
    var name := TrimSpace(workload.claimTemplates[i]);
    name != "" && ClaimNameMatches(name, workload.meta.name, b.pvcName) && b == ClaimBinding(source, workload, name, b.pvcName)
  }

  method ReferencesFromStatefulSetClaims(source: Source, workload: Workload, claims: Claims) returns (references: seq<Binding>)
    ensures forall b :: b in references <==> OwnsClaim(source, workload, claims, b)
  {
    hide ClaimNameMatches, TrimSpace, MountPathOf;
    var namespace := workload.meta.namespace;
    if namespace !in claims || claims[namespace] == {} || workload.claimTemplates == [] {
      return [];
    }
    var mountPaths := MountPathsByVolumeName(workload.spec);
    references := [];
    for i := 0 to |workload.claimTemplates|
      invariant forall b :: b in references <==>
        b.pvcName in claims[namespace] && exists j :: 0 <= j < i && FromTemplate(source, workload, j, b)
    {
      var templateName := TrimSpace(workload.claimTemplates[i]);
      if templateName == "" {
        continue;
      }
      ghost var before := references;
      var pending := claims[namespace];
      while pending != {}
        invariant pending <= claims[namespace]
        invariant forall b :: b in references <==>
          (b in before || (b.pvcName in claims[namespace] - pending && FromTemplate(source, workload, i, b)))
        decreases pending
      {
        var claim :| claim in pending;
        pending := pending - {claim};
        if !ClaimNameMatches(templateName, workload.meta.name, claim) {
          continue;
        }
        references := references + [Binding(namespace, claim,
          ReferenceTo(source, OWNED, Get(mountPaths, templateName), EVIDENCE_STATEFUL_SET_CLAIM))];
      }
    }
  }

  // ----- collecting from the cluster -----

  predicate Readable(k: Cluster, namespace: string, workload: Workload, fallback: string) {
    Selected(workload.meta, namespace) ==> DeclaredBindings(k.parse, SourceOf(workload.meta, workload.kind, fallback)).Success?
  }

  ghost predicate AllReadable(k: Cluster, namespace: string, list: Listing<Workload>, fallback: string) {
    list.Items? && forall i :: 0 <= i < |list.items| ==> Readable(k, namespace, list.items[i], fallback)
  }

  /** Declared in the annotation. */
  predicate DeclaredBy(k: Cluster, source: Source, b: Binding) {
    var declared := DeclaredBindings(k.parse, source);
    declared.Success? && b in declared.value
  }

  predicate FromDeployment(k: Cluster, w: Workload, b: Binding) {
    var source := SourceOf(w.meta, w.kind, "Deployment");
    DeclaredBy(k, source, b) || b in VolumeBindings(source, w.spec.volumes, w.spec.mounts)
  }

  ghost predicate FromStatefulSet(k: Cluster, w: Workload, claims: Claims, b: Binding) {
    var source := SourceOf(w.meta, w.kind, "StatefulSet");
    || DeclaredBy(k, source, b) || b in VolumeBindings(source, w.spec.volumes, w.spec.mounts)
    || OwnsClaim(source, w, claims, b)
  }

  predicate FromCustom(k: Cluster, w: Workload, b: Binding) { DeclaredBy(k, SourceOf(w.meta, w.kind, w.kind), b) }

  function RepoSource(repo: BackupRepo): Source { Source("BackupRepo", "", repo.name, "", repo.uid, map[]) }

  predicate FromRepo(repo: BackupRepo, claims: Claims, b: Binding) {
    && repo.backupPVCName.Some? && repo.backupPVCName.value != "" && b.pvcName == repo.backupPVCName.value
    && Wanted(claims, b.pvcNamespace, b.pvcName)
    && b.reference == ReferenceTo(RepoSource(repo), OWNED, "", EVIDENCE_BACKUP_REPO)
  }

  ghost predicate InDeployments(k: Cluster, namespace: string, items: seq<Workload>, b: Binding) {
    exists i :: 0 <= i < |items| && Selected(items[i].meta, namespace) && FromDeployment(k, items[i], b)
  }

  ghost predicate InStatefulSets(k: Cluster, namespace: string, claims: Claims, items: seq<Workload>, b: Binding) {
    exists i :: 0 <= i < |items| && Selected(items[i].meta, namespace) && FromStatefulSet(k, items[i], claims, b)
  }

  ghost predicate InCustom(k: Cluster, namespace: string, items: seq<Workload>, b: Binding) {
    exists i :: 0 <= i < |items| && Selected(items[i].meta, namespace) && FromCustom(k, items[i], b)
  }

  ghost predicate InRepos(claims: Claims, repos: seq<BackupRepo>, b: Binding) {
    exists i :: 0 <= i < |repos| && FromRepo(repos[i], claims, b)
  }

  method ListDeployments(k: Cluster, namespace: string) returns (result: Result<seq<Binding>, ReferenceError>)
    ensures result.Success? <==> AllReadable(k, namespace, k.deployments, "Deployment")
    ensures result.Success? ==> forall b :: b in result.value <==> InDeployments(k, namespace, k.deployments.items, b)
  {
    hide DeclaredBindings, VolumeBindings, SourceOf, Selected;
    if !k.deployments.Items? {
      return Failure(ListFailed);
    }
    var items := k.deployments.items;
    var references := [];
    for i := 0 to |items|
      invariant forall j :: 0 <= j < i ==> Readable(k, namespace, items[j], "Deployment")
      invariant forall b :: b in references <==> InDeployments(k, namespace, items[..i], b)
    {
      MoreDeployments(k, namespace, items, i);
      if !Selected(items[i].meta, namespace) {
        continue;
      }
      var source := SourceOf(items[i].meta, items[i].kind, "Deployment");
      var refs := ReferencesFromSource(k.parse, source);
      if refs.Failure? {
        return Failure(refs.error);
      }
      var volumes := ReferencesFromPodSpec(source, items[i].spec);
      references := references + refs.value + volumes;
    }
    assert items[..|items|] == items;
    return Success(references);
  }

  method ListStatefulSets(k: Cluster, namespace: string, claims: Claims) returns (result: Result<seq<Binding>, ReferenceError>)
    ensures result.Success? <==> AllReadable(k, namespace, k.statefulSets, "StatefulSet")
    ensures result.Success? ==> forall b :: b in result.value <==> InStatefulSets(k, namespace, claims, k.statefulSets.items, b)
  {
    hide DeclaredBindings, VolumeBindings, SourceOf, Selected, OwnsClaim;
    if !k.statefulSets.Items? {
      return Failure(ListFailed);
    }
    var items := k.statefulSets.items;
    var references := [];
    for i := 0 to |items|
      invariant forall j :: 0 <= j < i ==> Readable(k, namespace, items[j], "StatefulSet")
      invariant forall b :: b in references <==> InStatefulSets(k, namespace, claims, items[..i], b)
    {
      MoreStatefulSets(k, namespace, claims, items, i);
      if !Selected(items[i].meta, namespace) {
        continue;
      }
      var source := SourceOf(items[i].meta, items[i].kind, "StatefulSet");
      var refs := ReferencesFromSource(k.parse, source);
      if refs.Failure? {
        return Failure(refs.error);
      }
      var volumes := ReferencesFromPodSpec(source, items[i].spec);
      var owned := ReferencesFromStatefulSetClaims(source, items[i], claims);
      references := references + refs.value + volumes + owned;
    }
    assert items[..|items|] == items;
    return Success(references);
  }

  method ListWorkloadReferences(k: Cluster, namespace: string, claims: Claims) returns (result: Result<seq<Binding>, ReferenceError>)
    ensures result.Success? <==>
      AllReadable(k, namespace, k.deployments, "Deployment") && AllReadable(k, namespace, k.statefulSets, "StatefulSet")
    ensures result.Success? ==> forall b :: b in result.value <==>
      (InDeployments(k, namespace, k.deployments.items, b) || InStatefulSets(k, namespace, claims, k.statefulSets.items, b))
  {
    hide InDeployments, InStatefulSets, AllReadable;
    var deployments := ListDeployments(k, namespace);
    if deployments.Failure? {
      return Failure(deployments.error);
    }
    var statefulSets := ListStatefulSets(k, namespace, claims);
    if statefulSets.Failure? {
      return Failure(statefulSets.error);
    }
    return Success(deployments.value + statefulSets.value);
  }

  ghost predicate CustomReadable(k: Cluster, namespace: string, list: Listing<Workload>) {
    match list
    case NotFound => true
    case Unavailable => false
    case Items(items) => forall i :: 0 <= i < |items| ==> Selected(items[i].meta, namespace) ==>
      DeclaredBindings(k.parse, SourceOf(items[i].meta, items[i].kind, items[i].kind)).Success?
  }

  method ListCustomKind(k: Cluster, namespace: string, items: seq<Workload>) returns (result: Result<seq<Binding>, ReferenceError>)
    ensures result.Success? <==> CustomReadable(k, namespace, Items(items))
    ensures result.Success? ==> forall b :: b in result.value <==> InCustom(k, namespace, items, b)
  {
    hide DeclaredBindings, SourceOf, Selected;
    var references := [];
    for i := 0 to |items|
      invariant CustomReadable(k, namespace, Items(items[..i]))
      invariant forall b :: b in references <==> InCustom(k, namespace, items[..i], b)
    {
      MoreCustom(k, namespace, items, i);
      if !Selected(items[i].meta, namespace) {
        continue;
      }
      var source := SourceOf(items[i].meta, items[i].kind, items[i].kind);
      var refs := ReferencesFromSource(k.parse, source);
      if refs.Failure? {
        return Failure(refs.error);
      }
      references := references + refs.value;
    }
    assert items[..|items|] == items;
    return Success(references);
  }

  ghost predicate InCustoms(k: Cluster, namespace: string, kinds: seq<Listing<Workload>>, b: Binding) {
    exists i :: 0 <= i < |kinds| && kinds[i].Items? && InCustom(k, namespace, kinds[i].items, b)
  }

  method ListCustomReferences(k: Cluster, namespace: string) returns (result: Result<seq<Binding>, ReferenceError>)
    ensures result.Success? <==> k.custom.None? || forall i :: 0 <= i < |k.custom.value| ==> CustomReadable(k, namespace, k.custom.value[i])
    ensures result.Success? ==> forall b :: b in result.value <==> (k.custom.Some? && InCustoms(k, namespace, k.custom.value, b))
  {
    hide CustomReadable, InCustom;
    if k.custom.None? {
      return Success([]);
    }
    var kinds := k.custom.value;
    var references := [];
    for i := 0 to |kinds|
      invariant forall j :: 0 <= j < i ==> CustomReadable(k, namespace, kinds[j])
      invariant forall b :: b in references <==> InCustoms(k, namespace, kinds[..i], b)
    {
      MoreCustoms(k, namespace, kinds, i);
      MissingKind(k, namespace, kinds[i]);
      if kinds[i].NotFound? {
        continue;
      }
      if kinds[i].Unavailable? {
        return Failure(ListFailed);
      }
      var refs := ListCustomKind(k, namespace, kinds[i].items);
      if refs.Failure? {
        return Failure(refs.error);
      }
      references := references + refs.value;
    }
    assert kinds[..|kinds|] == kinds;
    return Success(references);
  }

  predicate ReposReadable(k: Cluster, claims: Claims) {
    k.custom.None? || claims == map[] || k.backupRepos.NotFound?
    || (k.backupRepos.Items? && forall i :: 0 <= i < |k.backupRepos.items| ==> k.backupRepos.items[i].backupPVCName.Some?)
  }

  predicate ReposListed(k: Cluster) { k.custom.Some? && k.backupRepos.Items? }

  method ListBackupRepoReferences(k: Cluster, claims: Claims) returns (result: Result<seq<Binding>, ReferenceError>)
    ensures result.Success? <==> ReposReadable(k, claims)
    ensures result.Success? ==> forall b :: b in result.value <==> (ReposListed(k) && InRepos(claims, k.backupRepos.items, b))
  {
    if k.custom.None? || claims == map[] || k.backupRepos.NotFound? {
      return Success([]);
    }
    if k.backupRepos.Unavailable? {
      return Failure(ListFailed);
    }
    hide ReferenceTo;
    var repos := k.backupRepos.items;
    var references := [];
    for i := 0 to |repos|
      invariant forall j :: 0 <= j < i ==> repos[j].backupPVCName.Some?
      invariant forall b :: b in references <==> InRepos(claims, repos[..i], b)
    {
      MoreRepos(claims, repos, i);
      if repos[i].backupPVCName.None? {
        return Failure(BadBackupRepo);
      }
      var claimName := repos[i].backupPVCName.value;
      if claimName == "" {
        continue;
      }
      ghost var before := references;
      var pending := claims.Keys;
      while pending != {}
        invariant pending <= claims.Keys
        invariant forall b :: b in references <==> (b in before || (b.pvcNamespace !in pending && FromRepo(repos[i], claims, b)))
        decreases pending
      {
        var namespace :| namespace in pending;
        pending := pending - {namespace};
        if claimName !in claims[namespace] {
          continue;
        }
        references := references + [Binding(namespace, claimName, ReferenceTo(RepoSource(repos[i]), OWNED, "", EVIDENCE_BACKUP_REPO))];
      }
    }
    assert repos[..|repos|] == repos;
    return Success(references);
  }

  // One more item of each list.
  lemma MoreDeployments(k: Cluster, namespace: string, items: seq<Workload>, i: nat)
    requires i < |items|
    ensures forall b :: InDeployments(k, namespace, items[..i + 1], b) <==>
      InDeployments(k, namespace, items[..i], b) || (Selected(items[i].meta, namespace) && FromDeployment(k, items[i], b))
  {
    hide Selected, FromDeployment;
    assert forall j :: 0 <= j <= i ==> items[..i + 1][j] == items[j];
    assert forall j :: 0 <= j < i ==> items[..i][j] == items[..i + 1][j];
  }

  lemma MoreStatefulSets(k: Cluster, namespace: string, claims: Claims, items: seq<Workload>, i: nat)
    requires i < |items|
    ensures forall b :: InStatefulSets(k, namespace, claims, items[..i + 1], b) <==>
      InStatefulSets(k, namespace, claims, items[..i], b) || (Selected(items[i].meta, namespace) && FromStatefulSet(k, items[i], claims, b))
  {
    hide Selected, FromStatefulSet;
    assert forall j :: 0 <= j <= i ==> items[..i + 1][j] == items[j];
    assert forall j :: 0 <= j < i ==> items[..i][j] == items[..i + 1][j];
  }

  lemma MoreCustom(k: Cluster, namespace: string, items: seq<Workload>, i: nat)
    requires i < |items|
    ensures forall b :: InCustom(k, namespace, items[..i + 1], b) <==>
      InCustom(k, namespace, items[..i], b) || (Selected(items[i].meta, namespace) && FromCustom(k, items[i], b))
  {
    hide Selected, FromCustom;
    assert forall j :: 0 <= j <= i ==> items[..i + 1][j] == items[j];
    assert forall j :: 0 <= j < i ==> items[..i][j] == items[..i + 1][j];
  }

  lemma MoreCustoms(k: Cluster, namespace: string, kinds: seq<Listing<Workload>>, i: nat)
    requires i < |kinds|
    ensures forall b :: InCustoms(k, namespace, kinds[..i + 1], b) <==>
      InCustoms(k, namespace, kinds[..i], b) || (kinds[i].Items? && InCustom(k, namespace, kinds[i].items, b))
  {
    hide InCustom;
    assert forall j :: 0 <= j <= i ==> kinds[..i + 1][j] == kinds[j];
    assert forall j :: 0 <= j < i ==> kinds[..i][j] == kinds[..i + 1][j];
  }

  lemma MissingKind(k: Cluster, namespace: string, kind: Listing<Workload>)
    ensures kind.NotFound? ==> CustomReadable(k, namespace, kind)
    ensures kind.Unavailable? ==> !CustomReadable(k, namespace, kind)
  {}

  lemma MoreRepos(claims: Claims, repos: seq<BackupRepo>, i: nat)
    requires i < |repos|
    ensures forall b :: InRepos(claims, repos[..i + 1], b) <==> InRepos(claims, repos[..i], b) || FromRepo(repos[i], claims, b)
  {
    hide FromRepo;
    assert forall j :: 0 <= j <= i ==> repos[..i + 1][j] == repos[j];
    assert forall j :: 0 <= j < i ==> repos[..i][j] == repos[..i + 1][j];
  }
}
