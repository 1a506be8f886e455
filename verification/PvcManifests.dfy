/**
 * Who refers to a claim, read off the manifests themselves: their labels, annotations, volumes, mounts and
 * claim templates. What detection finds in scope of one claim is proved to be exactly that.
 */
module PvcManifests {
  import opened Results
  import opened GoText
  import opened DecimalText
  import opened PvcReferences
  import opened PvcDedupe
  import opened PvcGuard

  // ----- texts -----

  /** White space up to one position and from the other, and none at the two ends of what is between. */
  predicate Spans(text: string, i: nat, j: nat) {
    && i <= j <= |text|
    && (forall h :: 0 <= h < i ==> IsSpace(text[h])) && (forall h :: j <= h < |text| ==> IsSpace(text[h]))
    && (i < j ==> !IsSpace(text[i]) && !IsSpace(text[j - 1]))
  }

  lemma {:induction false} TrimEnds(text: string) returns (i: nat, j: nat)
    ensures Spans(text, i, j) && text[i..j] == TrimSpace(text)
    decreases |text|
  {
    hide IsSpace;
    i, j := 0, |text|;
    if text != "" && IsSpace(text[0]) {
      i, j := TrimEnds(text[1..]);
      i, j := i + 1, j + 1;
    } else if text != "" && IsSpace(text[|text| - 1]) {
      i, j := TrimEnds(text[..|text| - 1]);
    }
  }

  lemma SpansAreUnique(text: string, i: nat, j: nat, k: nat, l: nat)
    requires Spans(text, i, j) && Spans(text, k, l)
    ensures text[i..j] == text[k..l]
  {
    hide IsSpace;
    if i < j {
      assert k <= i < l && k < j <= l;
    }
  }

  /** Trimming takes off exactly the white space at both ends. */
  lemma TrimSpaceExactly(text: string, trimmed: string)
    ensures TrimSpace(text) == trimmed <==> exists i: nat, j: nat :: Spans(text, i, j) && text[i..j] == trimmed
  {
    var i, j := TrimEnds(text);
    hide TrimSpace, IsSpace;
    if k: nat, l: nat :| Spans(text, k, l) && text[k..l] == trimmed { SpansAreUnique(text, i, j, k, l); }
  }

  /** The white space of Unicode. */
  lemma SpacesAre(c: char)
    ensures IsSpace(c) <==>
      c in "\t\n\U{B}\U{C}\r \U{85}\U{A0}\U{1680}\U{2000}\U{2001}\U{2002}\U{2003}\U{2004}\U{2005}\U{2006}\U{2007}\U{2008}\U{2009}\U{200A}"
      || c in "\U{2028}\U{2029}\U{202F}\U{205F}\U{3000}"
  {
    var s := "\t\n\U{B}\U{C}\r \U{85}\U{A0}\U{1680}\U{2000}\U{2001}\U{2002}\U{2003}\U{2004}\U{2005}\U{2006}\U{2007}\U{2008}\U{2009}\U{200A}";
    var t := "\U{2028}\U{2029}\U{202F}\U{205F}\U{3000}";
    assert s[0] == '\t' && s[1] == '\n' && s[2] == '\U{B}' && s[3] == '\U{C}' && s[4] == '\r' && s[5] == ' ' && s[6] == '\U{85}';
    assert s[7] == '\U{A0}' && s[8] == '\U{1680}' && s[9] == '\U{2000}' && s[10] == '\U{2001}' && s[11] == '\U{2002}';
    assert s[12] == '\U{2003}' && s[13] == '\U{2004}' && s[14] == '\U{2005}' && s[15] == '\U{2006}' && s[16] == '\U{2007}';
    assert s[17] == '\U{2008}' && s[18] == '\U{2009}' && s[19] == '\U{200A}';
    assert t[0] == '\U{2028}' && t[1] == '\U{2029}' && t[2] == '\U{202F}' && t[3] == '\U{205F}' && t[4] == '\U{3000}';
  }

  predicate IsIntText(sign: string, digits: string) {
    && (sign == "" || sign == "+" || sign == "-") && digits != ""
    && (forall i :: 0 <= i < |digits| ==> '0' <= digits[i] <= '9')
    && DigitsValue(digits) <= (if sign == "-" then 9223372036854775808 else 9223372036854775807)
  }

  /** What is read as a number: digits, perhaps after a sign, of a value that fits 64 bits. */
  lemma AtoiMeans(s: string)
    ensures IsAtoi(s) <==>
      exists sign, digits :: s == sign + digits && IsIntText(sign, digits)
  {
    if IsAtoi(s) { var sign, digits := CutInt(s); }
    if sign, digits :| s == sign + digits && IsIntText(sign, digits) { IntIsAtoi(sign, digits); }
    hide IsAtoi, IsIntText;
  }

  lemma CutInt(s: string) returns (sign: string, digits: string)
    requires IsAtoi(s)
    ensures s == sign + digits && IsIntText(sign, digits)
  {
    hide DigitsValue;
    if s[0] == '-' || s[0] == '+' {
      sign, digits := [s[0]], s[1..];
    } else {
      sign, digits := "", s;
    }
  }

  lemma IntIsAtoi(sign: string, digits: string)
    requires IsIntText(sign, digits)
    ensures IsAtoi(sign + digits)
  {
    hide DigitsValue;
    var s := sign + digits;
    if sign == "" {
      assert s == digits && s[0] == digits[0];
    } else {
      assert s[0] == sign[0] && s[1..] == digits;
    }
  }

  /** The texts are the same up to n, where the first ends or has the smaller character. */
  predicate LessFrom(a: string, b: string, n: nat) {
    n <= |a| && n < |b| && (forall i :: 0 <= i < n ==> a[i] == b[i]) && (n == |a| || a[n] < b[n])
  }

  /** Texts are ordered by their first difference, a proper prefix first. */
  lemma LessMeans(a: string, b: string)
    ensures Less(a, b) <==> exists n: nat :: LessFrom(a, b, n)
  {
    hide Less, LessFrom;
    if Less(a, b) { var n := FirstDifference(a, b); }
    if n: nat :| LessFrom(a, b, n) { DifferenceDecides(a, b, n); }
  }

  lemma {:induction false} FirstDifference(a: string, b: string) returns (n: nat)
    requires Less(a, b)
    ensures LessFrom(a, b, n)
  {
    if a == "" || a[0] < b[0] {
      n := 0;
    } else {
      n := FirstDifference(a[1..], b[1..]);
      n := n + 1;
    }
  }

  lemma {:induction false} DifferenceDecides(a: string, b: string, n: nat)
    requires LessFrom(a, b, n)
    ensures Less(a, b)
    decreases n
  {
    if n > 0 { DifferenceDecides(a[1..], b[1..], n - 1); }
  }

  // ----- who refers to a claim -----

  /** The value under a key, trimmed, and empty when there is none. */
  function TextAt(m: map<string, string>, key: string): string { if key in m then TrimSpace(m[key]) else "" }

  predicate IsSource(meta: Meta) {
    "storage.sealos.io/pvc-reference-source" in meta.labels && meta.labels["storage.sealos.io/pvc-reference-source"] == "true"
  }

  /** The reference names the source: by its label or else its kind, and by its annotation or else its name. */
  predicate NamesSource(meta: Meta, kind: string, fallback: string, r: Reference) {
    var given, display := TextAt(meta.labels, "storage.sealos.io/ref-source"), TextAt(meta.annotations, "storage.sealos.io/ref-name");
    && r.sourceType == (if given != "" then given else if kind != "" then kind else fallback)
    && r.sourceName == (if display != "" then display else meta.name)
    && r.sourceNamespace == meta.namespace && r.sourceUID == meta.uid
  }

  /** The path of the first mount of the volume that has one, or the empty path. */
  ghost predicate MountedAt(mounts: seq<Mount>, volume: string, path: string) {
    if path == "" then volume == "" || forall i :: 0 <= i < |mounts| && mounts[i].name == volume ==> mounts[i].mountPath == ""
    else
      && volume != ""
      && exists i :: 0 <= i < |mounts| && mounts[i].name == volume && mounts[i].mountPath == path
           && forall h :: 0 <= h < i && mounts[h].name == volume ==> mounts[h].mountPath == ""
  }

  /** A volume of the pod template is the claim. */
  ghost predicate MountsClaim(spec: PodSpec, name: string, r: Reference) {
    && r.relation == "mounted" && r.evidence == "workload-volume"
    && exists i :: 0 <= i < |spec.volumes| && spec.volumes[i].claimName.Some? && TrimSpace(spec.volumes[i].claimName.value) == name
         && MountedAt(spec.mounts, spec.volumes[i].name, r.mountPath)
  }

  predicate ItemNames(item: Declared, name: string) {
    var first, second, third := TrimSpace(item.name), TrimSpace(item.claimName), TrimSpace(item.claimNameSnake);
    name == if first != "" then first else if second != "" then second else third
  }

  predicate ItemDeclares(item: Declared, namespace: string, name: string, r: Reference) {
    && ItemNames(item, name) && r.evidence == "metadata-annotation"
    && (TrimSpace(item.namespace) == "" || TrimSpace(item.namespace) == namespace)
    && r.relation == (if TrimSpace(item.relation) == "" then "mounted" else TrimSpace(item.relation))
    && r.mountPath == (if TrimSpace(item.mountPath) != "" then TrimSpace(item.mountPath) else TrimSpace(item.mountPathSnake))
  }

  /** An item of the references annotation is the claim. */
  ghost predicate DeclaresClaim(k: Cluster, meta: Meta, name: string, r: Reference) {
    var body := TextAt(meta.annotations, "storage.sealos.io/pvc-references");
    && body != "" && k.parse(body).Some?
    && exists i :: 0 <= i < |k.parse(body).value| && ItemDeclares(k.parse(body).value[i], meta.namespace, name, r)
  }

  /** The claim is one of those made for a template of the stateful set. */
  ghost predicate OwnsClaimOf(w: Workload, name: string, r: Reference) {
    && r.relation == "owned" && r.evidence == "statefulset-volume-claim-template"
    && exists i, ordinal :: 0 <= i < |w.claimTemplates| && TrimSpace(w.claimTemplates[i]) != "" && IsAtoi(ordinal)
         && name == TrimSpace(w.claimTemplates[i]) + "-" + w.meta.name + "-" + ordinal
         && MountedAt(w.spec.mounts, TrimSpace(w.claimTemplates[i]), r.mountPath)
  }

  ghost predicate DeploymentRefers(k: Cluster, w: Workload, namespace: string, name: string, r: Reference) {
    && IsSource(w.meta) && w.meta.namespace == namespace && NamesSource(w.meta, w.kind, "Deployment", r)
    && (DeclaresClaim(k, w.meta, name, r) || MountsClaim(w.spec, name, r))
  }

  ghost predicate StatefulSetRefers(k: Cluster, w: Workload, namespace: string, name: string, r: Reference) {
    && IsSource(w.meta) && w.meta.namespace == namespace && NamesSource(w.meta, w.kind, "StatefulSet", r)
    && (DeclaresClaim(k, w.meta, name, r) || MountsClaim(w.spec, name, r) || OwnsClaimOf(w, name, r))
  }

  ghost predicate CustomRefers(k: Cluster, w: Workload, namespace: string, name: string, r: Reference) {
    IsSource(w.meta) && w.meta.namespace == namespace && NamesSource(w.meta, w.kind, "", r) && DeclaresClaim(k, w.meta, name, r)
  }

  ghost predicate SomeDeploymentRefers(k: Cluster, namespace: string, name: string, r: Reference) {
    k.deployments.Items?
    && exists i :: 0 <= i < |k.deployments.items| && DeploymentRefers(k, k.deployments.items[i], namespace, name, r)
  }

  ghost predicate SomeStatefulSetRefers(k: Cluster, namespace: string, name: string, r: Reference) {
    k.statefulSets.Items?
    && exists i :: 0 <= i < |k.statefulSets.items| && StatefulSetRefers(k, k.statefulSets.items[i], namespace, name, r)
  }

  ghost predicate SomeCustomRefers(k: Cluster, namespace: string, name: string, r: Reference) {
    k.custom.Some?
    && exists i, j ::
         && 0 <= i < |k.custom.value| && k.custom.value[i].Items? && 0 <= j < |k.custom.value[i].items|
         && CustomRefers(k, k.custom.value[i].items[j], namespace, name, r)
  }

  ghost predicate SomeRepoRefers(k: Cluster, name: string, r: Reference) {
    k.custom.Some? && k.backupRepos.Items?
    && exists i ::
         && 0 <= i < |k.backupRepos.items| && k.backupRepos.items[i].backupPVCName == Some(name)
         && r == Reference("BackupRepo", "", k.backupRepos.items[i].name, k.backupRepos.items[i].uid, "owned", "", "backuprepo-status")
  }

  /** Some manifest refers to the claim by that reference. */
  ghost predicate RefersTo(k: Cluster, namespace: string, name: string, r: Reference) {
    && namespace != "" && name != ""
    && (|| SomeDeploymentRefers(k, namespace, name, r) || SomeStatefulSetRefers(k, namespace, name, r)
        || SomeCustomRefers(k, namespace, name, r) || SomeRepoRefers(k, name, r))
  }

  // ----- what can be read -----

  /** The references annotation is blank, or parses and names a claim in each item. */
  ghost predicate IsReadable(k: Cluster, meta: Meta) {
    var body := TextAt(meta.annotations, "storage.sealos.io/pvc-references");
    body == "" || (k.parse(body).Some? && forall i :: 0 <= i < |k.parse(body).value| ==> !ItemNames(k.parse(body).value[i], ""))
  }

  ghost predicate ReadableSources(k: Cluster, items: seq<Workload>, namespace: string) {
    forall i :: 0 <= i < |items| && IsSource(items[i].meta) && (namespace == "" || items[i].meta.namespace == namespace) ==>
      IsReadable(k, items[i].meta)
  }

  ghost predicate ReadableKind(k: Cluster, kind: Listing<Workload>, namespace: string) {
    !kind.Unavailable? && (kind.Items? ==> ReadableSources(k, kind.items, namespace))
  }

  predicate ReadableRepos(repos: Listing<BackupRepo>) {
    !repos.Unavailable? && (repos.Items? ==> forall i :: 0 <= i < |repos.items| ==> repos.items[i].backupPVCName.Some?)
  }

  /** Every list of the namespace answers and all its sources can be read; a missing custom kind is no obstacle. */
  ghost predicate ReadableCluster(k: Cluster, namespace: string, name: string) {
    && k.deployments.Items? && ReadableSources(k, k.deployments.items, namespace)
    && k.statefulSets.Items? && ReadableSources(k, k.statefulSets.items, namespace)
    && (k.custom.Some? ==> forall i :: 0 <= i < |k.custom.value| ==> ReadableKind(k, k.custom.value[i], namespace))
    && (k.custom.Some? && namespace != "" && name != "" ==> ReadableRepos(k.backupRepos))
  }

  // ----- sources -----

  lemma SelectedMeans(meta: Meta, namespace: string)
    ensures Selected(meta, namespace) <==> IsSource(meta) && (namespace == "" || meta.namespace == namespace)
  {}

  lemma TextAtIs(m: map<string, string>, key: string)
    ensures TrimSpace(Get(m, key)) == TextAt(m, key)
  {}

  lemma FirstOfTwo(a: string, b: string)
    ensures FirstNonEmpty([a, b]) == if a != "" then a else b
  {
    assert [a, b][1..] == [b];
    assert [b][1..] == [] && FirstNonEmpty([b]) == b;
  }

  lemma FirstOfThree(a: string, b: string, c: string)
    ensures FirstNonEmpty([a, b, c]) == if a != "" then a else if b != "" then b else c
  {
    assert [a, b, c][1..] == [b, c];
    FirstOfTwo(b, c);
  }

  lemma ReferenceNames(meta: Meta, kind: string, fallback: string, relation: string, mountPath: string, evidence: string, r: Reference)
    ensures r == ReferenceTo(SourceOf(meta, kind, fallback), relation, mountPath, evidence) <==>
      NamesSource(meta, kind, fallback, r) && r.relation == relation && r.mountPath == mountPath && r.evidence == evidence
    ensures var s := SourceOf(meta, kind, fallback); s.namespace == meta.namespace && s.annotations == meta.annotations
  {
    TextAtIs(meta.labels, "storage.sealos.io/ref-source");
    TextAtIs(meta.annotations, "storage.sealos.io/ref-name");
    var source := SourceOf(meta, kind, fallback);
    FirstOfTwo(TextAt(meta.labels, "storage.sealos.io/ref-source"), if kind == "" then fallback else kind);
    FirstOfTwo(source.displayName, source.name);
    hide TrimSpace, FirstNonEmpty;
  }

  // ----- mount paths and volumes -----

  lemma {:induction false} MountPathMeans(mounts: seq<Mount>, volume: string, path: string)
    ensures MountPathOf(mounts, volume) == path <==> MountedAt(mounts, volume, path)
  {
    if mounts != [] {
      var n := |mounts| - 1;
      MountPathMeans(mounts[..n], volume, path);
      MountPathMeans(mounts[..n], volume, "");
      assert forall i :: 0 <= i < n ==> mounts[..n][i] == mounts[i];
    }
  }

  /** One binding of the volume, if it is a claim. */
  predicate VolumeBinds(source: Source, volume: Volume, mounts: seq<Mount>, b: Binding) {
    && volume.claimName.Some? && TrimSpace(volume.claimName.value) != ""
    && b == Binding(source.namespace, TrimSpace(volume.claimName.value),
                    ReferenceTo(source, "mounted", MountPathOf(mounts, volume.name), "workload-volume"))
  }

  lemma {:induction false} VolumeBindingsMean(source: Source, volumes: seq<Volume>, mounts: seq<Mount>, b: Binding)
    ensures b in VolumeBindings(source, volumes, mounts) <==> exists i :: 0 <= i < |volumes| && VolumeBinds(source, volumes[i], mounts, b)
  {
    hide TrimSpace, ReferenceTo, MountPathOf;
    if volumes != [] {
      var n := |volumes| - 1;
      VolumeBindingsMean(source, volumes[..n], mounts, b);
      assert forall i :: 0 <= i < n ==> volumes[..n][i] == volumes[i];
    }
  }

  lemma VolumesMean(w: Workload, fallback: string, name: string, r: Reference)
    requires name != ""
    ensures Binding(w.meta.namespace, name, r) in VolumeBindings(SourceOf(w.meta, w.kind, fallback), w.spec.volumes, w.spec.mounts) <==>
      NamesSource(w.meta, w.kind, fallback, r) && MountsClaim(w.spec, name, r)
  {
    var source, b := SourceOf(w.meta, w.kind, fallback), Binding(w.meta.namespace, name, r);
    VolumeBindingsMean(source, w.spec.volumes, w.spec.mounts, b);
    forall i | 0 <= i < |w.spec.volumes|
      ensures VolumeBinds(source, w.spec.volumes[i], w.spec.mounts, b) <==>
        && w.spec.volumes[i].claimName.Some? && TrimSpace(w.spec.volumes[i].claimName.value) == name
        && NamesSource(w.meta, w.kind, fallback, r) && r.relation == "mounted" && r.evidence == "workload-volume"
        && MountedAt(w.spec.mounts, w.spec.volumes[i].name, r.mountPath)
    {
      var path := MountPathOf(w.spec.mounts, w.spec.volumes[i].name);
      MountPathMeans(w.spec.mounts, w.spec.volumes[i].name, r.mountPath);
      ReferenceNames(w.meta, w.kind, fallback, "mounted", path, "workload-volume", r);
      hide TrimSpace, ReferenceTo, MountPathOf, NamesSource, MountedAt, VolumeBindings, SourceOf;
    }
    hide TrimSpace, ReferenceTo, MountPathOf, NamesSource, MountedAt, VolumeBindings, SourceOf, VolumeBinds;
  }

  // ----- annotations -----

  lemma {:induction false} BindAllMeans(source: Source, items: seq<Declared>, b: Binding)
    ensures BindAll(source, items).Success? <==> forall i :: 0 <= i < |items| ==> DeclaredBinding(source, items[i]).Success?
    ensures BindAll(source, items).Success? ==>
      (b in BindAll(source, items).value <==>
        exists i :: 0 <= i < |items| && DeclaredBinding(source, items[i]) == Success(Some(b)))
  {
    hide DeclaredBinding;
    if items != [] {
      var n := |items| - 1;
      BindAllMeans(source, items[..n], b);
      assert forall i :: 0 <= i < n ==> items[..n][i] == items[i];
    }
  }

  lemma ItemMeans(meta: Meta, kind: string, fallback: string, item: Declared, name: string, r: Reference)
    requires name != ""
    ensures var source := SourceOf(meta, kind, fallback);
      && (DeclaredBinding(source, item).Success? <==> !ItemNames(item, ""))
      && (DeclaredBinding(source, item) == Success(Some(Binding(meta.namespace, name, r))) <==>
          NamesSource(meta, kind, fallback, r) && ItemDeclares(item, meta.namespace, name, r))
  {
    var source := SourceOf(meta, kind, fallback);
    FirstOfThree(TrimSpace(item.name), TrimSpace(item.claimName), TrimSpace(item.claimNameSnake));
    FirstOfTwo(TrimSpace(item.mountPath), TrimSpace(item.mountPathSnake));
    var relation := if TrimSpace(item.relation) == "" then "mounted" else TrimSpace(item.relation);
    var mountPath := FirstNonEmpty([TrimSpace(item.mountPath), TrimSpace(item.mountPathSnake)]);
    ReferenceNames(meta, kind, fallback, relation, mountPath, "metadata-annotation", r);
    hide TrimSpace, FirstNonEmpty, ReferenceTo, NamesSource, SourceOf;
  }

  lemma AnnotationMeans(k: Cluster, meta: Meta, kind: string, fallback: string, name: string, r: Reference)
    requires name != ""
    ensures var source := SourceOf(meta, kind, fallback);
      && (DeclaredBindings(k.parse, source).Success? <==> IsReadable(k, meta))
      && (IsReadable(k, meta) ==>
          (DeclaredBy(k, source, Binding(meta.namespace, name, r)) <==>
            NamesSource(meta, kind, fallback, r) && DeclaresClaim(k, meta, name, r)))
  {
    var source, b := SourceOf(meta, kind, fallback), Binding(meta.namespace, name, r);
    ReferenceNames(meta, kind, fallback, "", "", "", r);
    TextAtIs(meta.annotations, "storage.sealos.io/pvc-references");
    var body := TextAt(meta.annotations, "storage.sealos.io/pvc-references");
    hide TrimSpace, ReferenceTo, NamesSource, SourceOf, TextAt, Get;
    if body != "" && k.parse(body).Some? {
      var items := k.parse(body).value;
      BindAllMeans(source, items, b);
      forall i | 0 <= i < |items|
        ensures DeclaredBinding(source, items[i]).Success? <==> !ItemNames(items[i], "")
        ensures DeclaredBinding(source, items[i]) == Success(Some(b)) <==>
          NamesSource(meta, kind, fallback, r) && ItemDeclares(items[i], meta.namespace, name, r)
      {
        ItemMeans(meta, kind, fallback, items[i], name, r);
      }
      hide DeclaredBinding, ItemDeclares, ItemNames, BindAll;
    }
  }

  // ----- claim templates -----

  lemma TemplateMeans(w: Workload, i: nat, name: string, r: Reference)
    requires i < |w.claimTemplates|
    ensures FromTemplate(SourceOf(w.meta, w.kind, "StatefulSet"), w, i, Binding(w.meta.namespace, name, r)) <==>
      && NamesSource(w.meta, w.kind, "StatefulSet", r) && r.relation == "owned" && r.evidence == "statefulset-volume-claim-template"
      && TrimSpace(w.claimTemplates[i]) != "" && MountedAt(w.spec.mounts, TrimSpace(w.claimTemplates[i]), r.mountPath)
      && exists ordinal :: IsAtoi(ordinal) && name == TrimSpace(w.claimTemplates[i]) + "-" + w.meta.name + "-" + ordinal
  {
    var template := TrimSpace(w.claimTemplates[i]);
    MountPathMeans(w.spec.mounts, template, r.mountPath);
    ReferenceNames(w.meta, w.kind, "StatefulSet", "owned", MountPathOf(w.spec.mounts, template), "statefulset-volume-claim-template", r);
    OrdinalMeans(template, w.meta.name, name);
    hide TrimSpace, ReferenceTo, NamesSource, SourceOf, MountPathOf, MountedAt, ClaimNameMatches, IsAtoi;
  }

  lemma OrdinalMeans(template: string, setName: string, claim: string)
    ensures ClaimNameMatches(template, setName, claim) <==>
      exists ordinal :: IsAtoi(ordinal) && claim == template + "-" + setName + "-" + ordinal
  {
    var prefix := template + "-" + setName + "-";
    if ClaimNameMatches(template, setName, claim) { assert claim == prefix + claim[|prefix|..]; }
    if ordinal :| IsAtoi(ordinal) && claim == prefix + ordinal { assert claim[|prefix|..] == ordinal && claim[..|prefix|] == prefix; }
  }

  lemma OwnsMeans(w: Workload, name: string, r: Reference)
    requires w.meta.namespace != "" && name != ""
    ensures OwnsClaim(SourceOf(w.meta, w.kind, "StatefulSet"), w, Just(w.meta.namespace, name), Binding(w.meta.namespace, name, r)) <==>
      NamesSource(w.meta, w.kind, "StatefulSet", r) && OwnsClaimOf(w, name, r)
  {
    forall i | 0 <= i < |w.claimTemplates|
      ensures FromTemplate(SourceOf(w.meta, w.kind, "StatefulSet"), w, i, Binding(w.meta.namespace, name, r)) <==>
        && NamesSource(w.meta, w.kind, "StatefulSet", r) && r.relation == "owned" && r.evidence == "statefulset-volume-claim-template"
        && TrimSpace(w.claimTemplates[i]) != "" && MountedAt(w.spec.mounts, TrimSpace(w.claimTemplates[i]), r.mountPath)
        && exists ordinal :: IsAtoi(ordinal) && name == TrimSpace(w.claimTemplates[i]) + "-" + w.meta.name + "-" + ordinal
    {
      TemplateMeans(w, i, name, r);
    }
    hide TrimSpace, NamesSource, SourceOf, MountedAt, IsAtoi, FromTemplate;
  }

  // ----- one workload -----

  // A workload makes bindings of its own namespace only.
  lemma OtherNamespace(k: Cluster, w: Workload, namespace: string, name: string, r: Reference)
    requires namespace != "" && name != "" && w.meta.namespace != namespace
    ensures var b := Binding(namespace, name, r);
      !FromDeployment(k, w, b) && !FromStatefulSet(k, w, Just(namespace, name), b) && !FromCustom(k, w, b)
  {
    var b := Binding(namespace, name, r);
    if FromDeployment(k, w, b) || FromStatefulSet(k, w, Just(namespace, name), b) || FromCustom(k, w, b) {
      WorkloadsBindLocally(k, w, Just(namespace, name), b);
      assert false;
    }
  }

  lemma DeploymentMeans(k: Cluster, w: Workload, namespace: string, name: string, r: Reference)
    requires namespace != "" && name != "" && (Selected(w.meta, namespace) ==> IsReadable(k, w.meta))
    ensures Selected(w.meta, namespace) && FromDeployment(k, w, Binding(namespace, name, r)) <==>
      DeploymentRefers(k, w, namespace, name, r)
  {
    SelectedMeans(w.meta, namespace);
    if w.meta.namespace == namespace {
      AnnotationMeans(k, w.meta, w.kind, "Deployment", name, r);
      VolumesMean(w, "Deployment", name, r);
    }
    hide DeclaredBy, VolumeBindings, SourceOf, NamesSource, DeclaresClaim, MountsClaim, IsReadable, IsSource, Selected;
  }

  lemma StatefulSetMeans(k: Cluster, w: Workload, namespace: string, name: string, r: Reference)
    requires namespace != "" && name != "" && (Selected(w.meta, namespace) ==> IsReadable(k, w.meta))
    ensures Selected(w.meta, namespace) && FromStatefulSet(k, w, Just(namespace, name), Binding(namespace, name, r)) <==>
      StatefulSetRefers(k, w, namespace, name, r)
  {
    SelectedMeans(w.meta, namespace);
    if w.meta.namespace == namespace {
      AnnotationMeans(k, w.meta, w.kind, "StatefulSet", name, r);
      VolumesMean(w, "StatefulSet", name, r);
      OwnsMeans(w, name, r);
    }
    hide DeclaredBy, VolumeBindings, SourceOf, NamesSource, DeclaresClaim, MountsClaim, OwnsClaim, OwnsClaimOf, IsReadable, IsSource, Selected;
  }

  lemma CustomMeans(k: Cluster, w: Workload, namespace: string, name: string, r: Reference)
    requires namespace != "" && name != "" && (Selected(w.meta, namespace) ==> IsReadable(k, w.meta))
    ensures Selected(w.meta, namespace) && FromCustom(k, w, Binding(namespace, name, r)) <==> CustomRefers(k, w, namespace, name, r)
  {
    SelectedMeans(w.meta, namespace);
    if w.meta.namespace == namespace { AnnotationMeans(k, w.meta, w.kind, w.kind, name, r); }
    hide DeclaredBy, SourceOf, DeclaresClaim, IsReadable, IsSource, Selected, TextAt;
  }

  // ----- the whole cluster -----

  lemma ReadableMeans(k: Cluster, items: seq<Workload>, namespace: string, fallback: string)
    ensures ReadableSources(k, items, namespace) <==> forall i :: 0 <= i < |items| ==> Readable(k, namespace, items[i], fallback)
  {
    forall i | 0 <= i < |items|
      ensures Readable(k, namespace, items[i], fallback) <==>
        (IsSource(items[i].meta) && (namespace == "" || items[i].meta.namespace == namespace) ==> IsReadable(k, items[i].meta))
    {
      SelectedMeans(items[i].meta, namespace);
      AnnotationMeans(k, items[i].meta, items[i].kind, fallback, "-", Reference("", "", "", "", "", "", ""));
      hide DeclaredBindings, SourceOf, IsReadable, IsSource, Selected, DeclaredBy, DeclaresClaim, NamesSource;
    }
    hide Readable, IsSource, IsReadable;
  }

  lemma KindMeans(k: Cluster, kind: Listing<Workload>, namespace: string)
    ensures ReadableKind(k, kind, namespace) <==> CustomReadable(k, namespace, kind)
  {
    if kind.Items? {
      forall i | 0 <= i < |kind.items|
        ensures (Selected(kind.items[i].meta, namespace) ==>
            DeclaredBindings(k.parse, SourceOf(kind.items[i].meta, kind.items[i].kind, kind.items[i].kind)).Success?) <==>
          (IsSource(kind.items[i].meta) && (namespace == "" || kind.items[i].meta.namespace == namespace) ==> IsReadable(k, kind.items[i].meta))
      {
        var w := kind.items[i];
        SelectedMeans(w.meta, namespace);
        AnnotationMeans(k, w.meta, w.kind, w.kind, "-", Reference("", "", "", "", "", "", ""));
        hide DeclaredBindings, SourceOf, IsReadable, IsSource, Selected, DeclaredBy, DeclaresClaim, NamesSource;
      }
      hide DeclaredBindings, SourceOf, IsReadable, IsSource, Selected;
    }
  }

  /** The references of a claim can be known exactly when every list answers and every source of the namespace can be read. */
  lemma DetectableMeans(k: Cluster, namespace: string, name: string)
    ensures Detectable(k, namespace, Just(namespace, name)) <==> ReadableCluster(k, namespace, name)
  {
    if k.deployments.Items? { ReadableMeans(k, k.deployments.items, namespace, "Deployment"); }
    if k.statefulSets.Items? { ReadableMeans(k, k.statefulSets.items, namespace, "StatefulSet"); }
    if k.custom.Some? {
      forall i | 0 <= i < |k.custom.value|
        ensures ReadableKind(k, k.custom.value[i], namespace) <==> CustomReadable(k, namespace, k.custom.value[i])
      {
        KindMeans(k, k.custom.value[i], namespace);
      }
    }
    assert Just(namespace, name) == map[] <==> namespace == "" || name == "" by {
      if namespace != "" && name != "" { assert namespace in Just(namespace, name); }
    }
    hide ReadableSources, Readable, ReadableKind, CustomReadable, Just;
  }

  // What each kind of source brings into scope.
  lemma DeploymentsMean(k: Cluster, namespace: string, name: string, r: Reference)
    requires namespace != "" && name != "" && ReadableCluster(k, namespace, name)
    ensures InDeployments(k, namespace, k.deployments.items, Binding(namespace, name, r)) <==> SomeDeploymentRefers(k, namespace, name, r)
  {
    var items := k.deployments.items;
    forall i | 0 <= i < |items|
      ensures Selected(items[i].meta, namespace) && FromDeployment(k, items[i], Binding(namespace, name, r)) <==>
        DeploymentRefers(k, items[i], namespace, name, r)
    {
      SelectedMeans(items[i].meta, namespace);
      DeploymentMeans(k, items[i], namespace, name, r);
    }
    hide Selected, FromDeployment, DeploymentRefers, ReadableCluster;
  }

  lemma StatefulSetsMean(k: Cluster, namespace: string, name: string, r: Reference)
    requires namespace != "" && name != "" && ReadableCluster(k, namespace, name)
    ensures InStatefulSets(k, namespace, Just(namespace, name), k.statefulSets.items, Binding(namespace, name, r)) <==>
      SomeStatefulSetRefers(k, namespace, name, r)
  {
    var items := k.statefulSets.items;
    forall i | 0 <= i < |items|
      ensures Selected(items[i].meta, namespace) && FromStatefulSet(k, items[i], Just(namespace, name), Binding(namespace, name, r)) <==>
        StatefulSetRefers(k, items[i], namespace, name, r)
    {
      SelectedMeans(items[i].meta, namespace);
      StatefulSetMeans(k, items[i], namespace, name, r);
    }
    hide Selected, FromStatefulSet, StatefulSetRefers, ReadableCluster;
  }

  lemma CustomsMean(k: Cluster, namespace: string, name: string, r: Reference)
    requires namespace != "" && name != "" && ReadableCluster(k, namespace, name) && k.custom.Some?
    ensures InCustoms(k, namespace, k.custom.value, Binding(namespace, name, r)) <==> SomeCustomRefers(k, namespace, name, r)
  {
    var kinds, b := k.custom.value, Binding(namespace, name, r);
    forall i, j | 0 <= i < |kinds| && kinds[i].Items? && 0 <= j < |kinds[i].items|
      ensures Selected(kinds[i].items[j].meta, namespace) && FromCustom(k, kinds[i].items[j], b) <==>
        CustomRefers(k, kinds[i].items[j], namespace, name, r)
    {
      assert ReadableKind(k, kinds[i], namespace);
      SelectedMeans(kinds[i].items[j].meta, namespace);
      CustomMeans(k, kinds[i].items[j], namespace, name, r);
    }
    hide Selected, FromCustom, CustomRefers, ReadableCluster;
  }

  lemma ReposMean(k: Cluster, namespace: string, name: string, r: Reference)
    requires namespace != "" && name != ""
    ensures ReposListed(k) && InRepos(Just(namespace, name), k.backupRepos.items, Binding(namespace, name, r)) <==> SomeRepoRefers(k, name, r)
  {
    if ReposListed(k) {
      forall i | 0 <= i < |k.backupRepos.items|
        ensures ReferenceTo(RepoSource(k.backupRepos.items[i]), "owned", "", "backuprepo-status") ==
          Reference("BackupRepo", "", k.backupRepos.items[i].name, k.backupRepos.items[i].uid, "owned", "", "backuprepo-status")
      {
        FirstOfTwo("", k.backupRepos.items[i].name);
      }
      hide ReferenceTo;
    }
  }

  /** What detection finds in scope of one claim is exactly what its manifests say. */
  lemma ScopeIsWhatManifestsSay(k: Cluster, namespace: string, name: string, r: Reference)
    requires ReadableCluster(k, namespace, name)
    ensures InScope(k, namespace, Just(namespace, name), Binding(namespace, name, r)) <==> RefersTo(k, namespace, name, r)
  {
    if namespace != "" && name != "" {
      DeploymentsMean(k, namespace, name, r);
      StatefulSetsMean(k, namespace, name, r);
      if k.custom.Some? { CustomsMean(k, namespace, name, r); }
      ReposMean(k, namespace, name, r);
    }
    hide InDeployments, InStatefulSets, InCustoms, InRepos, ReposListed, ReadableSources, ReadableKind, ReadableRepos,
      SomeDeploymentRefers, SomeStatefulSetRefers, SomeCustomRefers, SomeRepoRefers;
  }

  /** A deployment or a stateful set marked as a source refers to each claim that is a volume of its pods. */
  lemma MountedClaimIsReferred(k: Cluster, w: Workload, namespace: string, name: string, i: nat)
    requires namespace != "" && name != "" && IsSource(w.meta) && w.meta.namespace == namespace
    requires (k.deployments.Items? && w in k.deployments.items) || (k.statefulSets.Items? && w in k.statefulSets.items)
    requires i < |w.spec.volumes| && w.spec.volumes[i].claimName.Some? && TrimSpace(w.spec.volumes[i].claimName.value) == name
    ensures exists r :: RefersTo(k, namespace, name, r)
  {
    var fallback := if k.deployments.Items? && w in k.deployments.items then "Deployment" else "StatefulSet";
    var path := MountPathOf(w.spec.mounts, w.spec.volumes[i].name);
    MountPathMeans(w.spec.mounts, w.spec.volumes[i].name, path);
    var r := ReferenceTo(SourceOf(w.meta, w.kind, fallback), "mounted", path, "workload-volume");
    ReferenceNames(w.meta, w.kind, fallback, "mounted", path, "workload-volume", r);
    hide ReferenceTo, SourceOf, TrimSpace, MountPathOf, MountedAt, NamesSource;
    assert MountsClaim(w.spec, name, r);
    hide MountsClaim, DeclaresClaim, OwnsClaimOf;
    assert RefersTo(k, namespace, name, r);
  }

  // ----- which of them are reported -----

  predicate NoNul(namespace: string, name: string, r: Reference) {
    && '\0' !in namespace && '\0' !in name && '\0' !in r.sourceType && '\0' !in r.sourceNamespace && '\0' !in r.sourceName
    && '\0' !in r.sourceUID && '\0' !in r.relation && '\0' !in r.mountPath
  }

  /** Of the references that differ in their evidence only, the one with the least evidence. */
  ghost predicate RefersLeast(k: Cluster, namespace: string, name: string, r: Reference) {
    && RefersTo(k, namespace, name, r)
    && forall q :: RefersTo(k, namespace, name, q) && q.(evidence := r.evidence) == r ==> !Less(q.evidence, r.evidence)
  }

  lemma CleanMeans(b: Binding)
    ensures Clean(b) <==> NoNul(b.pvcNamespace, b.pvcName, b.reference)
  {
    var fields := TargetFields(b);
    assert fields[0] == b.pvcNamespace && fields[1] == b.pvcName && fields[2] == b.reference.sourceType;
    assert fields[3] == b.reference.sourceNamespace && fields[4] == b.reference.sourceName && fields[5] == b.reference.sourceUID;
    assert fields[6] == b.reference.relation && fields[7] == b.reference.mountPath;
  }

  /** What is reported of one claim, when no field holds a NUL: from each target the reference with the least evidence. */
  lemma ReportedAreLeast(k: Cluster, namespace: string, name: string)
    requires ReadableCluster(k, namespace, name)
    ensures CleanScope(k, namespace, Just(namespace, name)) <==>
      forall r :: RefersTo(k, namespace, name, r) ==> NoNul(namespace, name, r)
    ensures forall r :: Refers(k, namespace, name, r) <==> RefersLeast(k, namespace, name, r)
  {
    var one := Just(namespace, name);
    forall r ensures InScope(k, namespace, one, Binding(namespace, name, r)) <==> RefersTo(k, namespace, name, r) {
      ScopeIsWhatManifestsSay(k, namespace, name, r);
    }
    forall b | InScope(k, namespace, one, b) ensures b == Binding(namespace, name, b.reference) {
      hide Collected;
    }
    forall b ensures Clean(b) <==> NoNul(b.pvcNamespace, b.pvcName, b.reference) { CleanMeans(b); }
    hide InScope, RefersTo, ReadableCluster, Clean, NoNul, Less;
    forall r ensures Refers(k, namespace, name, r) <==> RefersLeast(k, namespace, name, r) {
      LeastMeans(k, namespace, name, r);
    }
    if CleanScope(k, namespace, one) {
      forall r | RefersTo(k, namespace, name, r) ensures NoNul(namespace, name, r) {
        assert Clean(Binding(namespace, name, r));
      }
    }
    hide Refers, RefersLeast;
  }

  lemma LeastMeans(k: Cluster, namespace: string, name: string, r: Reference)
    requires k.deployments.Items? && k.statefulSets.Items?
    requires forall q :: InScope(k, namespace, Just(namespace, name), Binding(namespace, name, q)) <==> RefersTo(k, namespace, name, q)
    requires forall b :: InScope(k, namespace, Just(namespace, name), b) ==> b == Binding(namespace, name, b.reference)
    ensures Refers(k, namespace, name, r) <==> RefersLeast(k, namespace, name, r)
  {
    hide InScope, RefersTo, Less;
    var b := Binding(namespace, name, r);
    if Refers(k, namespace, name, r) {
      forall q | RefersTo(k, namespace, name, q) && q.(evidence := r.evidence) == r ensures !Less(q.evidence, r.evidence) {
        assert SameTarget(Binding(namespace, name, q), b);
      }
    }
  }
}
