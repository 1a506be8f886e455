/** Filtering, sorting and deduplicating reference bindings. */
module PvcDedupe {
  import opened GoText
  import opened PvcReferences

  // ----- keys -----

  function TargetFields(b: Binding): (fields: seq<string>)
    ensures |fields| == 8
  {
    var r := b.reference;
    [b.pvcNamespace, b.pvcName, r.sourceType, r.sourceNamespace, r.sourceName, r.sourceUID, r.relation, r.mountPath]
  }

  function DedupeKey(b: Binding): string { JoinNul(TargetFields(b)) }

  function SortFields(b: Binding): seq<string> {
    var r := b.reference;
    [b.pvcNamespace, b.pvcName, r.sourceType, r.sourceNamespace, r.sourceName, r.relation, r.mountPath]
  }

  function SortKey(b: Binding): string { JoinNul(SortFields(b) + [b.reference.evidence]) }

  /** Two bindings that differ in evidence at most. */
  predicate SameTarget(a: Binding, b: Binding) { a.(reference := a.reference.(evidence := b.reference.evidence)) == b }

  predicate Clean(b: Binding) { NulFree(TargetFields(b)) }

  lemma KeyIsTarget(a: Binding, b: Binding)
    requires Clean(a) && Clean(b)
    ensures DedupeKey(a) == DedupeKey(b) <==> SameTarget(a, b)
  {
    if DedupeKey(a) == DedupeKey(b) {
      JoinIsInjective(TargetFields(a), TargetFields(b));
      FieldsDecide(a, b);
    }
  }

  lemma FieldsDecide(a: Binding, b: Binding)
    requires TargetFields(a) == TargetFields(b)
    ensures SameTarget(a, b)
  {
    assert forall i :: 0 <= i < 8 ==> TargetFields(a)[i] == TargetFields(b)[i];
    assert TargetFields(a)[0] == TargetFields(b)[0] && TargetFields(a)[1] == TargetFields(b)[1] && TargetFields(a)[2] == TargetFields(b)[2];
    assert TargetFields(a)[3] == TargetFields(b)[3] && TargetFields(a)[4] == TargetFields(b)[4] && TargetFields(a)[5] == TargetFields(b)[5];
    assert TargetFields(a)[6] == TargetFields(b)[6] && TargetFields(a)[7] == TargetFields(b)[7];
  }

  // Bindings for the same target sort by evidence.
  lemma SameTargetSortsByEvidence(a: Binding, b: Binding)
    requires SameTarget(a, b)
    ensures Less(SortKey(a), SortKey(b)) == Less(a.reference.evidence, b.reference.evidence)
  {
    JoinLast(SortFields(a), a.reference.evidence);
    JoinLast(SortFields(b), b.reference.evidence);
    CommonPrefix(JoinNul(SortFields(a)) + "\0", a.reference.evidence, b.reference.evidence);
  }

  lemma JoinHead(first: string, rest: seq<string>)
    requires rest != []
    ensures JoinNul([first] + rest) == first + "\0" + JoinNul(rest)
  {
    assert ([first] + rest)[1..] == rest;
  }

  /** The two keys, spelled out. */
  lemma KeysSpelled(b: Binding)
    ensures var r := b.reference;
      && SortKey(b) == b.pvcNamespace + ("\0" + (b.pvcName + ("\0" + (r.sourceType + ("\0" + (r.sourceNamespace + ("\0"
           + (r.sourceName + ("\0" + (r.relation + ("\0" + (r.mountPath + ("\0" + r.evidence)))))))))))))
      && DedupeKey(b) == b.pvcNamespace + ("\0" + (b.pvcName + ("\0" + (r.sourceType + ("\0" + (r.sourceNamespace + ("\0"
           + (r.sourceName + ("\0" + (r.sourceUID + ("\0" + (r.relation + ("\0" + r.mountPath)))))))))))))
  {
    var r := b.reference;
    hide JoinNul;
    JoinPair(r.mountPath, r.evidence);
    JoinPair(r.relation, r.mountPath);
    JoinSix(b.pvcNamespace, b.pvcName, r.sourceType, r.sourceNamespace, r.sourceName, r.relation, [r.mountPath, r.evidence]);
    JoinSix(b.pvcNamespace, b.pvcName, r.sourceType, r.sourceNamespace, r.sourceName, r.sourceUID, [r.relation, r.mountPath]);
    assert SortFields(b) + [r.evidence] == [b.pvcNamespace] + ([b.pvcName] + ([r.sourceType] + ([r.sourceNamespace] + ([r.sourceName]
      + ([r.relation] + [r.mountPath, r.evidence])))));
    assert TargetFields(b) == [b.pvcNamespace] + ([b.pvcName] + ([r.sourceType] + ([r.sourceNamespace] + ([r.sourceName]
      + ([r.sourceUID] + [r.relation, r.mountPath])))));
  }

  lemma JoinPair(a: string, b: string)
    ensures JoinNul([a, b]) == a + ("\0" + b)
  {
    assert [a, b][1..] == [b];
    assert JoinNul([b]) == b;
    assert a + "\0" + b == a + ("\0" + b);
  }

  lemma JoinSix(a: string, b: string, c: string, d: string, e: string, f: string, rest: seq<string>)
    requires rest != []
    ensures JoinNul([a] + ([b] + ([c] + ([d] + ([e] + ([f] + rest))))))
      == a + ("\0" + (b + ("\0" + (c + ("\0" + (d + ("\0" + (e + ("\0" + (f + ("\0" + JoinNul(rest))))))))))))
  {
    hide JoinNul;
    JoinHead(f, rest);
    JoinHead(e, [f] + rest);
    JoinHead(d, [e] + ([f] + rest));
    JoinHead(c, [d] + ([e] + ([f] + rest)));
    JoinHead(b, [c] + ([d] + ([e] + ([f] + rest))));
    JoinHead(a, [b] + ([c] + ([d] + ([e] + ([f] + rest)))));
    Associate(f, JoinNul(rest));
    Associate(e, JoinNul([f] + rest));
    Associate(d, JoinNul([e] + ([f] + rest)));
    Associate(c, JoinNul([d] + ([e] + ([f] + rest))));
    Associate(b, JoinNul([c] + ([d] + ([e] + ([f] + rest)))));
    Associate(a, JoinNul([b] + ([c] + ([d] + ([e] + ([f] + rest))))));
  }

  lemma Associate(a: string, b: string)
    ensures a + "\0" + b == a + ("\0" + b)
  {}

  // ----- sorting -----

  ghost predicate IsSorted(s: seq<Binding>) {
    forall i, j :: 0 <= i < j < |s| ==> !Less(SortKey(s[j]), SortKey(s[i]))
  }

  /** Sorted by key, with the same elements; equal keys may come in any order. */
  ghost predicate IsSortOf(sorted: seq<Binding>, references: seq<Binding>) {
    IsSorted(sorted) && multiset(sorted) == multiset(references)
  }

  /** The slice sorted by key; equal keys may come in any order. */
  method SortBindings(references: seq<Binding>) returns (sorted: seq<Binding>)
    ensures IsSortOf(sorted, references)
  {
    hide SortKey;
    sorted := [];
    for i := 0 to |references|
      invariant IsSorted(sorted) && multiset(sorted) == multiset(references[..i])
    {
      assert references[..i + 1] == references[..i] + [references[i]];
      var p := 0;
      while p < |sorted| && !Less(SortKey(references[i]), SortKey(sorted[p]))
        invariant 0 <= p <= |sorted|
        invariant forall j :: 0 <= j < p ==> !Less(SortKey(references[i]), SortKey(sorted[j]))
      {
        p := p + 1;
      }
      InsertKeepsSorted(sorted, p, references[i]);
      assert sorted == sorted[..p] + sorted[p..];
      sorted := sorted[..p] + [references[i]] + sorted[p..];
    }
    assert references[..|references|] == references;
  }

  lemma InsertKeepsSorted(s: seq<Binding>, p: nat, b: Binding)
    requires IsSorted(s) && p <= |s|
    requires forall j :: 0 <= j < p ==> !Less(SortKey(b), SortKey(s[j]))
    requires p < |s| ==> Less(SortKey(b), SortKey(s[p]))
    ensures IsSorted(s[..p] + [b] + s[p..])
  {
    hide SortKey;
    var t := s[..p] + [b] + s[p..];
    forall j | p <= j < |s| ensures !Less(SortKey(s[j]), SortKey(b)) {
      LessIsTotal(SortKey(b), SortKey(s[p]));
      if j > p { LessIsTransitive(SortKey(b), SortKey(s[p]), SortKey(s[j])); }
    }
    hide Less;
    assert forall i :: 0 <= i < |t| ==> t[i] == if i < p then s[i] else if i == p then b else s[i - 1];
  }

  // ----- the first binding of each key -----

  predicate KeyIn(s: seq<Binding>, key: string) { exists i :: 0 <= i < |s| && DedupeKey(s[i]) == key }

  function FirstPerKey(s: seq<Binding>): seq<Binding> {
    if s == [] then []
    else
      var before, last := FirstPerKey(s[..|s| - 1]), s[|s| - 1];
      if KeyIn(s[..|s| - 1], DedupeKey(last)) then before else before + [last]
  }

  /** The binding at index i is the first of its key. */
  predicate IsFirst(s: seq<Binding>, i: nat)
    requires i < |s|
  {
    forall j :: 0 <= j < i ==> DedupeKey(s[j]) != DedupeKey(s[i])
  }

  ghost predicate IsAFirst(s: seq<Binding>, b: Binding) { exists i :: 0 <= i < |s| && s[i] == b && IsFirst(s, i) }

  lemma OneMoreFirst(s: seq<Binding>, b: Binding)
    requires s != []
    ensures var init, last := s[..|s| - 1], s[|s| - 1];
      IsAFirst(s, b) <==> IsAFirst(init, b) || (b == last && !KeyIn(init, DedupeKey(last)))
  {
    hide DedupeKey;
    var n := |s| - 1;
    var init, last := s[..n], s[n];
    assert forall i :: 0 <= i < n ==> init[i] == s[i];
    if IsAFirst(s, b) {
      var i :| 0 <= i < |s| && s[i] == b && IsFirst(s, i);
      if i < n { assert init[i] == b && IsFirst(init, i); }
    }
    if IsAFirst(init, b) {
      var i :| 0 <= i < n && init[i] == b && IsFirst(init, i);
      assert s[i] == b && IsFirst(s, i);
    }
    if !KeyIn(init, DedupeKey(last)) { assert IsFirst(s, n); }
  }

  lemma {:induction false} FirstPerKeyMeans(s: seq<Binding>)
    ensures forall b :: b in FirstPerKey(s) <==> IsAFirst(s, b)
    ensures forall i, j :: 0 <= i < j < |FirstPerKey(s)| ==> DedupeKey(FirstPerKey(s)[i]) != DedupeKey(FirstPerKey(s)[j])
  {
    if s != [] {
      var init, last := s[..|s| - 1], s[|s| - 1];
      FirstPerKeyMeans(init);
      forall b ensures b in FirstPerKey(s) <==> IsAFirst(s, b) { OneMoreFirst(s, b); }
      hide DedupeKey;
      forall i | 0 <= i < |FirstPerKey(init)| ensures KeyIn(init, DedupeKey(FirstPerKey(init)[i])) {
        assert FirstPerKey(init)[i] in FirstPerKey(init);
      }
    }
  }

  // What is kept stays sorted.
  lemma {:induction false} FirstPerKeySorted(s: seq<Binding>)
    requires IsSorted(s)
    ensures IsSorted(FirstPerKey(s)) && forall b :: b in FirstPerKey(s) ==> b in s
  {
    hide SortKey, DedupeKey, Less, KeyIn;
    if s != [] {
      var init := s[..|s| - 1];
      FirstPerKeySorted(init);
      var before := FirstPerKey(init);
      forall i | 0 <= i < |before| ensures before[i] in init { assert before[i] in before; }
    }
  }

  method DedupeBindings(references: seq<Binding>) returns (deduped: seq<Binding>)
    ensures exists sorted :: IsSortOf(sorted, references) && deduped == FirstPerKey(sorted)
    ensures IsSorted(deduped)
  {
    hide DedupeKey, SortKey, IsSortOf, IsSorted;
    var ordered := SortBindings(references);
    deduped := [];
    var seen: set<string> := {};
    for i := 0 to |ordered|
      invariant deduped == FirstPerKey(ordered[..i])
      invariant forall key :: key in seen <==> KeyIn(ordered[..i], key)
    {
      OneMoreKey(ordered, i);
      var key := DedupeKey(ordered[i]);
      if key in seen {
        continue;
      }
      seen := seen + {key};
      deduped := deduped + [ordered[i]];
    }
    assert ordered[..|ordered|] == ordered;
    assert IsSorted(ordered) by { SortIsSorted(ordered, references); }
    FirstPerKeySorted(ordered);
  }

  lemma SortIsSorted(sorted: seq<Binding>, references: seq<Binding>)
    requires IsSortOf(sorted, references)
    ensures IsSorted(sorted)
  {}

  lemma OneMoreKey(s: seq<Binding>, i: nat)
    requires i < |s|
    ensures forall key :: KeyIn(s[..i + 1], key) <==> KeyIn(s[..i], key) || key == DedupeKey(s[i])
    ensures FirstPerKey(s[..i + 1])
      == if KeyIn(s[..i], DedupeKey(s[i])) then FirstPerKey(s[..i]) else FirstPerKey(s[..i]) + [s[i]]
  {
    hide DedupeKey;
    assert s[..i + 1][..i] == s[..i];
    assert forall j :: 0 <= j <= i ==> s[..i + 1][j] == s[j];
    assert forall j :: 0 <= j < i ==> s[..i][j] == s[..i + 1][j];
  }

  // ----- what deduplication keeps -----

  /** The binding has the least evidence of all bindings for its target. */
  ghost predicate Least(references: seq<Binding>, b: Binding) {
    b in references && forall r :: r in references && SameTarget(r, b) ==> !Less(r.reference.evidence, b.reference.evidence)
  }

  lemma FirstIsLeast(sorted: seq<Binding>, i: nat, r: Binding)
    requires IsSorted(sorted) && i < |sorted| && IsFirst(sorted, i) && r in sorted && SameTarget(r, sorted[i])
    ensures !Less(r.reference.evidence, sorted[i].reference.evidence)
  {
    var j :| 0 <= j < |sorted| && sorted[j] == r;
    assert TargetFields(r) == TargetFields(sorted[i]);
    assert DedupeKey(sorted[j]) == DedupeKey(sorted[i]);
    assert i <= j;
    SameTargetSortsByEvidence(r, sorted[i]);
    LessIsTotal(SortKey(r), SortKey(r));
    hide SortKey, Less, DedupeKey;
  }

  lemma {:induction false} FirstOfKey(s: seq<Binding>, j: nat) returns (i: nat)
    requires j < |s|
    ensures i <= j && IsFirst(s, i) && DedupeKey(s[i]) == DedupeKey(s[j])
    decreases j
  {
    hide DedupeKey;
    if IsFirst(s, j) {
      i := j;
    } else {
      var l :| 0 <= l < j && DedupeKey(s[l]) == DedupeKey(s[j]);
      i := FirstOfKey(s, l);
    }
  }

  lemma EqualEvidence(a: Binding, b: Binding)
    requires SameTarget(a, b) && !Less(a.reference.evidence, b.reference.evidence) && !Less(b.reference.evidence, a.reference.evidence)
    ensures a == b
  {
    LessIsTotal(a.reference.evidence, b.reference.evidence);
  }

  /**
   * Whatever order the bindings come in and however the sort breaks ties, deduplication keeps
   * exactly one binding per target, the one with the least evidence.
   */
  lemma DedupeKeepsLeastEvidence(references: seq<Binding>, sorted: seq<Binding>)
    requires forall b :: b in references ==> Clean(b)
    requires IsSortOf(sorted, references)
    ensures forall b :: b in FirstPerKey(sorted) <==> Least(references, b)
    ensures forall i, j :: 0 <= i < j < |FirstPerKey(sorted)| ==> !SameTarget(FirstPerKey(sorted)[i], FirstPerKey(sorted)[j])
  {
    FirstPerKeyMeans(sorted);
    SameElements(references, sorted);
    hide SortKey, Less, Clean, IsSorted, SameTarget, DedupeKey, FirstPerKey;
    forall b ensures b in FirstPerKey(sorted) <==> Least(references, b) {
      if b in FirstPerKey(sorted) { FirstsAreLeast(references, sorted, b); }
      if Least(references, b) { LeastAreFirst(references, sorted, b); }
    }
    forall i, j | 0 <= i < j < |FirstPerKey(sorted)| ensures !SameTarget(FirstPerKey(sorted)[i], FirstPerKey(sorted)[j]) {
      assert FirstPerKey(sorted)[i] in FirstPerKey(sorted) && FirstPerKey(sorted)[j] in FirstPerKey(sorted);
      KeyIsTarget(FirstPerKey(sorted)[i], FirstPerKey(sorted)[j]);
    }
  }

  lemma SameElements(a: seq<Binding>, b: seq<Binding>)
    requires multiset(a) == multiset(b)
    ensures forall x :: x in a <==> x in b
  {
    forall x ensures x in a <==> x in b {
      assert x in a <==> x in multiset(a);
      assert x in b <==> x in multiset(b);
    }
  }

  lemma FirstsAreLeast(references: seq<Binding>, sorted: seq<Binding>, b: Binding)
    requires IsSorted(sorted) && (forall x :: x in references <==> x in sorted)
    requires b in FirstPerKey(sorted)
    ensures Least(references, b)
  {
    FirstPerKeyMeans(sorted);
    var i :| 0 <= i < |sorted| && sorted[i] == b && IsFirst(sorted, i);
    forall r | r in references && SameTarget(r, b) ensures !Less(r.reference.evidence, b.reference.evidence) {
      FirstIsLeast(sorted, i, r);
    }
  }

  lemma LeastAreFirst(references: seq<Binding>, sorted: seq<Binding>, b: Binding)
    requires IsSorted(sorted) && (forall x :: x in references <==> x in sorted) && (forall x :: x in references ==> Clean(x))
    requires Least(references, b)
    ensures b in FirstPerKey(sorted)
  {
    FirstPerKeyMeans(sorted);
    hide SortKey, Less, Clean, DedupeKey, FirstPerKey, SameTarget;
    var j :| 0 <= j < |sorted| && sorted[j] == b;
    var i := FirstOfKey(sorted, j);
    var o := sorted[i];
    KeyIsTarget(o, b);
    TargetsMirror(o, b);
    FirstIsLeast(sorted, i, b);
    EqualEvidence(o, b);
  }

  lemma TargetsMirror(a: Binding, b: Binding)
    ensures SameTarget(a, b) <==> SameTarget(b, a)
  {}

  /** With any fields, what is kept was there, and every key that was there is kept. */
  lemma DedupeCoversKeys(references: seq<Binding>, sorted: seq<Binding>)
    requires IsSortOf(sorted, references)
    ensures forall b :: b in FirstPerKey(sorted) ==> b in references
    ensures forall b :: b in references ==> KeyIn(FirstPerKey(sorted), DedupeKey(b))
  {
    FirstPerKeyMeans(sorted);
    SameElements(references, sorted);
    hide DedupeKey, FirstPerKey, IsSorted;
    forall b | b in references ensures KeyIn(FirstPerKey(sorted), DedupeKey(b)) {
      var j :| 0 <= j < |sorted| && sorted[j] == b;
      var i := FirstOfKey(sorted, j);
      assert IsAFirst(sorted, sorted[i]);
      var l :| 0 <= l < |FirstPerKey(sorted)| && FirstPerKey(sorted)[l] == sorted[i];
    }
  }

  /** Claims named without a NUL never share a key with another claim, whatever the other fields hold. */
  lemma KeyDeterminesClaim(a: Binding, b: Binding)
    requires DedupeKey(a) == DedupeKey(b)
    requires '\0' !in a.pvcNamespace && '\0' !in b.pvcNamespace && '\0' !in a.pvcName && '\0' !in b.pvcName
    ensures a.pvcNamespace == b.pvcNamespace && a.pvcName == b.pvcName
  {
    var x, y := TargetFields(a), TargetFields(b);
    HeadOfJoin(x[0], JoinNul(x[1..]), y[0], JoinNul(y[1..]));
    assert x[1..][0] == x[1] && y[1..][0] == y[1];
    HeadOfJoin(x[1], JoinNul(x[1..][1..]), y[1], JoinNul(y[1..][1..]));
  }

  /** Fields with a NUL are out of the law: two targets may then share a key, and one of them is lost. */
  lemma NulFieldsCollide(r: Reference, x: string, y: string, z: string)
    ensures var a := Binding("ns", "pvc", r.(relation := x + "\0" + y, mountPath := z));
      var b := Binding("ns", "pvc", r.(relation := x, mountPath := y + "\0" + z));
      DedupeKey(a) == DedupeKey(b) && !SameTarget(a, b)
  {
    var a := Binding("ns", "pvc", r.(relation := x + "\0" + y, mountPath := z));
    var b := Binding("ns", "pvc", r.(relation := x, mountPath := y + "\0" + z));
    assert |x + "\0" + y| > |x|;
    var head := ["ns", "pvc", r.sourceType, r.sourceNamespace, r.sourceName, r.sourceUID];
    JoinTail(head, x + "\0" + y, z);
    JoinTail(head, x, y + "\0" + z);
    assert TargetFields(a) == head + [x + "\0" + y, z] && TargetFields(b) == head + [x, y + "\0" + z];
    assert (x + "\0" + y) + "\0" + z == x + "\0" + (y + "\0" + z);
  }

  // Of two targets that share a key deduping keeps one and loses the other.
  lemma CollidingTargetIsLost(a: Binding, b: Binding, sorted: seq<Binding>)
    requires DedupeKey(a) == DedupeKey(b) && a != b && IsSortOf(sorted, [a, b])
    ensures a in FirstPerKey(sorted) <==> b !in FirstPerKey(sorted)
  {
    hide DedupeKey, FirstPerKey, IsSorted;
    DedupeCoversKeys([a, b], sorted);
    FirstPerKeyMeans(sorted);
    assert a in [a, b] && KeyIn(FirstPerKey(sorted), DedupeKey(a));
  }

  lemma {:induction false} JoinTail(head: seq<string>, x: string, y: string)
    ensures JoinNul(head + [x, y]) == JoinNul(head + [x + "\0" + y])
  {
    if head == [] {
      assert [] + [x, y] == [x, y] && [x, y][1..] == [y] && [] + [x + "\0" + y] == [x + "\0" + y];
    } else {
      JoinTail(head[1..], x, y);
      assert (head + [x, y])[1..] == head[1..] + [x, y];
      assert (head + [x + "\0" + y])[1..] == head[1..] + [x + "\0" + y];
    }
  }
}
