/** Token records and their viewer index, over every run of the store. */
module TokenIndex {
  import opened Results
  import opened Cache
  import opened StoreModel
  import opened StoreInvariants

  ghost predicate NoTokenOf(t: TokenTable, viewer: string) {
    viewer !in t.byViewer && forall x :: x in t.records ==> x.value.viewerSessionID != viewer
  }

  lemma DropLeavesNone(t: TokenTable, viewers: set<string>)
    requires TokensOk(t)
    ensures forall v :: v in viewers ==> NoTokenOf(DropTokens(t, viewers), v)
  {
    DropTokensOk(t, viewers);
  }

  /** A viewer never has two token records. */
  lemma OneRecordPerViewer(c: Capacities, ops: seq<StoreOp>, i: nat, j: nat)
    requires var records := After(c, ops).tokens.records;
      i < |records| && j < |records| && records[i].value.viewerSessionID == records[j].value.viewerSessionID
    ensures i == j
  {
    TraceOk(c, ops);
    var records := After(c, ops).tokens.records;
    assert records[i] in records && records[j] in records;
    assert records[i].key == records[j].key;
  }

  /** The viewers a call finds gone: deleted, missing or expired when asked for, listed or purged. */
  ghost function Departed(s: StoreState, op: StoreOp): set<string> {
    match op
    case DeleteViewerSession(id) => {id}
    case GetViewerSession(id, now) => if Lookup(s.viewers.sessions, id, now).None? then {id} else {}
    case ListViewerSessionsByPod(pod, _, now) => Missing(s.viewers.sessions, ViewersOf(s.viewers, pod), now)
    case PurgeExpired(now) => DeadKeys(s.viewers.sessions, now)
    case _ => {}
  }

  lemma PurgeKeepsNone(t: TokenTable, dead: set<string>, now: Time)
    requires TokensOk(t)
    ensures forall v :: v in dead ==> NoTokenOf(PurgeTokens(t, dead, now), v)
  {
    DropLeavesNone(t, dead);
  }

  /** After the call that finds a viewer gone, no token record and no index entry of it is left. */
  lemma DepartedViewersLoseTheirTokens(c: Capacities, ops: seq<StoreOp>, op: StoreOp, viewer: string)
    requires viewer in Departed(After(c, ops), op)
    ensures NoTokenOf(Step(After(c, ops), op).tokens, viewer)
  {
    var s := After(c, ops);
    TraceOk(c, ops);
    hide After, TokensOk, DropTokens, PurgeTokens, NoTokenOf;
    match op
    case DeleteViewerSession(id) => DropLeavesNone(s.tokens, {id});
    case GetViewerSession(id, now) => DropLeavesNone(s.tokens, {id});
    case ListViewerSessionsByPod(pod, _, now) =>
      DropLeavesNone(s.tokens, Missing(s.viewers.sessions, ViewersOf(s.viewers, pod), now));
    case PurgeExpired(now) => PurgeKeepsNone(s.tokens, DeadKeys(s.viewers.sessions, now), now);
    case _ =>
  }

  // ----- when index and records are in bijection -----

  ghost predicate Indexed(t: TokenTable, viewer: string, hash: string) {
    viewer in t.byViewer && t.byViewer[viewer] == hash
  }

  ghost predicate Recorded(t: TokenTable, viewer: string, hash: string) {
    exists x :: x in t.records && x.key == hash && x.value.viewerSessionID == viewer
  }

  /** Every index entry leads to a stored record of that very viewer; the other direction always holds. */
  ghost predicate OneToOne(t: TokenTable) {
    TokensOk(t) && forall v :: v in t.byViewer ==> Recorded(t, v, t.byViewer[v])
  }

  /** No other viewer is indexed under the hash of the record. */
  ghost predicate OwnHash(t: TokenTable, r: TokenRecord) {
    forall u :: Indexed(t, u, r.tokenHash) ==> u == r.viewerSessionID
  }

  lemma DropOneToOne(t: TokenTable, viewers: set<string>)
    requires OneToOne(t)
    ensures OneToOne(DropTokens(t, viewers))
  {
    DropTokensOk(t, viewers);
    var t' := DropTokens(t, viewers);
    forall v | v in t'.byViewer ensures Recorded(t', v, t'.byViewer[v]) {
      DroppedEntries(t, viewers, v);
      DroppedKeeps(t, viewers, v);
    }
    hide TokensOk, DropTokens, Recorded;
  }

  lemma DroppedKeeps(t: TokenTable, viewers: set<string>, v: string)
    requires OneToOne(t) && v in t.byViewer && v !in viewers
    ensures Recorded(DropTokens(t, viewers), v, t.byViewer[v])
  {
    DropTokensOk(t, viewers);
    var x :| x in t.records && x.key == t.byViewer[v] && x.value.viewerSessionID == v;
    OnlyOwnerIsIndexed(t, x);
    hide DropTokens, OneToOne;
    forall u | u in viewers && u in t.byViewer ensures t.byViewer[u] != x.key { assert !Indexed(t, u, x.key); }
    assert KeptToken(t, x, viewers);
  }

  lemma DroppedEntries(t: TokenTable, viewers: set<string>, v: string)
    ensures v in DropTokens(t, viewers).byViewer <==> v in t.byViewer && v !in viewers
    ensures v in DropTokens(t, viewers).byViewer ==> DropTokens(t, viewers).byViewer[v] == t.byViewer[v]
  {}

  // A record of a one-to-one table is indexed by its owner only.
  lemma OnlyOwnerIsIndexed(t: TokenTable, x: Slot<string, TokenRecord>)
    requires OneToOne(t) && x in t.records
    ensures forall u :: Indexed(t, u, x.key) ==> u == x.value.viewerSessionID
  {
    forall u | Indexed(t, u, x.key) ensures u == x.value.viewerSessionID {
      var y :| y in t.records && y.key == x.key && y.value.viewerSessionID == u;
      UniqueSlot(t.records, x);
    }
  }

  // The table of a put once the viewer's other token is gone.
  ghost function WithoutOther(t: TokenTable, r: TokenRecord): TokenTable {
    var v := r.viewerSessionID;
    if v in t.byViewer && t.byViewer[v] != r.tokenHash then DropTokens(t, {v}) else t
  }

  lemma WithoutOtherKeeps(t: TokenTable, r: TokenRecord)
    requires OneToOne(t)
    ensures var t1 := WithoutOther(t, r);
      && OneToOne(t1)
      && forall u :: Indexed(t1, u, r.tokenHash) <==> Indexed(t, u, r.tokenHash)
  {
    var v := r.viewerSessionID;
    DropOneToOne(t, {v});
    forall u ensures Indexed(WithoutOther(t, r), u, r.tokenHash) <==> Indexed(t, u, r.tokenHash) { DroppedEntries(t, {v}, u); }
    hide DropTokens, OneToOne;
  }

  /** A put keeps entries and records one to one if and only if no other viewer is indexed under its hash. */
  lemma PutOneToOneExactly(t: TokenTable, r: TokenRecord)
    requires OneToOne(t)
    ensures OneToOne(PutToken(t, r)) <==> OwnHash(t, r)
  {
    var t1 := WithoutOther(t, r);
    WithoutOtherKeeps(t, r);
    PutTokenOk(t, r);
    hide WithoutOther, OneToOne, TokensOk;
    if OwnHash(t, r) { PutOwnHash(t, r); } else { PutSharedHash(t, r); }
  }

  // What is indexed and recorded after a put.
  lemma PutTokenEntries(t: TokenTable, r: TokenRecord)
    requires TokensOk(WithoutOther(t, r))
    ensures var t1, t' := WithoutOther(t, r), PutToken(t, r);
      var gone := Evicted(t1.records, t1.capacity, r.tokenHash);
      && Distinct(t'.records) && Slot(r.tokenHash, r, r.expiresAt) in t'.records
      && (forall x :: x in t1.records && x.key != r.tokenHash && gone != Some(x.key) ==> x in t'.records)
      && (gone.Some? ==> gone.value != r.tokenHash && r.tokenHash !in Keys(t1.records))
      && Indexed(t', r.viewerSessionID, r.tokenHash)
      && forall u, h :: u != r.viewerSessionID ==> (Indexed(t', u, h) <==> Indexed(t1, u, h) && gone != Some(h))
  {
    var t1 := WithoutOther(t, r);
    PutFacts(t1.records, t1.capacity, Slot(r.tokenHash, r, r.expiresAt));
    hide AfterPut, DropTokens, TokensOk;
  }

  lemma PutOwnHash(t: TokenTable, r: TokenRecord)
    requires OneToOne(WithoutOther(t, r)) && TokensOk(PutToken(t, r)) && OwnHash(t, r)
    requires forall u :: Indexed(WithoutOther(t, r), u, r.tokenHash) <==> Indexed(t, u, r.tokenHash)
    ensures OneToOne(PutToken(t, r))
  {
    var t1, t' := WithoutOther(t, r), PutToken(t, r);
    PutTokenEntries(t, r);
    hide WithoutOther, PutToken, TokensOk, Evicted, Keys;
    forall u | u in t'.byViewer ensures Recorded(t', u, t'.byViewer[u]) {
      var h := t'.byViewer[u];
      assert Indexed(t', u, h);
      if u != r.viewerSessionID {
        assert Indexed(t1, u, h);
        var x :| x in t1.records && x.key == h && x.value.viewerSessionID == u;
        assert x in t'.records;
      }
    }
  }

  lemma PutSharedHash(t: TokenTable, r: TokenRecord)
    requires OneToOne(WithoutOther(t, r)) && !OwnHash(t, r)
    requires forall u :: Indexed(WithoutOther(t, r), u, r.tokenHash) <==> Indexed(t, u, r.tokenHash)
    ensures !OneToOne(PutToken(t, r))
  {
    var t' := PutToken(t, r);
    PutTokenEntries(t, r);
    var u :| Indexed(t, u, r.tokenHash) && u != r.viewerSessionID;
    hide WithoutOther, PutToken, Evicted, Keys;
    assert Indexed(t', u, r.tokenHash);
    if OneToOne(t') { OnlyOwnerIsIndexed(t', Slot(r.tokenHash, r, r.expiresAt)); }
  }

  // Touching a live record leaves all entries in place.
  lemma TouchOneToOne(t: TokenTable, viewer: string, now: Time)
    requires OneToOne(t) && viewer in t.byViewer && Lookup(t.records, t.byViewer[viewer], now).Some?
    ensures OneToOne(t.(records := AfterGet(t.records, t.byViewer[viewer], now)))
  {
    GetFacts(t.records, t.byViewer[viewer], now);
    OthersStayRecorded(t, viewer, now);
    var x :| x in t.records && x.key == t.byViewer[viewer] && x.value.viewerSessionID == viewer;
    UniqueSlot(t.records, x);
    hide AfterGet, Keep, Keys;
    assert x in AfterGet(t.records, t.byViewer[viewer], now);
  }

  // An expired record goes, and the entry of its viewer with it.
  lemma ExpireOneToOne(t: TokenTable, viewer: string, now: Time)
    requires OneToOne(t) && viewer in t.byViewer && Lookup(t.records, t.byViewer[viewer], now).None?
    ensures OneToOne(t.(records := AfterGet(t.records, t.byViewer[viewer], now), byViewer := t.byViewer - {viewer}))
  {
    GetTokenOk(t, viewer, "", now);
    OthersStayRecorded(t, viewer, now);
    hide AfterGet, Lookup, Keep, Keys, TokensOk;
  }

  lemma GetOneToOne(t: TokenTable, viewer: string, pod: string, now: Time)
    requires OneToOne(t)
    ensures OneToOne(GetToken(t, viewer, pod, now))
  {
    if viewer in t.byViewer {
      hide OneToOne, UsableToken, Lookup, AfterGet, DropTokens;
      if Lookup(t.records, t.byViewer[viewer], now).None? {
        ExpireOneToOne(t, viewer, now);
      } else {
        TouchOneToOne(t, viewer, now);
        DropOneToOne(t.(records := AfterGet(t.records, t.byViewer[viewer], now)), {viewer});
      }
    }
  }

  // The records of the other viewers are still there.
  lemma OthersStayRecorded(t: TokenTable, viewer: string, now: Time)
    requires OneToOne(t) && viewer in t.byViewer
    ensures forall v :: v in t.byViewer && v != viewer ==>
      exists x :: x in AfterGet(t.records, t.byViewer[viewer], now) && x.key == t.byViewer[v] && x.value.viewerSessionID == v
  {
    var hash := t.byViewer[viewer];
    GetFacts(t.records, hash, now);
    hide AfterGet, Lookup, Keep;
    forall v | v in t.byViewer && v != viewer
      ensures exists x :: x in AfterGet(t.records, hash, now) && x.key == t.byViewer[v] && x.value.viewerSessionID == v
    {
      var x :| x in t.records && x.key == t.byViewer[v] && x.value.viewerSessionID == v;
      OnlyOwnerIsIndexed(t, x);
      assert Indexed(t, viewer, hash);
      assert x in AfterGet(t.records, hash, now);
    }
  }

  lemma PurgeOneToOne(t: TokenTable, dead: set<string>, now: Time)
    requires OneToOne(t)
    ensures OneToOne(PurgeTokens(t, dead, now))
  {
    PurgeTokensOk(t, dead, now);
    DropOneToOne(t, dead);
    var t1, t' := DropTokens(t, dead), PurgeTokens(t, dead, now);
    hide DropTokens, TokensOk;
    forall v | v in t'.byViewer ensures Recorded(t', v, t'.byViewer[v]) {
      var x :| x in t1.records && x.key == t1.byViewer[v] && x.value.viewerSessionID == v;
      assert x in t'.records;
    }
  }

  lemma StepOneToOneExactly(s: StoreState, op: StoreOp)
    requires OneToOne(s.tokens)
    ensures OneToOne(Step(s, op).tokens) <==> (op.PutTokenRecord? ==> OwnHash(s.tokens, op.record))
  {
    hide OneToOne, DropTokens, PutToken, GetToken, PurgeTokens;
    match op
    case GetViewerSession(id, now) => DropOneToOne(s.tokens, {id});
    case DeleteViewerSession(id) => DropOneToOne(s.tokens, {id});
    case ListViewerSessionsByPod(pod, visited, now) =>
      DropOneToOne(s.tokens, Missing(s.viewers.sessions, ViewersOf(s.viewers, pod), now));
    case PutTokenRecord(r) => PutOneToOneExactly(s.tokens, r);
    case GetTokenRecord(v, p, now) => GetOneToOne(s.tokens, v, p, now);
    case PurgeExpired(now) => PurgeOneToOne(s.tokens, DeadKeys(s.viewers.sessions, now), now);
    case _ =>
  }

  /** Every token of the run is put under a hash no other viewer is indexed under at that moment. */
  ghost predicate PutsOwnHash(c: Capacities, ops: seq<StoreOp>) {
    ops == []
    || var before, op := ops[..|ops| - 1], ops[|ops| - 1];
       PutsOwnHash(c, before) && (op.PutTokenRecord? ==> OwnHash(After(c, before).tokens, op.record))
  }

  /** One to one after the run and after every part of it. */
  ghost predicate AlwaysOneToOne(c: Capacities, ops: seq<StoreOp>) {
    OneToOne(After(c, ops).tokens) && (ops == [] || AlwaysOneToOne(c, ops[..|ops| - 1]))
  }

  /** Entries and records always correspond if and only if no token is put under the hash of another viewer. */
  lemma {:induction false} AlwaysOneToOneExactly(c: Capacities, ops: seq<StoreOp>)
    ensures AlwaysOneToOne(c, ops) <==> PutsOwnHash(c, ops)
  {
    if ops != [] {
      var n := |ops| - 1;
      AlwaysOneToOneExactly(c, ops[..n]);
      AfterLast(c, ops);
      hide After, Step, OneToOne, OwnHash;
      if AlwaysOneToOne(c, ops[..n]) { StepOneToOneExactly(After(c, ops[..n]), ops[n]); }
    }
  }

  lemma {:induction false} DistinctKeysCount<V(!new)>(s: Recency<string, V>)
    requires Distinct(s)
    ensures |Keys(s)| == |s|
  {
    if s != [] {
      DistinctKeysCount(s[1..]);
      assert Keys(s) == {s[0].key} + Keys(s[1..]) by {
        assert s[0] in s;
        assert forall x :: x in s <==> x == s[0] || x in s[1..];
      }
      assert s[0].key !in Keys(s[1..]);
    }
  }

  lemma {:induction false} InjectiveMapCount(m: map<string, string>, image: set<string>)
    requires forall k1, k2 :: k1 in m && k2 in m && m[k1] == m[k2] ==> k1 == k2
    requires image == set k | k in m :: m[k]
    ensures |m| == |image|
  {
    if m != map[] {
      var k :| k in m;
      var rest := m - {k};
      assert image - {m[k]} == set j | j in rest :: rest[j] by {
        assert forall j :: j in rest ==> m[j] == rest[j] && m[j] != m[k];
        assert forall j :: j in m <==> j in rest || j == k;
      }
      InjectiveMapCount(rest, image - {m[k]});
      assert m.Keys == rest.Keys + {k};
      assert |m.Keys| == |rest.Keys| + 1;
      assert |image| == |image - {m[k]}| + 1;
    }
  }

  /**
   * If no token is put under the hash of another viewer, index entries and records correspond one
   * to one, so both stay within the capacity of the record cache.
   */
  lemma IndexAndRecordsAreInBijection(c: Capacities, ops: seq<StoreOp>)
    requires PutsOwnHash(c, ops)
    ensures var t := After(c, ops).tokens;
      && (forall v, h :: Indexed(t, v, h) <==> Recorded(t, v, h))
      && |t.byViewer| == |t.records| <= t.capacity
  {
    AlwaysOneToOneExactly(c, ops);
    var t := After(c, ops).tokens;
    hide After;
    forall v1, v2 | v1 in t.byViewer && v2 in t.byViewer && t.byViewer[v1] == t.byViewer[v2] ensures v1 == v2 {
      var x :| x in t.records && x.key == t.byViewer[v1] && x.value.viewerSessionID == v1;
      OnlyOwnerIsIndexed(t, x);
      assert Indexed(t, v2, x.key);
    }
    DistinctKeysCount(t.records);
    assert Keys(t.records) == set v | v in t.byViewer :: t.byViewer[v];
    InjectiveMapCount(t.byViewer, Keys(t.records));
  }

  // ----- a simpler condition that suffices -----

  /** No two calls store the same token hash for different viewers. */
  ghost predicate NoSharedHash(ops: seq<StoreOp>) {
    forall i, j :: 0 <= i < |ops| && 0 <= j < |ops| && ops[i].PutTokenRecord? && ops[j].PutTokenRecord?
      && ops[i].record.tokenHash == ops[j].record.tokenHash
      ==> ops[i].record.viewerSessionID == ops[j].record.viewerSessionID
  }

  ghost predicate Stores(op: StoreOp, hash: string, viewer: string) {
    op.PutTokenRecord? && op.record.tokenHash == hash && op.record.viewerSessionID == viewer
  }

  // An index entry after a call was there before, or was just put.
  lemma EntryWasIndexed(s: StoreState, op: StoreOp, viewer: string, hash: string)
    requires Indexed(Step(s, op).tokens, viewer, hash)
    ensures Indexed(s.tokens, viewer, hash) || Stores(op, hash, viewer)
  {}

  lemma {:induction false} EntriesWereStored(c: Capacities, ops: seq<StoreOp>, viewer: string, hash: string)
    requires Indexed(After(c, ops).tokens, viewer, hash)
    ensures exists i :: 0 <= i < |ops| && Stores(ops[i], hash, viewer)
  {
    if ops == [] {
      assert false;
    } else {
      var n := |ops| - 1;
      AfterLast(c, ops);
      EntryWasIndexed(After(c, ops[..n]), ops[n], viewer, hash);
      hide After, Step, Indexed;
      if !Stores(ops[n], hash, viewer) {
        EntriesWereStored(c, ops[..n], viewer, hash);
        var i :| 0 <= i < n && Stores(ops[..n][i], hash, viewer);
        assert Stores(ops[i], hash, viewer);
      }
    }
  }

  lemma {:induction false} NoSharedHashSuffices(c: Capacities, ops: seq<StoreOp>)
    requires NoSharedHash(ops)
    ensures PutsOwnHash(c, ops)
  {
    if ops != [] {
      var n := |ops| - 1;
      assert forall i :: 0 <= i < n ==> ops[..n][i] == ops[i];
      hide After;
      NoSharedHashSuffices(c, ops[..n]);
      if ops[n].PutTokenRecord? {
        var r := ops[n].record;
        forall u | Indexed(After(c, ops[..n]).tokens, u, r.tokenHash) ensures u == r.viewerSessionID {
          EntriesWereStored(c, ops[..n], u, r.tokenHash);
          var i :| 0 <= i < n && Stores(ops[..n][i], r.tokenHash, u);
          assert Stores(ops[i], r.tokenHash, u);
        }
      }
    }
  }

  // The first two puts into a record cache for one record, both under the same hash.
  lemma FirstPut(r: TokenRecord)
    ensures PutToken(TokenTable(1, [], map[]), r)
      == TokenTable(1, [Slot(r.tokenHash, r, r.expiresAt)], map[r.viewerSessionID := r.tokenHash])
  {}

  lemma SecondPut(r: TokenRecord, viewer: string)
    requires viewer != r.viewerSessionID
    ensures PutToken(TokenTable(1, [Slot(r.tokenHash, r, r.expiresAt)], map[viewer := r.tokenHash]), r)
      == TokenTable(1, [Slot(r.tokenHash, r, r.expiresAt)], map[viewer := r.tokenHash, r.viewerSessionID := r.tokenHash])
  {}

  /** Without that condition the bound fails: two viewers put under one hash are both indexed in a cache for one record. */
  lemma SharedHashOutgrowsTheCache(r: TokenRecord, viewer: string)
    requires viewer != r.viewerSessionID
    ensures var other := r.(viewerSessionID := viewer);
      var t := After(Capacities(1, 1, 1, 1, 1), [PutTokenRecord(other), PutTokenRecord(r)]).tokens;
      t.byViewer == map[viewer := r.tokenHash, r.viewerSessionID := r.tokenHash] && |t.records| == t.capacity == 1
  {
    var other := r.(viewerSessionID := viewer);
    var ops := [PutTokenRecord(other), PutTokenRecord(r)];
    FirstPut(other);
    SecondPut(r, viewer);
    hide PutToken;
    assert ops[..1] == [PutTokenRecord(other)] && ops[..1][..0] == [];
    assert After(Capacities(1, 1, 1, 1, 1), ops[..1]).tokens == PutToken(TokenTable(1, [], map[]), other);
  }
}
