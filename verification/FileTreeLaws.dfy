/** What the rows of a file table satisfy, for every listing, expansion and branch map, cyclic or not. */
module FileTreeLaws {
  import opened Results
  import opened FileTree

  // Each law is one induction over the cases of Unfold.

  lemma {:induction false} RowsGrow(t: Tree, b: Table, entries: seq<FileEntry>, parent: Option<string>, ancestors: set<string>)
    ensures b.rows <= Append(t, b, entries, parent, ancestors).rows
    decreases |t.expanded - b.seen|, |entries|
  {
    Unfold(t, b, entries, parent, ancestors);
    hide Append;
    if entries != [] && !Full(t, b) {
      var entry, rest := entries[0], entries[1..];
      if Refused(t, b, entry, parent, ancestors) {
        RowsGrow(t, b, rest, parent, ancestors);
      } else if Recurses(t, entry) {
        var inner := Append(t, AfterEntry(t, b, entry), ChildrenOf(t, entry.path), Some(entry.path), ancestors + {entry.path});
        RowsGrow(t, AfterEntry(t, b, entry), ChildrenOf(t, entry.path), Some(entry.path), ancestors + {entry.path});
        RowsGrow(t, inner, rest, parent, ancestors);
      } else {
        RowsGrow(t, AfterEntry(t, b, entry), rest, parent, ancestors);
      }
    }
  }

  // ----- a row budget only truncates -----

  /** The table a smaller budget gives: the same one, or the first n rows of it. */
  predicate CutAt(n: int, a: Table, b: Table) {
    if |a.rows| < n then a == b else |a.rows| <= |b.rows| && a.rows == b.rows[..|a.rows|]
  }

  predicate WithinBudget(n: int, a: Table) { |a.rows| <= (if n < 0 then 0 else n) }

  // The budget neither refuses nor opens an entry, and an entry stays cut by it.
  lemma BudgetDecidesNothing(t: Tree, n: int, a: Table, b: Table, entry: FileEntry, parent: Option<string>, ancestors: set<string>)
    requires a == b && |a.rows| < n <= t.maxRows
    ensures var s := t.(maxRows := n);
      && Refused(s, a, entry, parent, ancestors) == Refused(t, b, entry, parent, ancestors)
      && Recurses(s, entry) == Recurses(t, entry) && ChildrenOf(s, entry.path) == ChildrenOf(t, entry.path)
      && CutAt(n, AfterEntry(s, a, entry), AfterEntry(t, b, entry)) && WithinBudget(n, AfterEntry(s, a, entry))
      && b.seen + {entry.path} == AfterEntry(t, b, entry).seen
  {}

  lemma {:induction false} BudgetCuts(
    t: Tree, n: int, a: Table, b: Table, entries: seq<FileEntry>, parent: Option<string>, ancestors: set<string>)
    requires n <= t.maxRows && CutAt(n, a, b) && WithinBudget(n, a)
    ensures var small := Append(t.(maxRows := n), a, entries, parent, ancestors);
      CutAt(n, small, Append(t, b, entries, parent, ancestors)) && WithinBudget(n, small)
    decreases |t.expanded - b.seen|, |entries|
  {
    var s := t.(maxRows := n);
    if |a.rows| >= n {
      Unfold(s, a, entries, parent, ancestors);
      RowsGrow(t, b, entries, parent, ancestors);
      hide Append;
    } else {
      Unfold(s, a, entries, parent, ancestors);
      Unfold(t, b, entries, parent, ancestors);
      hide Append;
      if entries != [] {
        var entry, rest := entries[0], entries[1..];
        BudgetDecidesNothing(t, n, a, b, entry, parent, ancestors);
        hide Refused, Recurses, AfterEntry, ChildrenOf;
        if Refused(t, b, entry, parent, ancestors) {
          BudgetCuts(t, n, a, b, rest, parent, ancestors);
        } else {
          var below := ancestors + {entry.path};
          var a1, b1 := AfterEntry(s, a, entry), AfterEntry(t, b, entry);
          if Recurses(t, entry) {
            BudgetCuts(t, n, a1, b1, ChildrenOf(t, entry.path), Some(entry.path), below);
            BudgetCuts(t, n, Append(s, a1, ChildrenOf(t, entry.path), Some(entry.path), below),
                       Append(t, b1, ChildrenOf(t, entry.path), Some(entry.path), below), rest, parent, ancestors);
          } else {
            BudgetCuts(t, n, a1, b1, rest, parent, ancestors);
          }
        }
      }
    }
  }

  /** For budgets n <= m the rows built with n are exactly the first n rows of those built with m. */
  lemma BudgetOnlyTruncates(t: Tree, n: nat, entries: seq<FileEntry>)
    requires n <= t.maxRows
    ensures var all := BuildFileTableRows(t, entries);
      BuildFileTableRows(t.(maxRows := n), entries) == all[..if n < |all| then n else |all|]
    ensures |BuildFileTableRows(t.(maxRows := n), entries)| <= n
  {
    BudgetCuts(t, n, Table([], {}), Table([], {}), entries, None, {});
  }

  // ----- rows are distinct and within the depth limit -----

  /** Distinct rows in kind or path, over paths already seen, none deeper than the limit. */
  predicate Sound(t: Tree, b: Table) {
    && (forall i, j :: 0 <= i < j < |b.rows| ==> b.rows[i].Path() != b.rows[j].Path() || b.rows[i].ResourceRow? != b.rows[j].ResourceRow?)
    && (forall i :: 0 <= i < |b.rows| ==> b.rows[i].Path() in b.seen && b.rows[i].Depth() <= t.maxDepth)
  }

  lemma EntryStaysSound(t: Tree, b: Table, entry: FileEntry)
    requires Sound(t, b) && entry.path !in b.seen && entry.depth <= t.maxDepth
    ensures Sound(t, AfterEntry(t, b, entry))
  {}

  lemma {:induction false} AppendStaysSound(t: Tree, b: Table, entries: seq<FileEntry>, parent: Option<string>, ancestors: set<string>)
    requires Sound(t, b)
    ensures Sound(t, Append(t, b, entries, parent, ancestors))
    decreases |t.expanded - b.seen|, |entries|
  {
    Unfold(t, b, entries, parent, ancestors);
    hide Append;
    if entries != [] && !Full(t, b) {
      var entry, rest := entries[0], entries[1..];
      if Refused(t, b, entry, parent, ancestors) {
        AppendStaysSound(t, b, rest, parent, ancestors);
      } else {
        EntryStaysSound(t, b, entry);
        hide Sound;
        if Recurses(t, entry) {
          var inner := Append(t, AfterEntry(t, b, entry), ChildrenOf(t, entry.path), Some(entry.path), ancestors + {entry.path});
          AppendStaysSound(t, AfterEntry(t, b, entry), ChildrenOf(t, entry.path), Some(entry.path), ancestors + {entry.path});
          AppendStaysSound(t, inner, rest, parent, ancestors);
        } else {
          AppendStaysSound(t, AfterEntry(t, b, entry), rest, parent, ancestors);
        }
      }
    }
  }

  lemma IdsDiffer(x: Row, y: Row)
    requires x.Path() != y.Path() || x.ResourceRow? != y.ResourceRow?
    ensures x.Id() != y.Id()
  {
    if x.ResourceRow? != y.ResourceRow? {
      assert x.Id()[0] != y.Id()[0];
    } else {
      var n := if x.ResourceRow? then |"resource:"| else |"branch-error:"|;
      assert x.Id()[n..] == x.Path() && y.Id()[n..] == y.Path();
    }
  }

  /** All row ids are distinct, and no row is deeper than the limit. */
  lemma RowIdsAreDistinct(t: Tree, entries: seq<FileEntry>)
    ensures var rows := BuildFileTableRows(t, entries);
      && (forall i, j :: 0 <= i < j < |rows| ==> rows[i].Id() != rows[j].Id())
      && (forall i :: 0 <= i < |rows| ==> rows[i].Depth() <= t.maxDepth)
  {
    AppendStaysSound(t, Table([], {}), entries, None, {});
    var rows := BuildFileTableRows(t, entries);
    forall i, j | 0 <= i < j < |rows| ensures rows[i].Id() != rows[j].Id() {
      IdsDiffer(rows[i], rows[j]);
    }
  }

  // ----- each opened folder is one block of paths under it -----

  lemma DescendantsChain(folder: string, child: string, below: string)
    requires folder != "" && IsDescendantEntry(Some(folder), child) && IsDescendantEntry(Some(child), below)
    ensures IsDescendantEntry(Some(folder), below)
  {
    if folder != "/" {
      assert child[..|folder| + 1] == folder + "/";
      assert |child| >= |folder| + 1 >= 2;
      assert below[..|child| + 1] == child + "/";
      assert below[..|folder| + 1] == below[..|child| + 1][..|folder| + 1] == (child + "/")[..|folder| + 1] == child[..|folder| + 1];
    }
  }

  predicate AllUnder(rows: seq<Row>, lo: nat, hi: nat, folder: string)
    requires lo <= hi <= |rows|
  {
    forall k :: lo <= k < hi ==> IsDescendantEntry(Some(folder), rows[k].Path())
  }

  // Whatever an entry list adds below a folder lies under every folder that one lies under.
  lemma {:induction false} AppendStaysUnder(
    t: Tree, b: Table, entries: seq<FileEntry>, parent: string, ancestors: set<string>, folder: string)
    requires folder != "" && (folder == parent || IsDescendantEntry(Some(folder), parent))
    ensures var r := Append(t, b, entries, Some(parent), ancestors);
      b.rows <= r.rows && AllUnder(r.rows, |b.rows|, |r.rows|, folder)
    decreases |t.expanded - b.seen|, |entries|
  {
    RowsGrow(t, b, entries, Some(parent), ancestors);
    Unfold(t, b, entries, Some(parent), ancestors);
    hide Append;
    if entries != [] && !Full(t, b) {
      var entry, rest := entries[0], entries[1..];
      if Refused(t, b, entry, Some(parent), ancestors) {
        AppendStaysUnder(t, b, rest, parent, ancestors, folder);
      } else {
        if folder != parent { DescendantsChain(folder, parent, entry.path); }
        hide IsDescendantEntry;
        var b1 := AfterEntry(t, b, entry);
        assert AllUnder(b1.rows, |b.rows|, |b1.rows|, folder);
        if Recurses(t, entry) {
          var inner := Append(t, b1, ChildrenOf(t, entry.path), Some(entry.path), ancestors + {entry.path});
          AppendStaysUnder(t, b1, ChildrenOf(t, entry.path), entry.path, ancestors + {entry.path}, folder);
          AppendStaysUnder(t, inner, rest, parent, ancestors, folder);
          RowsGrow(t, inner, rest, Some(parent), ancestors);
        } else {
          AppendStaysUnder(t, b1, rest, parent, ancestors, folder);
          RowsGrow(t, b1, rest, Some(parent), ancestors);
        }
      }
    }
  }

  // ----- nothing is missed, nothing is made up -----

  /** The entry is an admissible child of the folder the row opens. */
  predicate OpenedBy(t: Tree, row: Row, e: FileEntry) {
    && row.ResourceRow? && Recurses(t, row.entry)
    && e in ChildrenOf(t, row.entry.path) && Admissible(t, Some(row.entry.path), e)
  }

  predicate HasRow(rows: seq<Row>, path: string) {
    exists k :: 0 <= k < |rows| && rows[k].ResourceRow? && rows[k].entry.path == path
  }

  /** The paths seen are the paths of the resource rows. */
  ghost predicate SeenIsRows(b: Table) { forall p :: p in b.seen <==> HasRow(b.rows, p) }

  lemma EntrySeen(t: Tree, b: Table, entry: FileEntry)
    requires SeenIsRows(b)
    ensures SeenIsRows(AfterEntry(t, b, entry)) && entry.path in AfterEntry(t, b, entry).seen
  {
    var b1 := AfterEntry(t, b, entry);
    assert b1.rows[..|b.rows|] == b.rows;
    forall p ensures p in b1.seen <==> HasRow(b1.rows, p) {
      if HasRow(b.rows, p) {
        var k :| 0 <= k < |b.rows| && b.rows[k].ResourceRow? && b.rows[k].entry.path == p;
        assert b1.rows[k] == b.rows[k];
      }
      if p == entry.path { assert b1.rows[|b.rows|] == ResourceRow(entry); }
    }
  }

  // Every admissible entry of the list ends up seen, unless the budget ran out.
  lemma {:induction false} AppendSeesAll(t: Tree, b: Table, entries: seq<FileEntry>, parent: Option<string>, ancestors: set<string>)
    requires ancestors <= b.seen && SeenIsRows(b)
    ensures var r := Append(t, b, entries, parent, ancestors);
      && SeenIsRows(r)
      && (Full(t, r) || forall e :: e in entries && Admissible(t, parent, e) ==> e.path in r.seen)
    decreases |t.expanded - b.seen|, |entries|
  {
    Unfold(t, b, entries, parent, ancestors);
    hide Append;
    if entries != [] && !Full(t, b) {
      var entry, rest := entries[0], entries[1..];
      assert forall e :: e in entries ==> e == entry || e in rest;
      if Refused(t, b, entry, parent, ancestors) {
        AppendSeesAll(t, b, rest, parent, ancestors);
      } else {
        EntrySeen(t, b, entry);
        hide SeenIsRows;
        var b1 := AfterEntry(t, b, entry);
        if Recurses(t, entry) {
          var inner := Append(t, b1, ChildrenOf(t, entry.path), Some(entry.path), ancestors + {entry.path});
          AppendSeesAll(t, b1, ChildrenOf(t, entry.path), Some(entry.path), ancestors + {entry.path});
          AppendSeesAll(t, inner, rest, parent, ancestors);
        } else {
          AppendSeesAll(t, b1, rest, parent, ancestors);
        }
      }
    }
  }

  /**
   * The rows after an opened folder's row up to j are paths under it, and unless the budget ran
   * out every admissible child of it has a row by then.
   */
  ghost predicate Block(t: Tree, rows: seq<Row>, k: nat, j: nat)
    requires k < |rows| && rows[k].ResourceRow?
  {
    var folder := rows[k].entry.path;
    && k < j <= |rows|
    && (folder != "" ==> AllUnder(rows, k + 1, j, folder))
    && (j >= t.maxRows || forall c :: c in ChildrenOf(t, folder) && Admissible(t, Some(folder), c) ==> HasRow(rows[..j], c.path))
  }

  lemma BlockStays(t: Tree, rows: seq<Row>, more: seq<Row>, k: nat, j: nat)
    requires rows <= more && k < |rows| && rows[k].ResourceRow? && Block(t, rows, k, j)
    ensures Block(t, more, k, j)
  {
    assert more[..j] == rows[..j];
    assert forall i :: k <= i < j ==> more[i] == rows[i];
  }

  // The block of the folder just opened ends where its recursion ends.
  lemma OpenedBlock(t: Tree, b: Table, entry: FileEntry, ancestors: set<string>)
    requires ancestors <= b.seen && SeenIsRows(b) && Recurses(t, entry)
    ensures var b1 := AfterEntry(t, b, entry);
      var inner := Append(t, b1, ChildrenOf(t, entry.path), Some(entry.path), ancestors + {entry.path});
      && SeenIsRows(inner) && b1.rows == b.rows + [ResourceRow(entry)] && b1.rows <= inner.rows
      && inner.rows[|b.rows|] == ResourceRow(entry) && Block(t, inner.rows, |b.rows|, |inner.rows|)
  {
    var b1 := AfterEntry(t, b, entry);
    EntrySeen(t, b, entry);
    AppendSeesAll(t, b1, ChildrenOf(t, entry.path), Some(entry.path), ancestors + {entry.path});
    RowsGrow(t, b1, ChildrenOf(t, entry.path), Some(entry.path), ancestors + {entry.path});
    if entry.path != "" {
      AppendStaysUnder(t, b1, ChildrenOf(t, entry.path), entry.path, ancestors + {entry.path}, entry.path);
    }
    var inner := Append(t, b1, ChildrenOf(t, entry.path), Some(entry.path), ancestors + {entry.path});
    hide Append;
    assert inner.rows[..|inner.rows|] == inner.rows;
  }

  lemma EntryRows(t: Tree, b: Table, entry: FileEntry)
    ensures var b1 := AfterEntry(t, b, entry);
      && b.rows <= b1.rows && b1.seen == b.seen + {entry.path}
      && (!Recurses(t, entry) ==> forall k :: |b.rows| <= k < |b1.rows| && b1.rows[k].ResourceRow? ==> !Recurses(t, b1.rows[k].entry))
  {}

  lemma {:induction false} AppendBlock(
    t: Tree, b: Table, entries: seq<FileEntry>, parent: Option<string>, ancestors: set<string>, k: nat) returns (j: nat)
    requires ancestors <= b.seen && SeenIsRows(b)
    requires var rows := Append(t, b, entries, parent, ancestors).rows;
      |b.rows| <= k < |rows| && rows[k].ResourceRow? && Recurses(t, rows[k].entry)
    ensures Block(t, Append(t, b, entries, parent, ancestors).rows, k, j)
    decreases |t.expanded - b.seen|, |entries|
  {
    Unfold(t, b, entries, parent, ancestors);
    hide Append, Recurses, Refused, SeenIsRows, Block;
    var entry, rest := entries[0], entries[1..];
    if Refused(t, b, entry, parent, ancestors) {
      j := AppendBlock(t, b, rest, parent, ancestors, k);
    } else {
      EntrySeen(t, b, entry);
      EntryRows(t, b, entry);
      var b1 := AfterEntry(t, b, entry);
      hide AfterEntry;
      if Recurses(t, entry) {
        OpenedBlock(t, b, entry, ancestors);
        var below := ancestors + {entry.path};
        var inner := Append(t, b1, ChildrenOf(t, entry.path), Some(entry.path), below);
        RowsGrow(t, inner, rest, parent, ancestors);
        var rows := Append(t, inner, rest, parent, ancestors).rows;
        if k == |b.rows| {
          j := |inner.rows|;
          BlockStays(t, inner.rows, rows, k, j);
        } else if k < |inner.rows| {
          j := AppendBlock(t, b1, ChildrenOf(t, entry.path), Some(entry.path), below, k);
          BlockStays(t, inner.rows, rows, k, j);
        } else {
          j := AppendBlock(t, inner, rest, parent, ancestors, k);
        }
      } else {
        RowsGrow(t, b1, rest, parent, ancestors);
        j := AppendBlock(t, b1, rest, parent, ancestors, k);
      }
    }
  }

  /** The rows of each opened folder are one contiguous block of paths under it, holding all of its admissible children not listed before. */
  lemma OpenFoldersAreBlocks(t: Tree, entries: seq<FileEntry>, k: nat)
    requires var rows := BuildFileTableRows(t, entries);
      k < |rows| && rows[k].ResourceRow? && Recurses(t, rows[k].entry)
    ensures exists j :: Block(t, BuildFileTableRows(t, entries), k, j)
  {
    var j := AppendBlock(t, Table([], {}), entries, None, {}, k);
  }

  /** While the budget lasts, every entry within the depth limit has a row, and so has every admissible child of an opened folder. */
  lemma NothingIsMissed(t: Tree, entries: seq<FileEntry>)
    requires |BuildFileTableRows(t, entries)| < t.maxRows
    ensures var rows := BuildFileTableRows(t, entries);
      && (forall e :: e in entries && e.depth <= t.maxDepth ==> HasRow(rows, e.path))
      && (forall k, c :: 0 <= k < |rows| && OpenedBy(t, rows[k], c) ==> HasRow(rows, c.path))
  {
    AppendSeesAll(t, Table([], {}), entries, None, {});
    var rows := BuildFileTableRows(t, entries);
    hide Append;
    forall k, c | 0 <= k < |rows| && OpenedBy(t, rows[k], c) ensures HasRow(rows, c.path) {
      OpenFoldersAreBlocks(t, entries, k);
      var j: nat :| Block(t, rows, k, j);
      assert HasRow(rows[..j], c.path);
      var i :| 0 <= i < j && rows[..j][i].ResourceRow? && rows[..j][i].entry.path == c.path;
      assert rows[i] == rows[..j][i];
    }
  }

  /** The row is an entry of the top list, or a child of a folder opened by an earlier row. */
  ghost predicate Listed(t: Tree, rows: seq<Row>, top: seq<FileEntry>, k: nat)
    requires k < |rows| && rows[k].ResourceRow?
  {
    var e := rows[k].entry;
    || (e in top && Admissible(t, None, e))
    || exists l :: 0 <= l < k && OpenedBy(t, rows[l], e)
  }

  /** Where an entry list comes from: the top, or a folder opened by some row so far. */
  ghost predicate Source(t: Tree, b: Table, top: seq<FileEntry>, entries: seq<FileEntry>, parent: Option<string>) {
    match parent
    case None => forall e :: e in entries ==> e in top
    case Some(folder) =>
      && (forall e :: e in entries ==> e in ChildrenOf(t, folder))
      && exists l :: 0 <= l < |b.rows| && Opened(t, b.rows[l], folder)
  }

  predicate Opened(t: Tree, row: Row, folder: string) { row.ResourceRow? && Recurses(t, row.entry) && row.entry.path == folder }

  ghost predicate AllListed(t: Tree, b: Table, top: seq<FileEntry>) {
    forall k :: 0 <= k < |b.rows| && b.rows[k].ResourceRow? ==> Listed(t, b.rows, top, k)
  }

  lemma SourceStays(t: Tree, b: Table, r: Table, top: seq<FileEntry>, entries: seq<FileEntry>, parent: Option<string>)
    requires Source(t, b, top, entries, parent) && b.rows <= r.rows && entries != []
    ensures Source(t, r, top, entries[1..], parent)
  {
    if parent.Some? {
      var l :| 0 <= l < |b.rows| && Opened(t, b.rows[l], parent.value);
      assert Opened(t, r.rows[l], parent.value);
    }
  }

  lemma EntryListed(t: Tree, b: Table, top: seq<FileEntry>, entries: seq<FileEntry>, parent: Option<string>)
    requires Source(t, b, top, entries, parent) && AllListed(t, b, top) && entries != [] && Admissible(t, parent, entries[0])
    ensures AllListed(t, AfterEntry(t, b, entries[0]), top)
  {
    var entry := entries[0];
    var b1 := AfterEntry(t, b, entry);
    forall k | 0 <= k < |b1.rows| && b1.rows[k].ResourceRow? ensures Listed(t, b1.rows, top, k) {
      if k < |b.rows| {
        assert b1.rows[k] == b.rows[k];
        if !(b.rows[k].entry in top && Admissible(t, None, b.rows[k].entry)) {
          var l :| 0 <= l < k && OpenedBy(t, b.rows[l], b.rows[k].entry);
          assert OpenedBy(t, b1.rows[l], b1.rows[k].entry);
        }
      } else if parent.Some? {
        var l :| 0 <= l < |b.rows| && Opened(t, b.rows[l], parent.value);
        assert OpenedBy(t, b1.rows[l], entry);
      }
    }
  }

  lemma {:induction false} AppendListed(
    t: Tree, b: Table, top: seq<FileEntry>, entries: seq<FileEntry>, parent: Option<string>, ancestors: set<string>)
    requires Source(t, b, top, entries, parent) && AllListed(t, b, top)
    ensures AllListed(t, Append(t, b, entries, parent, ancestors), top)
    decreases |t.expanded - b.seen|, |entries|
  {
    Unfold(t, b, entries, parent, ancestors);
    hide Append;
    if entries != [] && !Full(t, b) {
      var entry, rest := entries[0], entries[1..];
      var b1 := AfterEntry(t, b, entry);
      if Refused(t, b, entry, parent, ancestors) {
        SourceStays(t, b, b, top, entries, parent);
        AppendListed(t, b, top, rest, parent, ancestors);
      } else {
        EntryListed(t, b, top, entries, parent);
        hide AllListed;
        if Recurses(t, entry) {
          assert Opened(t, b1.rows[|b.rows|], entry.path);
          AppendListed(t, b1, top, ChildrenOf(t, entry.path), Some(entry.path), ancestors + {entry.path});
          RowsGrow(t, b1, ChildrenOf(t, entry.path), Some(entry.path), ancestors + {entry.path});
          var inner := Append(t, b1, ChildrenOf(t, entry.path), Some(entry.path), ancestors + {entry.path});
          SourceStays(t, b, inner, top, entries, parent);
          hide Source;
          AppendListed(t, inner, top, rest, parent, ancestors);
        } else {
          SourceStays(t, b, b1, top, entries, parent);
          hide Source;
          AppendListed(t, b1, top, rest, parent, ancestors);
        }
      }
    }
  }

  /** No row is made up: each is an entry of the listing or a child of a folder opened by an earlier row. */
  lemma EveryRowIsListed(t: Tree, entries: seq<FileEntry>, k: nat)
    requires k < |BuildFileTableRows(t, entries)| && BuildFileTableRows(t, entries)[k].ResourceRow?
    ensures Listed(t, BuildFileTableRows(t, entries), entries, k)
  {
    AppendListed(t, Table([], {}), entries, entries, None, {});
  }

  // ----- the ancestor guard is redundant -----

  /** The same build without the ancestor set. */
  function AppendUnguarded(t: Tree, b: Table, entries: seq<FileEntry>, parent: Option<string>): (r: Table)
    ensures b.seen <= r.seen
    decreases |t.expanded - b.seen|, |entries|
  {
    if entries == [] || Full(t, b) then b
    else
      var entry, rest := entries[0], entries[1..];
      if entry.path in b.seen || !Admissible(t, parent, entry) then AppendUnguarded(t, b, rest, parent)
      else
        var b1 := AfterEntry(t, b, entry);
        MoreSeen(t, b.seen, b1.seen);
        if Recurses(t, entry) then
          OpeningShrinks(t, b.seen, entry.path);
          var inner := AppendUnguarded(t, b1, ChildrenOf(t, entry.path), Some(entry.path));
          MoreSeen(t, b.seen, inner.seen);
          AppendUnguarded(t, inner, rest, parent)
        else AppendUnguarded(t, b1, rest, parent)
  }

  lemma {:induction false} GuardIsRedundant(t: Tree, b: Table, entries: seq<FileEntry>, parent: Option<string>, ancestors: set<string>)
    requires ancestors <= b.seen
    ensures Append(t, b, entries, parent, ancestors) == AppendUnguarded(t, b, entries, parent)
    decreases |t.expanded - b.seen|, |entries|
  {
    Unfold(t, b, entries, parent, ancestors);
    hide Append;
    if entries != [] && !Full(t, b) {
      var entry, rest := entries[0], entries[1..];
      var b1 := AfterEntry(t, b, entry);
      if Refused(t, b, entry, parent, ancestors) {
        GuardIsRedundant(t, b, rest, parent, ancestors);
      } else if Recurses(t, entry) {
        var inner := Append(t, b1, ChildrenOf(t, entry.path), Some(entry.path), ancestors + {entry.path});
        GuardIsRedundant(t, b1, ChildrenOf(t, entry.path), Some(entry.path), ancestors + {entry.path});
        GuardIsRedundant(t, inner, rest, parent, ancestors);
      } else {
        GuardIsRedundant(t, b1, rest, parent, ancestors);
      }
    }
  }

  /** The set of seen paths always contains the ancestors, so dropping the ancestor guard changes no row. */
  lemma RowsWithoutAncestorGuard(t: Tree, entries: seq<FileEntry>)
    ensures BuildFileTableRows(t, entries) == AppendUnguarded(t, Table([], {}), entries, None).rows
  {
    GuardIsRedundant(t, Table([], {}), entries, None, {});
  }

  // ----- a folder whose path is empty -----

  lemma OneEntry(t: Tree, b: Table, entry: FileEntry, parent: Option<string>, ancestors: set<string>)
    requires !Full(t, b) && !Refused(t, b, entry, parent, ancestors)
    ensures Append(t, b, [entry], parent, ancestors)
      == if Recurses(t, entry) then Append(t, PushEntry(b, entry), ChildrenOf(t, entry.path), Some(entry.path), ancestors + {entry.path})
         else AfterEntry(t, b, entry)
  {
    assert [entry][1..] == [];
  }

  lemma RootAcceptsAnything(t: Tree, b: Table, leaf: FileEntry, ancestors: set<string>)
    requires !Full(t, b) && leaf.path !in b.seen && ancestors <= b.seen && !leaf.isDir && leaf.depth <= t.maxDepth
    ensures Append(t, b, [leaf], Some("/"), ancestors) == PushEntry(b, leaf)
  {
    OneEntry(t, b, leaf, Some("/"), ancestors);
  }

  lemma EmptyPathAcceptsRoot(t: Tree, b: Table, root: FileEntry, leaf: FileEntry, ancestors: set<string>)
    requires root.path == "/" && root.isDir && "/" !in b.seen && ancestors <= b.seen && leaf.path !in b.seen && leaf.path != "/"
    requires "/" in t.expanded && Loaded(t, "/") && ChildrenOf(t, "/") == [leaf] && !leaf.isDir
    requires root.depth < t.maxDepth && leaf.depth <= t.maxDepth && |b.rows| + 1 < t.maxRows
    ensures Append(t, b, [root], Some(""), ancestors) == PushEntry(PushEntry(b, root), leaf)
  {
    assert "" + "/" == "/";
    assert "" + "/" <= "/";
    OneEntry(t, b, root, Some(""), ancestors);
    hide Append;
    RootAcceptsAnything(t, PushEntry(b, root), leaf, ancestors + {"/"});
  }

  /** The block law needs a non-empty path: an empty one accepts the root below it, and the root anything. */
  lemma EmptyPathIsNoBlock(t: Tree, top: FileEntry, root: FileEntry, leaf: FileEntry)
    requires top.path == "" && root.path == "/" && top.isDir && root.isDir && {"", "/"} <= t.expanded
    requires leaf.path == "x" && !leaf.isDir
    requires top.depth < t.maxDepth && root.depth < t.maxDepth && leaf.depth <= t.maxDepth && 3 <= t.maxRows
    requires Loaded(t, "") && ChildrenOf(t, "") == [root] && Loaded(t, "/") && ChildrenOf(t, "/") == [leaf]
    ensures BuildFileTableRows(t, [top]) == [ResourceRow(top), ResourceRow(root), ResourceRow(leaf)]
    ensures !IsDescendantEntry(Some(""), leaf.path)
  {
    var b := Table([], {});
    OneEntry(t, b, top, None, {});
    hide Append;
    assert PushEntry(b, top).seen == {""} && {} + {""} == {""};
    EmptyPathAcceptsRoot(t, PushEntry(b, top), root, leaf, {""});
    assert "" + "/" == "/" && "x"[0] != "/"[0];
  }
}
