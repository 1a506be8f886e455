/** The rows below a folder, in terms of the branch map itself: which, in what order, and what a failed branch shows. */
module FolderRows {
  import opened Results
  import opened FileTree
  import opened FileTreeLaws

  /** The path continues the folder's after a slash; everything is under the root. */
  predicate IsUnder(folder: string, path: string) {
    folder == "/" || (|path| > |folder| && path[..|folder|] == folder && path[|folder|] == '/')
  }

  /** An expanded folder above the depth limit. */
  predicate IsOpen(t: Tree, row: Row) {
    row.ResourceRow? && row.entry.isDir && row.entry.path in t.expanded && row.entry.depth < t.maxDepth
  }

  predicate LoadedWith(t: Tree, path: string, es: seq<FileEntry>) {
    path in t.branches && t.branches[path] == Branch(Some(es), None, false)
  }

  predicate FailedWith(t: Tree, path: string, error: string) {
    path in t.branches && t.branches[path].error == Some(error) && !t.branches[path].isLoading
  }

  lemma UnderMeans(folder: string, path: string)
    ensures IsDescendantEntry(Some(folder), path) <==> IsUnder(folder, path)
  {
    var prefix := folder + "/";
    if |path| > |folder| {
      assert path[..|prefix|] == path[..|folder|] + [path[|folder|]];
      if prefix <= path { assert prefix == path[..|prefix|]; }
    }
  }

  lemma OpenedByMeans(t: Tree, row: Row, e: FileEntry)
    ensures OpenedBy(t, row, e) <==>
      IsOpen(t, row) && e.depth <= t.maxDepth && IsUnder(row.entry.path, e.path)
      && exists es :: LoadedWith(t, row.entry.path, es) && e in es
  {
    if row.ResourceRow? {
      UnderMeans(row.entry.path, e.path);
      hide IsDescendantEntry, IsUnder;
      if OpenedBy(t, row, e) { assert LoadedWith(t, row.entry.path, ChildrenOf(t, row.entry.path)); }
    }
  }

  // ----- which rows -----

  /** While the budget lasts, every entry of a loaded branch under its opened folder and within the depth has a row. */
  lemma LoadedEntriesHaveRows(t: Tree, entries: seq<FileEntry>, k: nat, es: seq<FileEntry>, e: FileEntry)
    requires var rows := BuildFileTableRows(t, entries); k < |rows| < t.maxRows && IsOpen(t, rows[k])
    requires LoadedWith(t, BuildFileTableRows(t, entries)[k].entry.path, es)
    requires e in es && IsUnder(BuildFileTableRows(t, entries)[k].entry.path, e.path) && e.depth <= t.maxDepth
    ensures HasRow(BuildFileTableRows(t, entries), e.path)
  {
    NothingIsMissed(t, entries);
    OpenedByMeans(t, BuildFileTableRows(t, entries)[k], e);
    hide BuildFileTableRows, OpenedBy, LoadedWith, IsUnder, HasRow;
  }

  /** Every resource row is an entry of the listing, or of the loaded branch of a folder opened by an earlier row. */
  lemma RowsComeFromLists(t: Tree, entries: seq<FileEntry>, k: nat)
    requires k < |BuildFileTableRows(t, entries)| && BuildFileTableRows(t, entries)[k].ResourceRow?
    ensures var rows := BuildFileTableRows(t, entries);
      var e := rows[k].entry;
      && e.depth <= t.maxDepth
      && (e in entries
          || exists l, es :: 0 <= l < k && IsOpen(t, rows[l]) && LoadedWith(t, rows[l].entry.path, es) && e in es
               && IsUnder(rows[l].entry.path, e.path))
  {
    EveryRowIsListed(t, entries, k);
    var rows := BuildFileTableRows(t, entries);
    var e := rows[k].entry;
    hide BuildFileTableRows, IsOpen, LoadedWith, IsUnder;
    if !(e in entries && Admissible(t, None, e)) {
      var l :| 0 <= l < k && OpenedBy(t, rows[l], e);
      OpenedByMeans(t, rows[l], e);
      var es :| LoadedWith(t, rows[l].entry.path, es) && e in es;
    }
  }

  // ----- in what order -----

  // The build of the rows below the folder at row k.
  lemma {:induction false} FindCall(
    t: Tree, b: Table, entries: seq<FileEntry>, parent: Option<string>, ancestors: set<string>, k: nat)
    returns (at: Table, above: set<string>)
    requires ancestors <= b.seen && SeenIsRows(b)
    requires var rows := Append(t, b, entries, parent, ancestors).rows;
      |b.rows| <= k < |rows| && rows[k].ResourceRow? && Recurses(t, rows[k].entry)
    ensures IsCall(t, Append(t, b, entries, parent, ancestors), k, at, above)
    decreases |t.expanded - b.seen|, |entries|
  {
    Unfold(t, b, entries, parent, ancestors);
    hide Append, Recurses, Refused, SeenIsRows, IsCall;
    var entry, rest := entries[0], entries[1..];
    if Refused(t, b, entry, parent, ancestors) {
      at, above := FindCall(t, b, rest, parent, ancestors, k);
    } else {
      EntrySeen(t, b, entry);
      EntryRows(t, b, entry);
      var b1 := AfterEntry(t, b, entry);
      hide AfterEntry;
      if Recurses(t, entry) {
        OpenedBlock(t, b, entry, ancestors);
        var below := ancestors + {entry.path};
        var inner := Append(t, b1, ChildrenOf(t, entry.path), Some(entry.path), below);
        RowsGrow(t, inner, rest, parent, ancestors);
        FullStays(t, inner, rest, parent, ancestors);
        var r := Append(t, inner, rest, parent, ancestors);
        if k == |b.rows| {
          at, above := b, ancestors;
          CallIs(t, r, b, entry, ancestors);
        } else if k < |inner.rows| {
          at, above := FindCall(t, b1, ChildrenOf(t, entry.path), Some(entry.path), below, k);
          CallStays(t, inner, r, k, at, above);
        } else {
          at, above := FindCall(t, inner, rest, parent, ancestors, k);
        }
      } else {
        RowsGrow(t, b1, rest, parent, ancestors);
        at, above := FindCall(t, b1, rest, parent, ancestors, k);
      }
    }
  }

  function Below(t: Tree, at: Table, entry: FileEntry, above: set<string>): Table {
    Append(t, AfterEntry(t, at, entry), ChildrenOf(t, entry.path), Some(entry.path), above + {entry.path})
  }

  /** The table before the folder at row k, and the rows after its branch, within the whole build. */
  ghost predicate IsCall(t: Tree, r: Table, k: nat, at: Table, above: set<string>) {
    && k < |r.rows| && r.rows[k].ResourceRow? && at.rows == r.rows[..k] && SeenIsRows(at) && above <= at.seen
    && var inner := Below(t, at, r.rows[k].entry, above);
       inner.rows <= r.rows && (Full(t, inner) ==> inner.rows == r.rows)
  }

  lemma FullStays(t: Tree, b: Table, entries: seq<FileEntry>, parent: Option<string>, ancestors: set<string>)
    ensures Full(t, b) ==> Append(t, b, entries, parent, ancestors) == b
  {
    Unfold(t, b, entries, parent, ancestors);
  }

  lemma CallIs(t: Tree, r: Table, b: Table, entry: FileEntry, ancestors: set<string>)
    requires ancestors <= b.seen && SeenIsRows(b) && Recurses(t, entry)
    requires var inner := Below(t, b, entry, ancestors);
      && inner.rows <= r.rows && (Full(t, inner) ==> inner == r)
      && b.rows + [ResourceRow(entry)] <= inner.rows
    ensures IsCall(t, r, |b.rows|, b, ancestors)
  {
    hide Append, AfterEntry, ChildrenOf, SeenIsRows;
    var start := b.rows + [ResourceRow(entry)];
    assert r.rows[..|start|] == start;
    assert r.rows[..|b.rows|] == start[..|b.rows|];
  }

  lemma CallStays(t: Tree, inner: Table, r: Table, k: nat, at: Table, above: set<string>)
    requires IsCall(t, inner, k, at, above) && inner.rows <= r.rows && (Full(t, inner) ==> inner == r)
    ensures IsCall(t, r, k, at, above)
  {
    hide Append, AfterEntry, ChildrenOf, SeenIsRows;
    assert r.rows[..k] == inner.rows[..k] && r.rows[k] == inner.rows[k];
  }

  // Whatever an entry adds to the paths seen is its own path or under it.
  lemma SeenUnder(t: Tree, b: Table, entry: FileEntry, ancestors: set<string>, p: string)
    requires SeenIsRows(b) && ancestors <= b.seen && Recurses(t, entry) && entry.path != ""
    requires p in Below(t, b, entry, ancestors).seen && p !in b.seen
    ensures p == entry.path || IsUnder(entry.path, p)
  {
    var b1 := AfterEntry(t, b, entry);
    EntrySeen(t, b, entry);
    OpenedBlock(t, b, entry, ancestors);
    AppendStaysUnder(t, b1, ChildrenOf(t, entry.path), entry.path, ancestors + {entry.path}, entry.path);
    var inner := Below(t, b, entry, ancestors);
    UnderMeans(entry.path, p);
    hide Append, IsDescendantEntry, IsUnder;
    var i :| 0 <= i < |inner.rows| && inner.rows[i].ResourceRow? && inner.rows[i].entry.path == p;
    if i < |b1.rows| { assert b1.rows[i] == inner.rows[i]; }
  }

  /** Only now, after these: no earlier sibling is that entry or a folder it lies under. */
  predicate FirstListedAt(es: seq<FileEntry>, i: nat, j: nat)
    requires i < j < |es|
  {
    forall h :: 0 <= h <= i ==> es[h].path != "" && es[h].path != es[j].path && (h < i ==> !IsUnder(es[h].path, es[j].path))
  }

  ghost predicate RowBefore(rows: seq<Row>, path: string, m: nat) {
    exists k :: 0 <= k < m <= |rows| && rows[k].ResourceRow? && rows[k].entry.path == path
  }

  lemma RowBeforeStays(rows: seq<Row>, more: seq<Row>, path: string, m: nat)
    requires rows <= more && HasRow(rows, path) && |rows| <= m <= |more|
    ensures RowBefore(more, path, m)
  {
    var k :| 0 <= k < |rows| && rows[k].ResourceRow? && rows[k].entry.path == path;
    assert more[k] == rows[k];
  }

  // A row of a path not seen yet comes after all rows so far.
  lemma NotYet(b: Table, rows: seq<Row>, path: string, m: nat)
    requires SeenIsRows(b) && b.rows <= rows && path !in b.seen
    requires m < |rows| && rows[m].ResourceRow? && rows[m].entry.path == path
    ensures |b.rows| <= m
  {
    if !HasRow(b.rows, path) { NoEarlierRow(b.rows, rows, path, m); }
  }

  lemma NoEarlierRow(before: seq<Row>, rows: seq<Row>, path: string, m: nat)
    requires before <= rows && !HasRow(before, path)
    requires m < |rows| && rows[m].ResourceRow? && rows[m].entry.path == path
    ensures |before| <= m
  {}

  // The first entry of a list, when another one gets a row later.
  lemma HeadInOrder(
    t: Tree, b: Table, es: seq<FileEntry>, parent: Option<string>, ancestors: set<string>, path: string, m: nat)
    requires ancestors <= b.seen && SeenIsRows(b) && es != [] && Admissible(t, parent, es[0])
    requires path !in b.seen && path != es[0].path
    requires var rows := Append(t, b, es, parent, ancestors).rows;
      m < |rows| && rows[m].ResourceRow? && rows[m].entry.path == path
    ensures RowBefore(Append(t, b, es, parent, ancestors).rows, es[0].path, m)
  {
    var r := Append(t, b, es, parent, ancestors);
    RowsGrow(t, b, es, parent, ancestors);
    FullStays(t, b, es, parent, ancestors);
    NotYet(b, r.rows, path, m);
    if Refused(t, b, es[0], parent, ancestors) {
      RowBeforeStays(b.rows, r.rows, es[0].path, m);
    } else {
      FirstRow(t, b, es, parent, ancestors);
      hide Append;
      assert r.rows[|b.rows|] == ResourceRow(es[0]);
    }
  }

  // An entry that is not that path, and no folder it lies under, does not make it seen.
  lemma StillUnseen(t: Tree, b: Table, entry: FileEntry, ancestors: set<string>, path: string)
    requires ancestors <= b.seen && SeenIsRows(b) && path !in b.seen
    requires entry.path != "" && entry.path != path && !IsUnder(entry.path, path)
    ensures SeenIsRows(AfterEntry(t, b, entry)) && path !in AfterEntry(t, b, entry).seen && b.seen <= AfterEntry(t, b, entry).seen
    ensures Recurses(t, entry) ==>
      var inner := Below(t, b, entry, ancestors); SeenIsRows(inner) && path !in inner.seen && b.seen <= inner.seen
  {
    EntrySeen(t, b, entry);
    EntryRows(t, b, entry);
    SeenGrows(t, b, entry, ancestors);
    if Recurses(t, entry) {
      OpenedBlock(t, b, entry, ancestors);
      if path in Below(t, b, entry, ancestors).seen { SeenUnder(t, b, entry, ancestors, path); }
    }
    hide Append, AfterEntry, SeenIsRows, IsUnder;
  }

  // In one entry list the earlier entry gets its row first.
  lemma {:induction false} ListInOrder(
    t: Tree, b: Table, es: seq<FileEntry>, parent: Option<string>, ancestors: set<string>, i: nat, j: nat, m: nat)
    requires ancestors <= b.seen && SeenIsRows(b) && i < j < |es| && FirstListedAt(es, i, j)
    requires es[j].path !in b.seen && Admissible(t, parent, es[i])
    requires var rows := Append(t, b, es, parent, ancestors).rows;
      m < |rows| && rows[m].ResourceRow? && rows[m].entry.path == es[j].path
    ensures RowBefore(Append(t, b, es, parent, ancestors).rows, es[i].path, m)
    decreases i
  {
    hide Append, IsUnder, AfterEntry, ChildrenOf, SeenIsRows, RowBefore, Refused, Recurses, IsDescendantEntry;
    if i == 0 {
      HeadInOrder(t, b, es, parent, ancestors, es[j].path, m);
    } else {
      var entry, rest := es[0], es[1..];
      RestListedAt(es, i, j);
      StillUnseen(t, b, entry, ancestors, es[j].path);
      hide FirstListedAt;
      if Full(t, b) {
        FullStays(t, b, es, parent, ancestors);
        FullStays(t, b, rest, parent, ancestors);
        ListInOrder(t, b, rest, parent, ancestors, i - 1, j - 1, m);
        return;
      }
      NextTable(t, b, es, parent, ancestors);
      if Refused(t, b, entry, parent, ancestors) {
        ListInOrder(t, b, rest, parent, ancestors, i - 1, j - 1, m);
      } else if Recurses(t, entry) {
        ListInOrder(t, Below(t, b, entry, ancestors), rest, parent, ancestors, i - 1, j - 1, m);
      } else {
        ListInOrder(t, AfterEntry(t, b, entry), rest, parent, ancestors, i - 1, j - 1, m);
      }
    }
  }

  lemma RestListedAt(es: seq<FileEntry>, i: nat, j: nat)
    requires 0 < i < j < |es| && FirstListedAt(es, i, j)
    ensures FirstListedAt(es[1..], i - 1, j - 1) && es[1..][i - 1] == es[i] && es[1..][j - 1] == es[j]
    ensures es[0].path != "" && es[0].path != es[j].path && !IsUnder(es[0].path, es[j].path)
  {
    hide IsUnder;
  }

  // The table the rest of a list is appended to.
  lemma NextTable(t: Tree, b: Table, es: seq<FileEntry>, parent: Option<string>, ancestors: set<string>)
    requires es != [] && !Full(t, b)
    ensures var r := Append(t, b, es, parent, ancestors);
      r == Append(t,
        if Refused(t, b, es[0], parent, ancestors) then b
        else if Recurses(t, es[0]) then Below(t, b, es[0], ancestors)
        else AfterEntry(t, b, es[0]), es[1..], parent, ancestors)
  {
    Unfold(t, b, es, parent, ancestors);
    hide Append, AfterEntry, Refused, Recurses;
  }

  lemma SeenGrows(t: Tree, b: Table, entry: FileEntry, ancestors: set<string>)
    ensures b.seen <= Below(t, b, entry, ancestors).seen
  {}

  lemma FirstRow(t: Tree, b: Table, es: seq<FileEntry>, parent: Option<string>, ancestors: set<string>)
    requires es != [] && !Full(t, b) && !Refused(t, b, es[0], parent, ancestors)
    ensures b.rows + [ResourceRow(es[0])] <= Append(t, b, es, parent, ancestors).rows
  {
    var entry, rest := es[0], es[1..];
    var b1 := AfterEntry(t, b, entry);
    Unfold(t, b, es, parent, ancestors);
    hide Append;
    if Recurses(t, entry) {
      var inner := Append(t, b1, ChildrenOf(t, entry.path), Some(entry.path), ancestors + {entry.path});
      RowsGrow(t, b1, ChildrenOf(t, entry.path), Some(entry.path), ancestors + {entry.path});
      RowsGrow(t, inner, rest, parent, ancestors);
    } else {
      RowsGrow(t, b1, rest, parent, ancestors);
    }
  }

  /**
   * The entries of a loaded branch get their rows in its order: a row below the folder for the later
   * one comes after a row for the earlier one, unless the later one was already listed further up.
   */
  lemma SiblingsInOrder(t: Tree, entries: seq<FileEntry>, k: nat, es: seq<FileEntry>, i: nat, j: nat, m: nat)
    requires var rows := BuildFileTableRows(t, entries);
      k < m < |rows| && IsOpen(t, rows[k]) && LoadedWith(t, rows[k].entry.path, es)
      && i < j < |es| && FirstListedAt(es, i, j) && es[i].depth <= t.maxDepth && IsUnder(rows[k].entry.path, es[i].path)
      && rows[m].ResourceRow? && rows[m].entry.path == es[j].path && !HasRow(rows[..k + 1], es[j].path)
    ensures RowBefore(BuildFileTableRows(t, entries), es[i].path, m)
  {
    var b := Table([], {});
    var r := Append(t, b, entries, None, {});
    var entry := r.rows[k].entry;
    var at, above := FindCall(t, b, entries, None, {}, k);
    UnderMeans(entry.path, es[i].path);
    OpenedBlock(t, at, entry, above);
    EntrySeen(t, at, entry);
    var b1, inner := AfterEntry(t, at, entry), Below(t, at, entry, above);
    assert ChildrenOf(t, entry.path) == es && b1.rows == r.rows[..k + 1];
    hide Append, AfterEntry, IsUnder, IsDescendantEntry, FirstListedAt;
    if m < |inner.rows| {
      assert inner.rows[m] == r.rows[m];
      ListInOrder(t, b1, es, Some(entry.path), above + {entry.path}, i, j, m);
      var l :| 0 <= l < m && inner.rows[l].ResourceRow? && inner.rows[l].entry.path == es[i].path;
      assert r.rows[l] == inner.rows[l];
    } else {
      AppendSeesAll(t, b1, es, Some(entry.path), above + {entry.path});
      assert es[i] in es;
      RowBeforeStays(inner.rows, r.rows, es[i].path, m);
    }
  }

  /** So do the entries of the listing itself. */
  lemma TopInOrder(t: Tree, entries: seq<FileEntry>, i: nat, j: nat, m: nat)
    requires i < j < |entries| && FirstListedAt(entries, i, j) && entries[i].depth <= t.maxDepth
    requires var rows := BuildFileTableRows(t, entries); m < |rows| && rows[m].ResourceRow? && rows[m].entry.path == entries[j].path
    ensures RowBefore(BuildFileTableRows(t, entries), entries[i].path, m)
  {
    ListInOrder(t, Table([], {}), entries, None, {}, i, j, m);
  }

  // ----- failed branches -----

  /** An opened folder whose branch failed is followed by its error row, and error rows follow nothing else. */
  ghost predicate ErrorsShown(t: Tree, rows: seq<Row>) {
    && (forall k, error :: 0 <= k < |rows| && k + 1 < t.maxRows && IsOpen(t, rows[k]) && FailedWith(t, rows[k].entry.path, error) ==>
        k + 1 < |rows| && rows[k + 1] == BranchErrorRow(rows[k].entry.depth + 1, error, rows[k].entry.path))
    && (forall k :: 0 <= k < |rows| && rows[k].BranchErrorRow? ==>
        k > 0 && IsOpen(t, rows[k - 1]) && FailedWith(t, rows[k - 1].entry.path, rows[k].error)
        && rows[k].folder == rows[k - 1].entry.path && rows[k].depth == rows[k - 1].entry.depth + 1)
  }

  lemma EntryShowsError(t: Tree, b: Table, entry: FileEntry)
    requires ErrorsShown(t, b.rows) && !Full(t, b)
    ensures ErrorsShown(t, AfterEntry(t, b, entry).rows)
  {
    var rows := AfterEntry(t, b, entry).rows;
    var n := |b.rows|;
    assert forall k :: 0 <= k < n ==> rows[k] == b.rows[k];
    assert rows[n] == ResourceRow(entry);
    assert n + 1 < |rows| ==> |rows| == n + 2 && rows[n + 1].BranchErrorRow?;
    assert IsOpen(t, rows[n]) <==> Opens(t, entry);
    hide IsOpen, Opens, Full;
  }

  lemma {:induction false} AppendShowsErrors(
    t: Tree, b: Table, entries: seq<FileEntry>, parent: Option<string>, ancestors: set<string>)
    requires ErrorsShown(t, b.rows)
    ensures ErrorsShown(t, Append(t, b, entries, parent, ancestors).rows)
    decreases |t.expanded - b.seen|, |entries|
  {
    Unfold(t, b, entries, parent, ancestors);
    hide Append;
    if entries != [] && !Full(t, b) {
      var entry, rest := entries[0], entries[1..];
      var b1 := AfterEntry(t, b, entry);
      if Refused(t, b, entry, parent, ancestors) {
        AppendShowsErrors(t, b, rest, parent, ancestors);
      } else {
        EntryShowsError(t, b, entry);
        hide ErrorsShown;
        if Recurses(t, entry) {
          AppendShowsErrors(t, b1, ChildrenOf(t, entry.path), Some(entry.path), ancestors + {entry.path});
          AppendShowsErrors(t, Below(t, b, entry, ancestors), rest, parent, ancestors);
        } else {
          AppendShowsErrors(t, b1, rest, parent, ancestors);
        }
      }
    }
  }

  /** A failed branch shows exactly its error row after the folder's, as far as the budget goes. */
  lemma FailedBranchesShowTheirError(t: Tree, entries: seq<FileEntry>)
    ensures ErrorsShown(t, BuildFileTableRows(t, entries))
  {
    AppendShowsErrors(t, Table([], {}), entries, None, {});
  }

  // ----- a listing -----

  /** One more item of a listing: left out when it is the trash folder or the folder itself, and otherwise an entry at the end. */
  lemma OneMoreItem(items: seq<Resource>, item: Resource, folder: string, depth: int, normalize: string -> string)
    ensures var before, path := Shown(items, folder, depth, normalize), normalize(item.path);
      Shown(items + [item], folder, depth, normalize) ==
        if path == "/.storage-manager-trash" || path == folder then before
        else before + [FileEntry(depth, item.isDir, item.modified, item.name, path, item.size)]
    ensures Shown([], folder, depth, normalize) == []
  {
    assert (items + [item])[..|items|] == items;
  }

  /** Without options at most 2000 rows are built, none deeper than 32; and how rows are identified. */
  lemma DefaultLimits(row: Row)
    ensures DEFAULT_MAX_FILE_TREE_ROWS == 2000 && DEFAULT_MAX_FILE_TREE_DEPTH == 32
    ensures row.ResourceRow? ==> row.Id() == "resource:" + row.entry.path
    ensures row.BranchErrorRow? ==> row.Id() == "branch-error:" + row.folder
  {}
}
