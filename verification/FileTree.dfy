/**
 * The file table: a listing flattened to entries, and entries flattened with the branches of
 * expanded folders to rows, under a row budget and a depth limit, on a branch map that may be cyclic.
 */
module FileTree {
  import opened Results

  const TRASH_ROOT_PATH := "/.storage-manager-trash"
  const DEFAULT_MAX_FILE_TREE_ROWS := 2000
  const DEFAULT_MAX_FILE_TREE_DEPTH := 32

  datatype FileEntry = FileEntry(depth: int, isDir: bool, modified: string, name: string, path: string, size: int)

  datatype Resource = Resource(isDir: bool, modified: string, name: string, path: string, size: int)

  // ----- one listing -----

  /** Every item of a listing as an entry, except the trash folder and the listed folder itself. */
  function Shown(items: seq<Resource>, folder: string, depth: int, normalize: string -> string): seq<FileEntry> {
    if items == [] then []
    else
      var before, item := Shown(items[..|items| - 1], folder, depth, normalize), items[|items| - 1];
      var path := normalize(item.path);
      if path == TRASH_ROOT_PATH || path == folder then before
      else before + [FileEntry(depth, item.isDir, item.modified, item.name, path, item.size)]
  }

  lemma {:induction false} ShownGrows(items: seq<Resource>, i: nat, folder: string, depth: int, normalize: string -> string)
    requires i <= |items|
    ensures Shown(items[..i], folder, depth, normalize) <= Shown(items, folder, depth, normalize)
    decreases |items| - i
  {
    if i == |items| {
      assert items[..i] == items;
    } else {
      ShownGrows(items, i + 1, folder, depth, normalize);
      assert items[..i + 1][..i] == items[..i];
    }
  }

  function Truncated<T>(s: seq<T>, budget: int): seq<T> {
    if budget <= 0 then [] else if budget < |s| then s[..budget] else s
  }

  /** The first maxEntries shown entries, in the order of the listing. */
  method FlattenResources(items: Option<seq<Resource>>, path: string, depth: int, maxEntries: Option<int>, normalize: string -> string)
    returns (entries: seq<FileEntry>)
    ensures entries == Truncated(
      Shown(if items.Some? then items.value else [], normalize(path), depth, normalize),
      if maxEntries.Some? then maxEntries.value else DEFAULT_MAX_FILE_TREE_ROWS)
    ensures var all := Shown(if items.Some? then items.value else [], normalize(path), depth, normalize);
      var limit := if maxEntries.Some? then maxEntries.value else 2000;
      entries <= all && |entries| == if limit <= 0 then 0 else if limit < |all| then limit else |all|
  {
    var list := if items.Some? then items.value else [];
    var budget := if maxEntries.Some? then maxEntries.value else DEFAULT_MAX_FILE_TREE_ROWS;
    var resourcePath := normalize(path);
    entries := [];
    for i := 0 to |list|
      invariant entries == Shown(list[..i], resourcePath, depth, normalize)
      invariant |entries| <= (if budget < 0 then 0 else budget)
    {
      ShownGrows(list, i, resourcePath, depth, normalize);
      if |entries| >= budget {
        return;
      }
      assert list[..i + 1][..i] == list[..i];
      var item := list[i];
      var itemPath := normalize(item.path);
      if itemPath == TRASH_ROOT_PATH || itemPath == resourcePath {
        continue;
      }
      entries := entries + [FileEntry(depth, item.isDir, item.modified, item.name, itemPath, item.size)];
    }
    assert list[..|list|] == list;
  }

  // ----- rows -----

  /** error is None when it is absent or empty. */
  datatype Branch = Branch(entries: Option<seq<FileEntry>>, error: Option<string>, isLoading: bool)

  datatype Row =
    | ResourceRow(entry: FileEntry)
    | BranchErrorRow(depth: int, error: string, folder: string)
  {
    function Path(): string { if ResourceRow? then entry.path else folder }

    function Depth(): int { if ResourceRow? then entry.depth else depth }

    function Id(): string { if ResourceRow? then "resource:" + entry.path else "branch-error:" + folder }
  }

  /** What stays the same during one build. */
  datatype Tree = Tree(expanded: set<string>, branches: map<string, Branch>, maxDepth: int, maxRows: int)

  /** The rows pushed so far and the paths seen so far. */
  datatype Table = Table(rows: seq<Row>, seen: set<string>)

  predicate IsDescendantEntry(parent: Option<string>, child: string) {
    parent == None || parent == Some("/") || parent.value + "/" <= child
  }

  /** An entry that may get a row below the parent, if its path was not seen yet. */
  predicate Admissible(t: Tree, parent: Option<string>, entry: FileEntry) {
    IsDescendantEntry(parent, entry.path) && entry.depth <= t.maxDepth
  }

  predicate Opens(t: Tree, entry: FileEntry) {
    entry.isDir && entry.path in t.expanded && entry.depth < t.maxDepth
  }

  function BranchOf(t: Tree, path: string): Branch {
    if path in t.branches then t.branches[path] else Branch(None, None, false)
  }

  /** The entries listed below an opened folder, when its branch is loaded. */
  function ChildrenOf(t: Tree, path: string): seq<FileEntry> {
    match BranchOf(t, path).entries case None => [] case Some(entries) => entries
  }

  predicate Loaded(t: Tree, path: string) { !BranchOf(t, path).isLoading && BranchOf(t, path).error.None? }

  function Push(b: Table, row: Row): Table { b.(rows := b.rows + [row]) }

  function PushEntry(b: Table, entry: FileEntry): Table {
    Table(b.rows + [ResourceRow(entry)], b.seen + {entry.path})
  }

  lemma OpeningShrinks(t: Tree, seen: set<string>, path: string)
    requires path in t.expanded && path !in seen
    ensures |t.expanded - (seen + {path})| < |t.expanded - seen|
  {
    assert t.expanded - (seen + {path}) == (t.expanded - seen) - {path};
  }

  lemma MoreSeen(t: Tree, seen: set<string>, more: set<string>)
    requires seen <= more
    ensures |t.expanded - more| <= |t.expanded - seen|
  {
    SubsetSize(t.expanded - more, t.expanded - seen);
  }

  lemma {:induction false} SubsetSize(a: set<string>, b: set<string>)
    requires a <= b
    ensures |a| <= |b|
  {
    if a != {} {
      var x :| x in a;
      SubsetSize(a - {x}, b - {x});
    }
  }

  lemma OpeningAdvances(t: Tree, start: set<string>, seen: set<string>, path: string)
    requires start <= seen && path in t.expanded && path !in seen
    ensures |t.expanded - (seen + {path})| < |t.expanded - start|
  {
    OpeningShrinks(t, seen, path);
    MoreSeen(t, start, seen);
  }

  /** The rows an entry list adds below a parent. */
  function Append(t: Tree, b: Table, entries: seq<FileEntry>, parent: Option<string>, ancestors: set<string>): (r: Table)
    ensures b.seen <= r.seen
    decreases |t.expanded - b.seen|, |entries|
  {
    if entries == [] || |b.rows| >= t.maxRows then b
    else
      var entry, rest := entries[0], entries[1..];
      if entry.path in ancestors || entry.path in b.seen || !Admissible(t, parent, entry) then
        Append(t, b, rest, parent, ancestors)
      else
        var b1 := PushEntry(b, entry);
        MoreSeen(t, b.seen, b1.seen);
        if !Opens(t, entry) || BranchOf(t, entry.path).isLoading then Append(t, b1, rest, parent, ancestors)
        else if BranchOf(t, entry.path).error.Some? then
          if |b1.rows| >= t.maxRows then b1
          else
            var b2 := Push(b1, BranchErrorRow(entry.depth + 1, BranchOf(t, entry.path).error.value, entry.path));
            Append(t, b2, rest, parent, ancestors)
        else
          OpeningShrinks(t, b.seen, entry.path);
          var b2 := Append(t, b1, ChildrenOf(t, entry.path), Some(entry.path), ancestors + {entry.path});
          MoreSeen(t, b.seen, b2.seen);
          Append(t, b2, rest, parent, ancestors)
  }

  function BuildFileTableRows(t: Tree, entries: seq<FileEntry>): seq<Row> {
    Append(t, Table([], {}), entries, None, {}).rows
  }

  // ----- one step of a build -----

  predicate Full(t: Tree, b: Table) { |b.rows| >= t.maxRows }

  predicate Refused(t: Tree, b: Table, entry: FileEntry, parent: Option<string>, ancestors: set<string>) {
    entry.path in ancestors || entry.path in b.seen || !Admissible(t, parent, entry)
  }

  predicate Recurses(t: Tree, entry: FileEntry) { Opens(t, entry) && Loaded(t, entry.path) }

  /** The table after the entry's own row and, for a failed branch, the error row. */
  function AfterEntry(t: Tree, b: Table, entry: FileEntry): Table {
    var b1 := PushEntry(b, entry);
    if Opens(t, entry) && !BranchOf(t, entry.path).isLoading && BranchOf(t, entry.path).error.Some? && !Full(t, b1) then
      Push(b1, BranchErrorRow(entry.depth + 1, BranchOf(t, entry.path).error.value, entry.path))
    else b1
  }

  lemma Unfold(t: Tree, b: Table, entries: seq<FileEntry>, parent: Option<string>, ancestors: set<string>)
    ensures var r := Append(t, b, entries, parent, ancestors);
      if entries == [] || Full(t, b) then r == b
      else
        var entry, rest := entries[0], entries[1..];
        if Refused(t, b, entry, parent, ancestors) then r == Append(t, b, rest, parent, ancestors)
        else if Recurses(t, entry) then
          && |t.expanded - (b.seen + {entry.path})| < |t.expanded - b.seen|
          && var inner := Append(t, AfterEntry(t, b, entry), ChildrenOf(t, entry.path), Some(entry.path), ancestors + {entry.path});
          && |t.expanded - inner.seen| <= |t.expanded - b.seen|
          && r == Append(t, inner, rest, parent, ancestors)
        else
          && |t.expanded - (b.seen + {entry.path})| <= |t.expanded - b.seen|
          && r == Append(t, AfterEntry(t, b, entry), rest, parent, ancestors)
  {
    if entries != [] && !Full(t, b) && !Refused(t, b, entries[0], parent, ancestors) {
      var entry := entries[0];
      MoreSeen(t, b.seen, b.seen + {entry.path});
      if Recurses(t, entry) {
        OpeningShrinks(t, b.seen, entry.path);
        MoreSeen(t, b.seen, Append(t, AfterEntry(t, b, entry), ChildrenOf(t, entry.path), Some(entry.path), ancestors + {entry.path}).seen);
      }
    }
  }

  lemma EntryCases(t: Tree, b: Table, entry: FileEntry)
    ensures var b1, branch := PushEntry(b, entry), BranchOf(t, entry.path);
      AfterEntry(t, b, entry) ==
        if Opens(t, entry) && !branch.isLoading && branch.error.Some? && !Full(t, b1) then
          Push(b1, BranchErrorRow(entry.depth + 1, branch.error.value, entry.path))
        else b1
  {}

  // ----- the builder itself -----

  class RowBuilder {
    const tree: Tree
    var rows: seq<Row>
    var seenPaths: set<string>

    constructor (tree: Tree)
      ensures this.tree == tree && Contents() == Table([], {})
    {
      this.tree := tree;
      rows := [];
      seenPaths := {};
    }

    function Contents(): Table
      reads this
    {
      Table(rows, seenPaths)
    }

    method AppendRows(entries: seq<FileEntry>, parentPath: Option<string>, ancestorPaths: set<string>)
      modifies this
      ensures Contents() == Append(tree, old(Contents()), entries, parentPath, ancestorPaths)
      decreases |tree.expanded - seenPaths|
    {
      hide IsDescendantEntry, BranchOf, ChildrenOf, Append;
      ghost var all := Append(tree, Contents(), entries, parentPath, ancestorPaths);
      ghost var atStart := seenPaths;
      for i := 0 to |entries|
        invariant Append(tree, Contents(), entries[i..], parentPath, ancestorPaths) == all
        invariant atStart <= seenPaths
      {
        Unfold(tree, Contents(), entries[i..], parentPath, ancestorPaths);
        if |rows| >= tree.maxRows {
          return;
        }
        var entry := entries[i];
        assert entries[i..][0] == entry && entries[i..][1..] == entries[i + 1..];
        EntryCases(tree, Contents(), entry);
        hide AfterEntry;
        if entry.path in ancestorPaths || entry.path in seenPaths
          || !IsDescendantEntry(parentPath, entry.path) || entry.depth > tree.maxDepth
        {
          continue;
        }
        ghost var before := Contents();
        seenPaths := seenPaths + {entry.path};
        rows := rows + [ResourceRow(entry)];
        if !entry.isDir || entry.path !in tree.expanded {
          continue;
        }
        if entry.depth >= tree.maxDepth {
          continue;
        }
        var branch := BranchOf(tree, entry.path);
        if branch.isLoading {
          continue;
        }
        if branch.error.Some? {
          if |rows| >= tree.maxRows {
            Unfold(tree, Contents(), entries[i + 1..], parentPath, ancestorPaths);
            return;
          }
          rows := rows + [BranchErrorRow(entry.depth + 1, branch.error.value, entry.path)];
          continue;
        }
        OpeningAdvances(tree, atStart, before.seen, entry.path);
        AppendRows(ChildrenOf(tree, entry.path), Some(entry.path), ancestorPaths + {entry.path});
      }
      Unfold(tree, Contents(), [], parentPath, ancestorPaths);
    }
  }

  method BuildRows(entries: seq<FileEntry>, expandedPaths: set<string>, branches: map<string, Branch>,
                   maxDepth: Option<int>, maxRows: Option<int>)
    returns (rows: seq<Row>)
    ensures rows == BuildFileTableRows(
      Tree(expandedPaths, branches,
           if maxDepth.Some? then maxDepth.value else DEFAULT_MAX_FILE_TREE_DEPTH,
           if maxRows.Some? then maxRows.value else DEFAULT_MAX_FILE_TREE_ROWS), entries)
  {
    var depth := if maxDepth.Some? then maxDepth.value else DEFAULT_MAX_FILE_TREE_DEPTH;
    var budget := if maxRows.Some? then maxRows.value else DEFAULT_MAX_FILE_TREE_ROWS;
    var builder := new RowBuilder(Tree(expandedPaths, branches, depth, budget));
    builder.AppendRows(entries, None, {});
    rows := builder.rows;
  }
}
