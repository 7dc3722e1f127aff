/** The catalog tree of the tree variant (agent-manager-tree.py): folder and
    leaf nodes built from a walk of the catalog directory, recursive agent
    counts, the expansion view state and the flattening into the visible
    list. Nodes are values; a node is identified by its path relative to the
    catalog root, which also serves as the key of a leaf in the state maps. */
module Catalog {
  import opened Text
  import opened Files

  /** One entry of a catalog directory as the OS lists it, in no particular
      order. `readable` is false for a directory whose listing raises
      `PermissionError`. */
  datatype Entry =
    | DirEntry(name: string, readable: bool, entries: seq<Entry>)
    | FileEntry(name: string, content: Content)

  function EntryName(e: Entry): string {
    e.name
  }

  /** A path relative to the catalog root, one component per level. A leaf's
      path ends with its file name, `stem.md`. */
  type Key = seq<string>

  /** Pending additions and removals counted below a folder. */
  datatype Summary = Summary(add: nat, remove: nat)

  const NoChanges: Summary := Summary(0, 0)

  datatype Node =
    | Folder(name: string, path: Key, level: int, expanded: bool, agentCount: nat,
             summary: Summary, children: seq<Node>)
    | Leaf(name: string, path: Key, level: int)

  // ---------------------------------------------------------------------
  // Building the tree (`build_tree`, `_build_tree_recursive`).
  // ---------------------------------------------------------------------

  predicate Hidden(name: string) {
    |name| > 0 && name[0] == '.'
  }

  /** `item.is_dir() and not item.name.startswith('.')` */
  predicate IsSubfolder(e: Entry) {
    e.DirEntry? && !Hidden(e.name)
  }

  /** `item.is_file() and item.suffix == '.md'` */
  predicate IsAgentFile(e: Entry) {
    e.FileEntry? && HasMdSuffix(e.name)
  }

  /** The entries satisfying `p`, in their original order. */
  function Filter(es: seq<Entry>, p: Entry -> bool): (r: seq<Entry>)
    ensures forall x | x in r :: x in es && p(x)
    ensures forall x | x in es && p(x) :: x in r
    ensures SortedBy(es, EntryName) ==> SortedBy(r, EntryName)
    decreases |es|
  {
    if |es| == 0 then []
    else
      var rest := Filter(es[1..], p);
      if p(es[0]) then
        assert SortedBy(es, EntryName) ==> SortedBy([es[0]] + rest, EntryName) by {
          if SortedBy(es, EntryName) {
            forall y | y in rest
              ensures LessEq(EntryName(es[0]), EntryName(y))
            {
              var j :| 0 <= j < |es[1..]| && es[1..][j] == y;
              assert es[j + 1] == y;
            }
            SortedCons(es[0], rest, EntryName);
          }
        }
        [es[0]] + rest
      else rest
  }

  /** A folder node as `TreeNode(name, path, is_folder=True, level)` creates
      it: expanded at levels 0 and 1 only, no count, no changes. */
  function NewFolder(name: string, path: Key, level: int, children: seq<Node>): Node {
    Folder(name, path, level, level < 2, 0, NoChanges, children)
  }

  /** The nodes `_build_tree_recursive(dir, parent, level)` appends to the
      parent: one folder per visible subdirectory, then one leaf per `.md`
      file, each group in name order. An unreadable directory adds nothing. */
  function BuildChildren(e: Entry, path: Key, level: int): seq<Node>
    requires e.DirEntry?
    decreases e, 1
  {
    if !e.readable then []
    else FolderNodes(e, SubDirs(e), path, level) + LeafNodes(AgentFiles(e), path, level)
  }

  /** `[d for d in sorted(dir.iterdir()) if d.is_dir() and not d.name.startswith('.')]` */
  function SubDirs(e: Entry): (dirs: seq<Entry>)
    requires e.DirEntry?
    ensures forall i | 0 <= i < |dirs| :: dirs[i] in e.entries && dirs[i].DirEntry? && !Hidden(dirs[i].name)
    ensures forall x :: x in dirs <==> x in e.entries && IsSubfolder(x)
    ensures SortedBy(dirs, EntryName)
  {
    SortedMembers(e.entries);
    var dirs := Filter(SortBy(e.entries, EntryName), IsSubfolder);
    assert forall i | 0 <= i < |dirs| :: dirs[i] in dirs && IsSubfolder(dirs[i]);
    dirs
  }

  /** `[f for f in sorted(dir.iterdir()) if f.is_file() and f.suffix == '.md']` */
  function AgentFiles(e: Entry): (files: seq<Entry>)
    requires e.DirEntry?
    ensures forall i | 0 <= i < |files| :: IsAgentFile(files[i])
    ensures forall x :: x in files <==> x in e.entries && IsAgentFile(x)
    ensures SortedBy(files, EntryName)
  {
    SortedMembers(e.entries);
    var files := Filter(SortBy(e.entries, EntryName), IsAgentFile);
    assert forall i | 0 <= i < |files| :: files[i] in files;
    files
  }

  /** One folder node per subdirectory, each built recursively. */
  function FolderNodes(e: Entry, dirs: seq<Entry>, path: Key, level: int): (r: seq<Node>)
    requires e.DirEntry?
    requires forall i | 0 <= i < |dirs| :: dirs[i] in e.entries && dirs[i].DirEntry? && !Hidden(dirs[i].name)
    ensures |r| == |dirs|
    ensures forall i | 0 <= i < |dirs| :: r[i] == FolderOf(dirs[i], path, level)
    decreases e, 0
  {
    seq(|dirs|, i requires 0 <= i < |dirs| => FolderOf(dirs[i], path, level))
  }

  /** The folder for one visible subdirectory, its children built one level down. */
  function FolderOf(d: Entry, path: Key, level: int): (f: Node)
    requires d.DirEntry? && !Hidden(d.name)
    ensures f.Folder? && f.name == d.name && f.path == path + [d.name] && f.level == level
    ensures f.expanded == (level < 2) && f.agentCount == 0 && f.summary == NoChanges
    ensures f.children == BuildChildren(d, path + [d.name], level + 1)
    decreases d, 2
  {
    NewFolder(d.name, path + [d.name], level, BuildChildren(d, path + [d.name], level + 1))
  }

  /** One leaf per agent file, named by the file's stem. */
  function LeafNodes(files: seq<Entry>, path: Key, level: int): (r: seq<Node>)
    requires forall i | 0 <= i < |files| :: IsAgentFile(files[i])
    ensures |r| == |files|
    ensures forall i | 0 <= i < |files| :: r[i].Leaf? && r[i].level == level &&
              r[i].name != "" && FileOf(r[i].name) == files[i].name && r[i].path == path + [files[i].name]
  {
    seq(|files|, i requires 0 <= i < |files| => LeafOf(files[i], path, level))
  }

  /** The leaf for one agent file: named by the stem, keyed by the file name. */
  function LeafOf(f: Entry, path: Key, level: int): (l: Node)
    requires IsAgentFile(f)
    ensures l.Leaf? && l.level == level && l.name != "" && FileOf(l.name) == f.name && l.path == path + [f.name]
  {
    assert Globbed(f.name);
    Leaf(MdStem(f.name), path + [f.name], level)
  }

  lemma SortedMembers(es: seq<Entry>)
    ensures forall x :: x in SortBy(es, EntryName) <==> x in es
  {
    forall x
      ensures x in SortBy(es, EntryName) <==> x in es
    {
      assert x in SortBy(es, EntryName) <==> x in multiset(SortBy(es, EntryName));
      assert x in es <==> x in multiset(es);
    }
  }

  /** The shape of what a directory contributes: nothing when unreadable;
      every child at the given level, a folder not hidden, expanded at
      levels 0 and 1, with its name appended to the path, a leaf with its
      file name appended. */
  lemma BuildChildrenShape(e: Entry, path: Key, level: int)
    requires e.DirEntry?
    ensures !e.readable ==> BuildChildren(e, path, level) == []
    ensures forall c | c in BuildChildren(e, path, level) :: c.level == level
    ensures forall c | c in BuildChildren(e, path, level) && c.Folder? ::
              !Hidden(c.name) && c.path == path + [c.name] && c.expanded == (level < 2)
    ensures forall c | c in BuildChildren(e, path, level) && c.Leaf? ::
              c.name != "" && c.path == path + [FileOf(c.name)]
  {
    if e.readable {
      BuiltParts(e, path, level);
      PartsShape(SubDirs(e), AgentFiles(e), FolderNodes(e, SubDirs(e), path, level),
                 LeafNodes(AgentFiles(e), path, level), path, level);
    }
  }

  /** The folders built from the subdirectories `dirs`, at `level` below `path`. */
  predicate FoldersFor(dirs: seq<Entry>, folders: seq<Node>, path: Key, level: int) {
    && |folders| == |dirs|
    && forall i | 0 <= i < |folders| ::
         && folders[i].Folder? && folders[i].name == dirs[i].name && !Hidden(dirs[i].name)
         && folders[i].path == path + [dirs[i].name] && folders[i].level == level
         && folders[i].expanded == (level < 2)
  }

  /** The leaves built from the agent files `files`, at `level` below `path`. */
  predicate LeavesFor(files: seq<Entry>, leaves: seq<Node>, path: Key, level: int) {
    && |leaves| == |files|
    && forall i | 0 <= i < |leaves| ::
         && leaves[i].Leaf? && leaves[i].level == level && leaves[i].name != ""
         && FileOf(leaves[i].name) == files[i].name && leaves[i].path == path + [files[i].name]
  }

  /** The children of a readable directory: its folders, then its leaves. */
  lemma BuiltParts(e: Entry, path: Key, level: int)
    requires e.DirEntry? && e.readable
    ensures BuildChildren(e, path, level) ==
              FolderNodes(e, SubDirs(e), path, level) + LeafNodes(AgentFiles(e), path, level)
    ensures FoldersFor(SubDirs(e), FolderNodes(e, SubDirs(e), path, level), path, level)
    ensures LeavesFor(AgentFiles(e), LeafNodes(AgentFiles(e), path, level), path, level)
  {
    var dirs := SubDirs(e);
    var folders := FolderNodes(e, dirs, path, level);
    forall i | 0 <= i < |folders|
      ensures folders[i].Folder? && folders[i].name == dirs[i].name && !Hidden(dirs[i].name)
      ensures folders[i].path == path + [dirs[i].name] && folders[i].level == level
      ensures folders[i].expanded == (level < 2)
    {
      assert folders[i] == FolderOf(dirs[i], path, level);
    }
  }

  lemma PartsShape(dirs: seq<Entry>, files: seq<Entry>, folders: seq<Node>, leaves: seq<Node>, path: Key, level: int)
    requires FoldersFor(dirs, folders, path, level) && LeavesFor(files, leaves, path, level)
    ensures forall c | c in folders + leaves :: c.level == level
    ensures forall c | c in folders + leaves && c.Folder? ::
              !Hidden(c.name) && c.path == path + [c.name] && c.expanded == (level < 2)
    ensures forall c | c in folders + leaves && c.Leaf? ::
              c.name != "" && c.path == path + [FileOf(c.name)]
  {
    forall c: Node | c in folders + leaves
      ensures c.level == level
      ensures c.Folder? ==> !Hidden(c.name) && c.path == path + [c.name] && c.expanded == (level < 2)
      ensures c.Leaf? ==> c.name != "" && c.path == path + [FileOf(c.name)]
    {
      if c in folders {
        var i :| 0 <= i < |folders| && folders[i] == c;
      } else {
        var i :| 0 <= i < |leaves| && leaves[i] == c;
      }
    }
  }

  /** Folders come first, in name order; leaves follow, in file-name order. */
  lemma BuildChildrenSorted(e: Entry, path: Key, level: int)
    requires e.DirEntry?
    ensures var r := BuildChildren(e, path, level);
      && (forall i, j | 0 <= i < j < |r| && r[i].Leaf? :: r[j].Leaf?)
      && (forall i, j | 0 <= i < j < |r| && r[j].Folder? :: LessEq(r[i].name, r[j].name))
      && (forall i, j | 0 <= i < j < |r| && r[i].Leaf? ::
            LessEq(r[i].path[|r[i].path| - 1], r[j].path[|r[j].path| - 1]))
  {
    if e.readable {
      var dirs, files := SubDirs(e), AgentFiles(e);
      var folders := FolderNodes(e, dirs, path, level);
      var leaves := LeafNodes(files, path, level);
      assert BuildChildren(e, path, level) == folders + leaves;
      forall i | 0 <= i < |folders|
        ensures folders[i].Folder? && folders[i].name == dirs[i].name
      {
        assert folders[i] == FolderOf(dirs[i], path, level);
      }
      ChildrenOrder(dirs, files, folders, leaves, path);
    }
  }

  /** Folders named after sorted subdirectories, followed by leaves keyed by
      sorted file names, are in the order the builder promises. */
  lemma ChildrenOrder(dirs: seq<Entry>, files: seq<Entry>, folders: seq<Node>, leaves: seq<Node>, path: Key)
    requires SortedBy(dirs, EntryName) && SortedBy(files, EntryName)
    requires |folders| == |dirs| && forall i | 0 <= i < |folders| :: folders[i].Folder? && folders[i].name == dirs[i].name
    requires |leaves| == |files| && forall i | 0 <= i < |leaves| :: leaves[i].Leaf? && leaves[i].path == path + [files[i].name]
    ensures var r := folders + leaves;
      && (forall i, j | 0 <= i < j < |r| && r[i].Leaf? :: r[j].Leaf?)
      && (forall i, j | 0 <= i < j < |r| && r[j].Folder? :: LessEq(r[i].name, r[j].name))
      && (forall i, j | 0 <= i < j < |r| && r[i].Leaf? ::
            LessEq(r[i].path[|r[i].path| - 1], r[j].path[|r[j].path| - 1]))
  {
    var r := folders + leaves;
    var k := |folders|;
    forall i | k <= i < |r|
      ensures r[i].Leaf? && |r[i].path| > 0 && r[i].path[|r[i].path| - 1] == files[i - k].name
    {
      assert r[i] == leaves[i - k];
      assert leaves[i - k].path == path + [files[i - k].name];
    }
    FolderOrder(dirs, folders, r);
    LeafOrder(files, leaves, r, k);
  }

  lemma FolderOrder(dirs: seq<Entry>, folders: seq<Node>, r: seq<Node>)
    requires SortedBy(dirs, EntryName) && |folders| == |dirs| <= |r|
    requires forall i | 0 <= i < |folders| :: r[i] == folders[i] && folders[i].name == dirs[i].name
    requires forall i | |folders| <= i < |r| :: r[i].Leaf?
    ensures forall i, j | 0 <= i < j < |r| && r[j].Folder? :: LessEq(r[i].name, r[j].name)
  {
    forall i, j | 0 <= i < j < |r| && r[j].Folder?
      ensures LessEq(r[i].name, r[j].name)
    {
      assert LessEq(EntryName(dirs[i]), EntryName(dirs[j]));
    }
  }

  lemma LeafOrder(files: seq<Entry>, leaves: seq<Node>, r: seq<Node>, k: nat)
    requires SortedBy(files, EntryName) && |leaves| == |files| && k + |leaves| == |r|
    requires forall i | k <= i < |r| :: r[i].Leaf? &&
               |r[i].path| > 0 && r[i].path[|r[i].path| - 1] == files[i - k].name
    requires forall i | 0 <= i < k :: r[i].Folder?
    ensures forall i, j | 0 <= i < j < |r| && r[i].Leaf? :: r[j].Leaf?
    ensures forall i, j | 0 <= i < j < |r| && r[i].Leaf? ::
              LessEq(r[i].path[|r[i].path| - 1], r[j].path[|r[j].path| - 1])
  {
    forall i, j | 0 <= i < j < |r| && r[i].Leaf?
      ensures r[j].Leaf? && LessEq(r[i].path[|r[i].path| - 1], r[j].path[|r[j].path| - 1])
    {
      assert LessEq(EntryName(files[i - k]), EntryName(files[j - k]));
    }
  }

  /** Every child comes from an entry of the directory: a folder from a
      visible subdirectory, a leaf from an agent file. */
  lemma BuildChildrenSound(e: Entry, path: Key, level: int)
    requires e.DirEntry?
    ensures var r := BuildChildren(e, path, level);
      && (forall c | c in r && c.Folder? :: exists x | x in e.entries :: IsSubfolder(x) && x.name == c.name)
      && (forall c | c in r && c.Leaf? :: exists x | x in e.entries :: IsAgentFile(x) && x.name == FileOf(c.name))
  {
    if e.readable {
      BuiltParts(e, path, level);
      PartsSound(e, SubDirs(e), AgentFiles(e), FolderNodes(e, SubDirs(e), path, level),
                 LeafNodes(AgentFiles(e), path, level), path, level);
    }
  }

  lemma PartsSound(e: Entry, dirs: seq<Entry>, files: seq<Entry>, folders: seq<Node>, leaves: seq<Node>, path: Key, level: int)
    requires e.DirEntry?
    requires FoldersFor(dirs, folders, path, level) && LeavesFor(files, leaves, path, level)
    requires forall x | x in dirs :: x in e.entries && IsSubfolder(x)
    requires forall x | x in files :: x in e.entries && IsAgentFile(x)
    ensures forall c | c in folders + leaves && c.Folder? :: exists x | x in e.entries :: IsSubfolder(x) && x.name == c.name
    ensures forall c | c in folders + leaves && c.Leaf? :: exists x | x in e.entries :: IsAgentFile(x) && x.name == FileOf(c.name)
  {
    forall c: Node | c in folders + leaves && c.Folder?
      ensures exists x | x in e.entries :: IsSubfolder(x) && x.name == c.name
    {
      var i :| 0 <= i < |folders| && folders[i] == c;
      assert dirs[i] in dirs;
    }
    forall c: Node | c in folders + leaves && c.Leaf?
      ensures exists x | x in e.entries :: IsAgentFile(x) && x.name == FileOf(c.name)
    {
      var i :| 0 <= i < |leaves| && leaves[i] == c;
      assert files[i] in files;
    }
  }

  /** A readable directory contributes a folder for every visible
      subdirectory and a leaf for every agent file. */
  lemma BuildChildrenComplete(e: Entry, path: Key, level: int)
    requires e.DirEntry? && e.readable
    ensures var r := BuildChildren(e, path, level);
      && (forall x | x in e.entries && IsSubfolder(x) :: exists c | c in r :: c.Folder? && c.name == x.name)
      && (forall x | x in e.entries && IsAgentFile(x) :: exists c | c in r :: c.Leaf? && c.path == path + [x.name])
  {
    BuiltParts(e, path, level);
    PartsComplete(e, SubDirs(e), AgentFiles(e), FolderNodes(e, SubDirs(e), path, level),
                  LeafNodes(AgentFiles(e), path, level), path, level);
  }

  lemma PartsComplete(e: Entry, dirs: seq<Entry>, files: seq<Entry>, folders: seq<Node>, leaves: seq<Node>, path: Key, level: int)
    requires e.DirEntry?
    requires FoldersFor(dirs, folders, path, level) && LeavesFor(files, leaves, path, level)
    requires forall x | x in e.entries && IsSubfolder(x) :: x in dirs
    requires forall x | x in e.entries && IsAgentFile(x) :: x in files
    ensures forall x | x in e.entries && IsSubfolder(x) :: exists c | c in folders + leaves :: c.Folder? && c.name == x.name
    ensures forall x | x in e.entries && IsAgentFile(x) :: exists c | c in folders + leaves :: c.Leaf? && c.path == path + [x.name]
  {
    var r := folders + leaves;
    forall x: Entry | x in e.entries && IsSubfolder(x)
      ensures exists c: Node | c in r :: c.Folder? && c.name == x.name
    {
      var i :| 0 <= i < |dirs| && dirs[i] == x;
      assert r[i] == folders[i];
    }
    forall x: Entry | x in e.entries && IsAgentFile(x)
      ensures exists c: Node | c in r :: c.Leaf? && c.path == path + [x.name]
    {
      var i :| 0 <= i < |files| && files[i] == x;
      assert r[|folders| + i] == leaves[i];
    }
  }

  /** `get_agent_count_recursive`: a leaf counts 1, a folder the sum over
      its children. */
  function AgentCount(n: Node): (c: nat)
    ensures c == |Leaves(n)|
  {
    match n
    case Leaf(_, _, _) => 1
    case Folder(_, _, _, _, _, _, cs) => ChildrenAgentCount(cs)
  }

  function ChildrenAgentCount(cs: seq<Node>): (c: nat)
    ensures c == |LeavesSeq(cs)|
  {
    if |cs| == 0 then 0
    else (if cs[0].Folder? then AgentCount(cs[0]) else 1) + ChildrenAgentCount(cs[1..])
  }

  /** The leaf nodes of a subtree in pre-order, the order in which
      `_mark_installed_recursive` visits them. */
  function Leaves(n: Node): seq<Node>
  {
    match n
    case Leaf(_, _, _) => [n]
    case Folder(_, _, _, _, _, _, cs) => LeavesSeq(cs)
  }

  function LeavesSeq(cs: seq<Node>): seq<Node>
  {
    if |cs| == 0 then [] else Leaves(cs[0]) + LeavesSeq(cs[1..])
  }

  lemma {:induction false} LeavesAreLeaves(n: Node)
    ensures forall l | l in Leaves(n) :: l.Leaf?
  {
    match n
    case Leaf(_, _, _) =>
    case Folder(_, _, _, _, _, _, cs) => LeavesSeqAreLeaves(cs);
  }

  lemma {:induction false} LeavesSeqAreLeaves(cs: seq<Node>)
    ensures forall l | l in LeavesSeq(cs) :: l.Leaf?
  {
    if |cs| > 0 {
      LeavesAreLeaves(cs[0]);
      LeavesSeqAreLeaves(cs[1..]);
    }
  }

  /** The keys of a subtree's leaves, in pre-order. */
  function LeafKeys(n: Node): (ks: seq<Key>)
    ensures |ks| == |Leaves(n)|
    ensures forall i | 0 <= i < |ks| :: ks[i] == Leaves(n)[i].path
  {
    seq(|Leaves(n)|, i requires 0 <= i < |Leaves(n)| => Leaves(n)[i].path)
  }

  /** `build_tree` gives every child of the root its agent count, leaves
      included; deeper folders keep 0. Leaves carry no count here: the
      only reader, `get_display_name`, shows a folder the same way whatever
      its count and a leaf by its name alone. */
  function WithCount(n: Node): Node {
    if n.Folder? then n.(agentCount := AgentCount(n)) else n
  }

  /** `build_tree()`: the root node, at level -1, holding the catalog. */
  function BuildTree(root: Entry): (t: Node)
    requires root.DirEntry?
    ensures t.Folder? && t.level == -1 && t.path == [] && t.expanded
    ensures |t.children| == |BuildChildren(root, [], 0)|
    ensures forall i | 0 <= i < |t.children| && t.children[i].Folder? ::
              t.children[i].agentCount == |Leaves(t.children[i])|
    ensures forall i | 0 <= i < |t.children| ::
              t.children[i] == WithCount(BuildChildren(root, [], 0)[i])
  {
    var cs := BuildChildren(root, [], 0);
    Folder("root", [], -1, true, 0, NoChanges, seq(|cs|, i requires 0 <= i < |cs| => WithCount(cs[i])))
  }

  // ---------------------------------------------------------------------
  // Well-formedness: levels and paths as the builder produces them.
  // ---------------------------------------------------------------------

  /** How a child relates to its parent: one level deeper; a folder's path
      extends the parent's by its name, a leaf's by its file name. */
  predicate ChildOf(parent: Node, c: Node) {
    c.level == parent.level + 1 &&
    match c
    case Folder(_, _, _, _, _, _, _) => c.path == parent.path + [c.name]
    case Leaf(_, _, _) => c.name != "" && c.path == parent.path + [FileOf(c.name)]
  }

  predicate WellFormed(n: Node) {
    n.Folder? ==> forall i | 0 <= i < |n.children| :: ChildOf(n, n.children[i]) && WellFormed(n.children[i])
  }

  /** A tree as `build_tree` leaves it: a root at level -1 with the empty path. */
  predicate IsCatalogRoot(t: Node) {
    t.Folder? && t.level == -1 && t.path == [] && WellFormed(t)
  }

  lemma {:induction false} BuildChildrenWellFormed(e: Entry, path: Key, level: int)
    requires e.DirEntry?
    ensures forall c | c in BuildChildren(e, path, level) :: WellFormed(c)
    decreases e
  {
    var r := BuildChildren(e, path, level);
    if e.readable {
      var dirs, files := SubDirs(e), AgentFiles(e);
      var folders := FolderNodes(e, dirs, path, level);
      var leaves := LeafNodes(files, path, level);
      forall c | c in r
        ensures WellFormed(c)
      {
        var i :| 0 <= i < |r| && r[i] == c;
        if i < |folders| {
          var d := dirs[i];
          assert d in e.entries;
          var p := path + [d.name];
          BuildChildrenWellFormed(d, p, level + 1);
          BuildChildrenShape(d, p, level + 1);
          var cs := BuildChildren(d, p, level + 1);
          assert c == NewFolder(d.name, p, level, cs);
          forall k | 0 <= k < |cs|
            ensures ChildOf(c, cs[k]) && WellFormed(cs[k])
          {
            assert cs[k] in cs;
          }
        }
      }
    }
  }

  /** The builder produces a well-formed catalog root. */
  lemma BuildTreeWellFormed(root: Entry)
    requires root.DirEntry?
    ensures IsCatalogRoot(BuildTree(root))
  {
    var cs := BuildChildren(root, [], 0);
    BuildChildrenWellFormed(root, [], 0);
    BuildChildrenShape(root, [], 0);
    var t := BuildTree(root);
    forall i | 0 <= i < |t.children|
      ensures ChildOf(t, t.children[i]) && WellFormed(t.children[i])
    {
      assert cs[i] in cs;
    }
  }

  /** `build_tree()` as `__init__` calls it on the collection path. Only a
      directory can be listed: a missing collection, or a plain file in its
      place, makes `iterdir` raise an error that the folder handler does not
      catch, and `main` ends the program with status 1. `None` is that
      failure; otherwise the result is a well-formed catalog root. */
  function OpenCatalog(root: Option<Entry>): (r: Option<Node>)
    ensures r.Some? <==> root.Some? && root.value.DirEntry?
    ensures r.Some? ==> IsCatalogRoot(r.value)
  {
    if root.Some? && root.value.DirEntry? then
      BuildTreeWellFormed(root.value);
      Some(BuildTree(root.value))
    else None
  }

  /** A leaf of a well-formed tree is keyed by its file name. */
  predicate KeyedByName(l: Node) {
    l.Leaf? && l.name != "" && |l.path| > 0 && l.path[|l.path| - 1] == FileOf(l.name)
  }

  lemma {:induction false} WellFormedLeavesKeyed(n: Node)
    requires WellFormed(n)
    requires n.Leaf? ==> KeyedByName(n)
    ensures forall l | l in Leaves(n) :: KeyedByName(l)
  {
    match n
    case Leaf(_, _, _) =>
    case Folder(_, _, _, _, _, _, cs) =>
      forall l | l in Leaves(n)
        ensures KeyedByName(l)
      {
        var i := LeavesSeqMember(cs, l);
        WellFormedLeavesKeyed(cs[i]);
      }
  }

  /** The child whose leaves contain `l`. */
  lemma {:induction false} LeavesSeqMember(cs: seq<Node>, l: Node) returns (i: nat)
    requires l in LeavesSeq(cs)
    ensures i < |cs| && l in Leaves(cs[i])
  {
    if l in Leaves(cs[0]) {
      i := 0;
    } else {
      var j := LeavesSeqMember(cs[1..], l);
      i := j + 1;
    }
  }

  // ---------------------------------------------------------------------
  // Expansion (`toggle_expand`, `expand_all`, `collapse_all`).
  // ---------------------------------------------------------------------

  /** `toggle_expand`: flips a folder, leaves a leaf alone. */
  function ToggleExpand(n: Node): (r: Node)
    ensures n.Leaf? ==> r == n
    ensures n.Folder? ==> r.Folder? && r.expanded == !n.expanded && r.(expanded := n.expanded) == n
  {
    if n.Folder? then n.(expanded := !n.expanded) else n
  }

  /** Two trees that differ at most in their folders' expansion flags. */
  predicate SameShape(a: Node, b: Node) {
    match a
    case Leaf(_, _, _) => b == a
    case Folder(_, _, _, _, _, _, cs) =>
      b.Folder? && b.(expanded := a.expanded, children := cs) == a &&
      |b.children| == |cs| &&
      forall i | 0 <= i < |cs| :: SameShape(cs[i], b.children[i])
  }

  /** Every folder of the subtree has `expanded == b`. */
  predicate AllExpandedAs(n: Node, b: bool) {
    n.Folder? ==> n.expanded == b && forall i | 0 <= i < |n.children| :: AllExpandedAs(n.children[i], b)
  }

  /** `expand_all` (b = true) and `collapse_all` (b = false): sets the flag on
      every folder of the subtree and changes nothing else. */
  function SetExpandedAll(n: Node, b: bool): (r: Node)
    ensures SameShape(n, r)
    ensures AllExpandedAs(r, b)
  {
    match n
    case Leaf(_, _, _) => n
    case Folder(_, _, _, _, _, _, cs) =>
      n.(expanded := b, children := seq(|cs|, i requires 0 <= i < |cs| => SetExpandedAll(cs[i], b)))
  }

  /** Flips the folder at `p`, wherever it sits in the tree (the space and
      arrow keys act on one node of the visible list). */
  function ToggleExpandAt(t: Node, p: Key): (r: Node)
    ensures SameShape(t, r)
  {
    match t
    case Leaf(_, _, _) => t
    case Folder(_, _, _, _, _, _, cs) =>
      t.(expanded := if t.path == p then !t.expanded else t.expanded,
         children := seq(|cs|, i requires 0 <= i < |cs| => ToggleExpandAt(cs[i], p)))
  }

  /** Flipping the same folder twice restores the tree. */
  lemma {:induction false} ToggleExpandAtTwice(t: Node, p: Key)
    ensures ToggleExpandAt(ToggleExpandAt(t, p), p) == t
  {
    match t
    case Leaf(_, _, _) =>
    case Folder(_, _, _, _, _, _, cs) =>
      var once := ToggleExpandAt(t, p);
      var twice := ToggleExpandAt(once, p);
      forall i | 0 <= i < |cs|
        ensures twice.children[i] == cs[i]
      {
        ToggleExpandAtTwice(cs[i], p);
      }
      assert twice.children == cs;
  }

  /** Every folder of a subtree in pre-order, as its path and expansion flag. */
  function FolderFlags(n: Node): seq<(Key, bool)>
  {
    match n
    case Leaf(_, _, _) => []
    case Folder(_, p, _, e, _, _, cs) => [(p, e)] + FolderFlagsSeq(cs)
  }

  function FolderFlagsSeq(cs: seq<Node>): seq<(Key, bool)>
  {
    if |cs| == 0 then [] else FolderFlags(cs[0]) + FolderFlagsSeq(cs[1..])
  }

  /** The flags with those of the folders at path `p` inverted. */
  function Flip(fs: seq<(Key, bool)>, p: Key): (r: seq<(Key, bool)>)
    ensures |r| == |fs|
    ensures forall i | 0 <= i < |fs| :: r[i].0 == fs[i].0 && r[i].1 == (if fs[i].0 == p then !fs[i].1 else fs[i].1)
  {
    seq(|fs|, i requires 0 <= i < |fs| => (fs[i].0, if fs[i].0 == p then !fs[i].1 else fs[i].1))
  }

  /** Flipping the folders at `p` inverts their flags and leaves every other
      folder's flag alone. */
  lemma {:induction false} ToggleExpandAtFlags(t: Node, p: Key)
    ensures FolderFlags(ToggleExpandAt(t, p)) == Flip(FolderFlags(t), p)
    decreases t
  {
    match t
    case Leaf(_, _, _) =>
    case Folder(_, _, _, _, _, _, cs) =>
      var r := ToggleExpandAt(t, p);
      ToggleSeqFlags(cs, r.children, p);
      assert FolderFlags(r) == [(r.path, r.expanded)] + Flip(FolderFlagsSeq(cs), p);
      assert Flip([(t.path, t.expanded)], p) == [(r.path, r.expanded)];
      FlipAppend([(t.path, t.expanded)], FolderFlagsSeq(cs), p);
  }

  lemma FlipAppend(a: seq<(Key, bool)>, b: seq<(Key, bool)>, p: Key)
    ensures Flip(a + b, p) == Flip(a, p) + Flip(b, p)
  {
    assert forall i | 0 <= i < |a + b| :: Flip(a + b, p)[i] == (Flip(a, p) + Flip(b, p))[i];
  }

  lemma {:induction false} ToggleSeqFlags(cs: seq<Node>, us: seq<Node>, p: Key)
    requires |us| == |cs|
    requires forall i | 0 <= i < |cs| :: us[i] == ToggleExpandAt(cs[i], p)
    ensures FolderFlagsSeq(us) == Flip(FolderFlagsSeq(cs), p)
    decreases cs
  {
    if |cs| > 0 {
      ToggleExpandAtFlags(cs[0], p);
      ToggleSeqFlags(cs[1..], us[1..], p);
      FlipAppend(FolderFlags(cs[0]), FolderFlagsSeq(cs[1..]), p);
    }
  }

  /** Toggling one folder twice restores its flag; a leaf never changes. */
  lemma ToggleExpandTwice(n: Node)
    ensures ToggleExpand(ToggleExpand(n)) == n
    ensures n.Leaf? ==> ToggleExpand(n) == n
  {
  }

  /** True when every folder among the root's children is expanded
      (`all(child.expanded for child in root.children if child.is_folder)`). */
  predicate AllTopExpanded(cs: seq<Node>) {
    forall j | 0 <= j < |cs| && cs[j].Folder? :: cs[j].expanded
  }

  /** The `*` key as written: the loop over the root's children re-evaluates
      `all(...)` before each child, after earlier children were changed. */
  function ExpandCollapseAllAsWritten(root: Node): Node
    requires root.Folder?
  {
    root.(children := StarLoop(root.children, 0))
  }

  function StarLoop(cs: seq<Node>, i: nat): seq<Node>
    requires i <= |cs|
    decreases |cs| - i
  {
    if i == |cs| then cs
    else
      var c := SetExpandedAll(cs[i], !AllTopExpanded(cs));
      StarLoop(cs[i := c], i + 1)
  }

  /** Every tree has its own shape. */
  lemma {:induction false} SameShapeRefl(a: Node)
    ensures SameShape(a, a)
    decreases a
  {
    if a.Folder? {
      forall i | 0 <= i < |a.children|
        ensures SameShape(a.children[i], a.children[i])
      {
        SameShapeRefl(a.children[i]);
      }
    }
  }

  /** Refolding a refolded tree is refolding the original. */
  lemma {:induction false} SameShapeTrans(a: Node, b: Node, c: Node)
    requires SameShape(a, b) && SameShape(b, c)
    ensures SameShape(a, c)
    decreases a
  {
    if a.Folder? {
      forall i | 0 <= i < |a.children|
        ensures SameShape(a.children[i], c.children[i])
      {
        SameShapeTrans(a.children[i], b.children[i], c.children[i]);
      }
    }
  }

  /** The written loop, from child `i` on, changes only expansion flags,
      leaves the children before `i` alone, and leaves every child with
      all its folders flagged alike. */
  lemma {:induction false} StarLoopShape(orig: seq<Node>, cs: seq<Node>, i: nat)
    requires i <= |cs| == |orig|
    requires forall j | 0 <= j < |cs| :: SameShape(orig[j], cs[j])
    requires forall j | 0 <= j < i :: AllExpandedAs(cs[j], true) || AllExpandedAs(cs[j], false)
    ensures |StarLoop(cs, i)| == |orig|
    ensures forall j | 0 <= j < i :: StarLoop(cs, i)[j] == cs[j]
    ensures forall j | 0 <= j < |orig| :: SameShape(orig[j], StarLoop(cs, i)[j])
    ensures forall j | 0 <= j < |orig| ::
              AllExpandedAs(StarLoop(cs, i)[j], true) || AllExpandedAs(StarLoop(cs, i)[j], false)
    decreases |cs| - i
  {
    if i < |cs| {
      var c := SetExpandedAll(cs[i], !AllTopExpanded(cs));
      SameShapeTrans(orig[i], cs[i], c);
      StarLoopShape(orig, cs[i := c], i + 1);
    }
  }

  /** The `*` key as written changes only expansion flags; every top-level
      subtree ends up all expanded or all collapsed, and the first one is
      set as intended. */
  lemma ExpandCollapseAllAsWrittenShape(root: Node)
    requires root.Folder?
    ensures SameShape(root, ExpandCollapseAllAsWritten(root))
    ensures var cs := ExpandCollapseAllAsWritten(root).children;
      forall j | 0 <= j < |cs| :: AllExpandedAs(cs[j], true) || AllExpandedAs(cs[j], false)
    ensures |root.children| > 0 ==>
      AllExpandedAs(ExpandCollapseAllAsWritten(root).children[0], !AllTopExpanded(root.children))
  {
    var cs := root.children;
    forall j | 0 <= j < |cs|
      ensures SameShape(cs[j], cs[j])
    {
      SameShapeRefl(cs[j]);
    }
    StarLoopShape(cs, cs, 0);
    if |cs| > 0 {
      var c := SetExpandedAll(cs[0], !AllTopExpanded(cs));
      StarLoopShape(cs, cs[0 := c], 1);
    }
  }

  /** The `*` key as intended: collapse everything when every top-level
      folder is expanded, otherwise expand everything. */
  function ExpandCollapseAll(root: Node): (r: Node)
    requires root.Folder?
    ensures r.Folder? && |r.children| == |root.children|
    ensures forall i | 0 <= i < |root.children| ::
              SameShape(root.children[i], r.children[i]) &&
              AllExpandedAs(r.children[i], !AllTopExpanded(root.children))
    ensures r.(children := root.children) == root
  {
    var b := !AllTopExpanded(root.children);
    root.(children := seq(|root.children|, i requires 0 <= i < |root.children| => SetExpandedAll(root.children[i], b)))
  }

  /** With two expanded top-level folders, the written loop collapses the
      first and then, seeing a collapsed folder, expands the second. */
  lemma ExpandCollapseAllAsWrittenCounterexample()
    ensures
      var a := NewFolder("backend", ["backend"], 0, []);
      var b := NewFolder("frontend", ["frontend"], 0, []);
      var root := Folder("root", [], -1, true, 0, NoChanges, [a, b]);
      var written := ExpandCollapseAllAsWritten(root);
      var intended := ExpandCollapseAll(root);
      && AllTopExpanded(root.children)
      && |written.children| == 2 && written.children[0].Folder? && written.children[1].Folder?
      && !written.children[0].expanded && written.children[1].expanded
      && !intended.children[0].expanded && !intended.children[1].expanded
  {
    var a := NewFolder("backend", ["backend"], 0, []);
    var b := NewFolder("frontend", ["frontend"], 0, []);
    var cs := [a, b];
    var c0 := SetExpandedAll(a, false);
    assert AllTopExpanded(cs);
    assert StarLoop(cs, 0) == StarLoop(cs[0 := c0], 1);
    var cs1 := cs[0 := c0];
    assert c0.Folder? && !c0.expanded;
    assert cs1[0] == c0;
    assert !AllTopExpanded(cs1);
    var c1 := SetExpandedAll(b, true);
    assert c1.Folder? && c1.expanded;
    assert StarLoop(cs1, 1) == StarLoop(cs1[1 := c1], 2);
    assert StarLoop(cs1[1 := c1], 2) == [c0, c1];
  }

  // ---------------------------------------------------------------------
  // Flattening (`flatten_tree`, `_flatten_recursive`).
  // ---------------------------------------------------------------------

  /** The folder's children are listed: it is expanded, or it is the root. */
  predicate Open(n: Node) {
    n.Folder? && (n.expanded || n.level == -1)
  }

  /** `_flatten_recursive(node)`: the node itself unless it is the root,
      then, when it is open, its children's lists in order. */
  function Flatten(n: Node): seq<Node>
  {
    (if n.level >= 0 then [n] else [])
    + (if Open(n) then FlattenSeq(n.children) else [])
  }

  function FlattenSeq(cs: seq<Node>): seq<Node>
  {
    if |cs| == 0 then [] else Flatten(cs[0]) + FlattenSeq(cs[1..])
  }

  /** Levels as the builder assigns them: `l` here, one more per step down. */
  predicate LevelsFrom(n: Node, l: int) {
    n.level == l && (n.Folder? ==> forall i | 0 <= i < |n.children| :: LevelsFrom(n.children[i], l + 1))
  }

  /** `x` is reached from `n` by following the child indices `idx`, every
      node passed on the way being open. */
  predicate ReachedThroughOpen(n: Node, idx: seq<nat>, x: Node)
    decreases |idx|
  {
    if |idx| == 0 then x == n
    else Open(n) && idx[0] < |n.children| && ReachedThroughOpen(n.children[idx[0]], idx[1..], x)
  }

  lemma {:induction false} FlattenSeqMember(cs: seq<Node>, x: Node) returns (i: nat)
    requires x in FlattenSeq(cs)
    ensures i < |cs| && x in Flatten(cs[i])
  {
    if x in Flatten(cs[0]) {
      i := 0;
    } else {
      var j := FlattenSeqMember(cs[1..], x);
      i := j + 1;
    }
  }

  lemma {:induction false} FlattenSeqContains(cs: seq<Node>, i: nat, x: Node)
    requires i < |cs| && x in Flatten(cs[i])
    ensures x in FlattenSeq(cs)
  {
    if i > 0 {
      FlattenSeqContains(cs[1..], i - 1, x);
    }
  }

  /** Below the root, every listed node is reached through open folders. */
  lemma {:induction false} FlattenSound(n: Node, l: int, x: Node) returns (idx: seq<nat>)
    requires l >= 0 && LevelsFrom(n, l)
    requires x in Flatten(n)
    ensures ReachedThroughOpen(n, idx, x)
  {
    if x == n {
      idx := [];
    } else {
      assert x in FlattenSeq(n.children);
      var i := FlattenSeqMember(n.children, x);
      var rest := FlattenSound(n.children[i], l + 1, x);
      idx := [i] + rest;
      assert idx[1..] == rest;
    }
  }

  /** Below the root, every node reached through open folders is listed. */
  lemma {:induction false} FlattenComplete(n: Node, l: int, idx: seq<nat>, x: Node)
    requires l >= 0 && LevelsFrom(n, l)
    requires ReachedThroughOpen(n, idx, x)
    ensures x in Flatten(n)
    decreases |idx|
  {
    if |idx| > 0 {
      var i := idx[0];
      FlattenComplete(n.children[i], l + 1, idx[1..], x);
      FlattenSeqContains(n.children, i, x);
    }
  }

  /** The rows from `i` on start with the listing of the node at `i`. */
  predicate BlockAt(rows: seq<Node>, i: nat)
    requires i < |rows|
  {
    i + |Flatten(rows[i])| <= |rows| && rows[i..i + |Flatten(rows[i])|] == Flatten(rows[i])
  }

  lemma BlockShift(a: seq<Node>, b: seq<Node>, i: nat)
    requires i < |b| && BlockAt(b, i)
    ensures |a| + i < |a + b| && BlockAt(a + b, |a| + i)
  {
    var k := |Flatten(b[i])|;
    assert (a + b)[|a| + i] == b[i];
    assert (a + b)[|a| + i..|a| + i + k] == b[i..i + k];
  }

  lemma BlockPrefix(a: seq<Node>, b: seq<Node>, i: nat)
    requires i < |a| && BlockAt(a, i)
    ensures i < |a + b| && BlockAt(a + b, i)
  {
    var k := |Flatten(a[i])|;
    assert (a + b)[i] == a[i];
    assert (a + b)[i..i + k] == a[i..i + k];
  }

  /** Below the root, every listed node is followed by the rest of its own
      listing, and sits at least at the level of the node listed first. */
  lemma {:induction false} FlattenBlocks(n: Node, l: int)
    requires l >= 0 && LevelsFrom(n, l)
    ensures forall i | 0 <= i < |Flatten(n)| :: Flatten(n)[i].level >= l && BlockAt(Flatten(n), i)
  {
    var s: seq<Node> := if Open(n) then FlattenSeq(n.children) else [];
    assert Flatten(n) == [n] + s;
    if Open(n) {
      FlattenSeqBlocks(n.children, l + 1);
    }
    forall i | 0 <= i < |Flatten(n)|
      ensures Flatten(n)[i].level >= l && BlockAt(Flatten(n), i)
    {
      if i == 0 {
        assert Flatten(n)[0..|Flatten(n)|] == Flatten(n);
      } else {
        BlockShift([n], s, i - 1);
      }
    }
  }

  lemma {:induction false} FlattenSeqBlocks(cs: seq<Node>, l: int)
    requires l >= 0 && forall k | 0 <= k < |cs| :: LevelsFrom(cs[k], l)
    ensures forall i | 0 <= i < |FlattenSeq(cs)| :: FlattenSeq(cs)[i].level >= l && BlockAt(FlattenSeq(cs), i)
  {
    if |cs| > 0 {
      var a: seq<Node> := Flatten(cs[0]);
      var b: seq<Node> := FlattenSeq(cs[1..]);
      FlattenBlocks(cs[0], l);
      FlattenSeqBlocks(cs[1..], l);
      forall i | 0 <= i < |a + b|
        ensures (a + b)[i].level >= l && BlockAt(a + b, i)
      {
        if i < |a| {
          BlockPrefix(a, b, i);
        } else {
          BlockShift(a, b, i - |a|);
        }
      }
    }
  }

  /** `_flatten_recursive` lists in pre-order: every row is followed directly
      by the rows of its own subtree, so the visible descendants of an open
      folder form the block right after it. */
  lemma FlattenPreorder(root: Node)
    requires root.Folder? && LevelsFrom(root, -1)
    ensures forall i | 0 <= i < |Flatten(root)| :: Flatten(root)[i].level >= 0 && BlockAt(Flatten(root), i)
    ensures forall i | 0 <= i < |Flatten(root)| && Open(Flatten(root)[i]) ::
              var d := FlattenSeq(Flatten(root)[i].children);
              i + 1 + |d| <= |Flatten(root)| && Flatten(root)[i + 1..i + 1 + |d|] == d
  {
    RootBlocks(root);
    OpenBlocks(Flatten(root));
  }

  lemma RootBlocks(root: Node)
    requires root.Folder? && LevelsFrom(root, -1)
    ensures forall i | 0 <= i < |Flatten(root)| :: Flatten(root)[i].level >= 0 && BlockAt(Flatten(root), i)
  {
    assert Flatten(root) == FlattenSeq(root.children);
    FlattenSeqBlocks(root.children, 0);
  }

  lemma OpenBlocks(rows: seq<Node>)
    requires forall i | 0 <= i < |rows| :: rows[i].level >= 0 && BlockAt(rows, i)
    ensures forall i | 0 <= i < |rows| && Open(rows[i]) ::
              var d := FlattenSeq(rows[i].children);
              i + 1 + |d| <= |rows| && rows[i + 1..i + 1 + |d|] == d
  {
    forall i | 0 <= i < |rows| && Open(rows[i])
      ensures var d := FlattenSeq(rows[i].children);
              i + 1 + |d| <= |rows| && rows[i + 1..i + 1 + |d|] == d
    {
      OpenBlock(rows, i);
    }
  }

  /** The block of an open folder below the root: the folder, then its
      children's rows. */
  lemma OpenBlock(rows: seq<Node>, i: nat)
    requires i < |rows| && rows[i].level >= 0 && Open(rows[i]) && BlockAt(rows, i)
    ensures var d := FlattenSeq(rows[i].children);
            i + 1 + |d| <= |rows| && rows[i + 1..i + 1 + |d|] == d
  {
    var x := rows[i];
    var d := FlattenSeq(x.children);
    assert Flatten(x) == [x] + d;
    assert rows[i + 1..i + 1 + |d|] == rows[i..i + |Flatten(x)|][1..];
  }

  /** The visible list never holds the root, and holds a node exactly when
      every folder on the way down to it, other than the root, is expanded. */
  lemma FlattenRootShows(root: Node, x: Node)
    requires root.Folder? && LevelsFrom(root, -1)
    ensures x in Flatten(root) <==> exists idx :: |idx| > 0 && ReachedThroughOpen(root, idx, x)
  {
    assert Flatten(root) == FlattenSeq(root.children);
    if x in Flatten(root) {
      var i := FlattenSeqMember(root.children, x);
      var rest := FlattenSound(root.children[i], 0, x);
      assert ([i] + rest)[1..] == rest;
      assert ReachedThroughOpen(root, [i] + rest, x);
    }
    if exists idx :: |idx| > 0 && ReachedThroughOpen(root, idx, x) {
      var idx :| |idx| > 0 && ReachedThroughOpen(root, idx, x);
      var i := idx[0];
      FlattenComplete(root.children[i], 0, idx[1..], x);
      FlattenSeqContains(root.children, i, x);
    }
  }

  /** A folder on the visible list is one of the tree's folders. */
  lemma {:induction false} FlattenFolderFlag(n: Node, x: Node)
    requires x in Flatten(n) && x.Folder?
    ensures (x.path, x.expanded) in FolderFlags(n)
    decreases n
  {
    if x != n || n.level < 0 {
      if n.level >= 0 {
        assert x in FlattenSeq(n.children);
      } else {
        assert Flatten(n) == (if Open(n) then FlattenSeq(n.children) else []);
      }
      var i := FlattenSeqMember(n.children, x);
      FlattenFolderFlag(n.children[i], x);
      FolderFlagsSeqContains(n.children, i, (x.path, x.expanded));
    }
  }

  lemma {:induction false} FolderFlagsSeqContains(cs: seq<Node>, i: nat, f: (Key, bool))
    requires i < |cs| && f in FolderFlags(cs[i])
    ensures f in FolderFlagsSeq(cs)
    decreases i
  {
    if i > 0 {
      FolderFlagsSeqContains(cs[1..], i - 1, f);
    }
  }

  /** The builder's level rule holds in every well-formed tree. */
  lemma {:induction false} WellFormedLevels(n: Node)
    requires WellFormed(n)
    ensures LevelsFrom(n, n.level)
    decreases n
  {
    if n.Folder? {
      forall i | 0 <= i < |n.children|
        ensures LevelsFrom(n.children[i], n.level + 1)
      {
        WellFormedLevels(n.children[i]);
      }
    }
  }

  /** A node reached through open folders hangs below the node reached one
      step earlier, which is an open folder, and sits as many levels below
      the start as steps were taken. */
  lemma {:induction false} ReachedLast(n: Node, idx: seq<nat>, x: Node) returns (parent: Node)
    requires |idx| > 0 && ReachedThroughOpen(n, idx, x) && WellFormed(n)
    ensures ReachedThroughOpen(n, idx[..|idx| - 1], parent)
    ensures Open(parent) && ChildOf(parent, x)
    ensures x.level == n.level + |idx|
    decreases |idx|
  {
    var c := n.children[idx[0]];
    assert ChildOf(n, c) && WellFormed(c);
    if |idx| == 1 {
      parent := n;
    } else {
      parent := ReachedLast(c, idx[1..], x);
      assert idx[..|idx| - 1][1..] == idx[1..][..|idx[1..]| - 1];
    }
  }
}
