/** The selection engine of the tree variant (agent-manager-tree.py): the
    original/current/change maps keyed by a leaf's path, loading them from
    the install directory of the current view, toggling one leaf, selecting
    or deselecting a folder's visible leaves, the folder summaries computed
    by substring matching, saving the pending changes, and the keys of the
    main loop that move the cursor and fold the tree. */
module TreeEngine {
  import opened Text
  import opened Files
  import opened Catalog
  import opened Tally
  import opened Display
  import opened Selection

  type State = map<Key, LeafState>

  /** `installed_files`: the stems of `*.md` in the view's directory, none
      when there is no such directory. */
  function Installed(check: Option<Location>): set<string> {
    if check.Some? then Stems(check.value) else {}
  }

  /** The state of the tree screen. `order` lists the keys of the three maps
      in insertion order. */
  datatype Session = Session(root: Node, view: View, index: int, state: State, order: seq<Key>)

  // ---------------------------------------------------------------------
  // The folder summary rule (`update_changes_summary`, lines 97-103).
  // ---------------------------------------------------------------------

  /** `str(key)`: a key printed with `/` between its components. */
  function KeyText(k: Key): string {
    Join(k, "/")
  }

  /** The keys with change `c` whose printed form contains `name`. */
  function Matching(name: string, st: State, c: Change): set<Key> {
    set k | k in st && st[k].change == c && IsSubstring(name, KeyText(k))
  }

  /** What a leaf child adds to its folder: one per pending addition
      (removal) whose key contains the leaf's name as a substring. */
  function SubstringRule(st: State): Node -> Summary {
    (l: Node) => Summary(|Matching(l.name, st, Add)|, |Matching(l.name, st, Remove)|)
  }

  /** `update_all_changes_summary` with the tree variant's rule. */
  function UpdateAllSummaries(root: Node, st: State): Node
    requires root.Folder?
  {
    RecountAll(root, SubstringRule(st))
  }

  /** Every folder below the root shows the counts the rule gives. */
  predicate Fresh(s: Session) {
    s.root.Folder? &&
    forall i | 0 <= i < |s.root.children| :: Tallied(s.root.children[i], SubstringRule(s.state))
  }

  /** With nothing pending, every folder count is zero. */
  lemma SettledRuleZero(st: State, l: Node)
    requires forall k | k in st :: Settled(st[k])
    ensures SubstringRule(st)(l) == NoChanges
  {
    assert Matching(l.name, st, Add) == {};
    assert Matching(l.name, st, Remove) == {};
  }

  /** With nothing pending, a subtree's counts agree with the maps exactly
      when it shows no count at all. */
  lemma SettledTalliedIffQuiet(n: Node, st: State)
    requires forall k | k in st :: Settled(st[k])
    ensures Tallied(n, SubstringRule(st)) <==> Quiet(n)
  {
    var rule := SubstringRule(st);
    forall l | l in Leaves(n)
      ensures rule(l) == NoChanges
    {
      SettledRuleZero(st, l);
    }
    if Quiet(n) {
      QuietTallied(n, rule);
    }
    if Tallied(n, rule) {
      TalliedQuiet(n, rule);
    }
  }

  // ---------------------------------------------------------------------
  // Loading (`load_installation_state`, `_mark_installed_recursive`).
  // ---------------------------------------------------------------------

  /** The entries a leaf gets on load: selected exactly when installed, no change. */
  function Mark(l: Node, inst: set<string>): (x: LeafState)
    ensures Settled(x) && (x.original <==> l.name in inst)
  {
    LeafState(l.name in inst, l.name in inst, NoChange)
  }

  /** Visits the leaves in order, each one writing its key. */
  function MarkInstalled(ls: seq<Node>, inst: set<string>, st: State): (r: State)
    ensures (forall k | k in st :: Settled(st[k])) ==> forall k | k in r :: Settled(r[k])
    decreases |ls|
  {
    if |ls| == 0 then st
    else MarkInstalled(ls[1..], inst, st[ls[0].path := Mark(ls[0], inst)])
  }

  /** The pass adds exactly the visited keys. */
  lemma {:induction false} MarkInstalledKeys(ls: seq<Node>, inst: set<string>, st: State)
    ensures forall k :: k in MarkInstalled(ls, inst, st) <==> k in st || exists i | 0 <= i < |ls| :: ls[i].path == k
    decreases |ls|
  {
    if |ls| > 0 {
      var tail := ls[1..];
      var st' := st[ls[0].path := Mark(ls[0], inst)];
      MarkInstalledKeys(tail, inst, st');
      var r := MarkInstalled(ls, inst, st);
      assert r == MarkInstalled(tail, inst, st');
      forall k
        ensures k in r <==> k in st || exists i | 0 <= i < |ls| :: ls[i].path == k
      {
        if exists j | 0 <= j < |tail| :: tail[j].path == k {
          var j :| 0 <= j < |tail| && tail[j].path == k;
          assert ls[j + 1].path == k;
        }
        if exists i | 0 <= i < |ls| :: ls[i].path == k {
          var i :| 0 <= i < |ls| && ls[i].path == k;
          if i > 0 {
            assert tail[i - 1].path == k;
          }
        }
      }
    }
  }

  /** The pass keeps the entry of every key it does not visit. */
  lemma {:induction false} MarkInstalledKeeps(ls: seq<Node>, inst: set<string>, st: State, k: Key)
    requires k in st && forall i | 0 <= i < |ls| :: ls[i].path != k
    ensures k in MarkInstalled(ls, inst, st) && MarkInstalled(ls, inst, st)[k] == st[k]
    decreases |ls|
  {
    if |ls| > 0 {
      var tail := ls[1..];
      assert forall j | 0 <= j < |tail| :: tail[j] == ls[j + 1];
      MarkInstalledKeeps(tail, inst, st[ls[0].path := Mark(ls[0], inst)], k);
    }
  }

  /** When leaves sharing a key share a name, every leaf's key holds that
      leaf's load entry. */
  lemma {:induction false} MarkInstalledValues(ls: seq<Node>, inst: set<string>, st: State)
    requires forall i, j | 0 <= i < |ls| && 0 <= j < |ls| && ls[i].path == ls[j].path :: ls[i].name == ls[j].name
    ensures forall i | 0 <= i < |ls| :: ls[i].path in MarkInstalled(ls, inst, st)
    ensures forall i | 0 <= i < |ls| :: MarkInstalled(ls, inst, st)[ls[i].path] == Mark(ls[i], inst)
    decreases |ls|
  {
    if |ls| > 0 {
      var st' := st[ls[0].path := Mark(ls[0], inst)];
      var tail := ls[1..];
      MarkInstalledValues(tail, inst, st');
      var r := MarkInstalled(ls, inst, st);
      assert r == MarkInstalled(tail, inst, st');
      forall i | 0 <= i < |ls|
        ensures ls[i].path in r && r[ls[i].path] == Mark(ls[i], inst)
      {
        if i > 0 {
          assert ls[i] == tail[i - 1];
        } else if exists j | 0 <= j < |tail| :: tail[j].path == ls[0].path {
          var j :| 0 <= j < |tail| && tail[j].path == ls[0].path;
          assert tail[j] == ls[j + 1];
        } else {
          MarkInstalledKeeps(tail, inst, st', ls[0].path);
        }
      }
    }
  }

  /** `load_installation_state()` for a tree: every map cleared and refilled
      from the view's directory. */
  function LoadState(root: Node, check: Option<Location>): State {
    MarkInstalled(Leaves(root), Installed(check), map[])
  }

  function LoadOrder(root: Node): seq<Key> {
    InsertionOrder(LeafKeys(root), [])
  }

  /** After a load, the maps hold exactly the leaves' keys; each leaf is
      original and current exactly when its stem is installed, with no
      pending change. */
  lemma LoadSpec(root: Node, check: Option<Location>)
    requires forall l | l in Leaves(root) :: KeyedByName(l)
    ensures var st := LoadState(root, check);
      && (forall k :: k in st <==> k in LeafKeys(root))
      && (forall k :: k in LoadOrder(root) <==> k in st)
      && (forall l | l in Leaves(root) ::
            var b := l.name in Installed(check); st[l.path] == LeafState(b, b, NoChange))
      && (forall k | k in st :: Settled(st[k]))
      && Consistent(st)
  {
    LoadKeys(root, check);
    LoadValues(root, check);
  }

  lemma LoadKeys(root: Node, check: Option<Location>)
    ensures forall k :: k in LoadState(root, check) <==> k in LeafKeys(root)
  {
    var ls := Leaves(root);
    MarkInstalledKeys(ls, Installed(check), map[]);
    var st := LoadState(root, check);
    forall k
      ensures k in st <==> k in LeafKeys(root)
    {
      if k in st {
        var i :| 0 <= i < |ls| && ls[i].path == k;
        assert LeafKeys(root)[i] == k;
      }
      if k in LeafKeys(root) {
        var i :| 0 <= i < |LeafKeys(root)| && LeafKeys(root)[i] == k;
        assert ls[i].path == k;
      }
    }
  }

  lemma LoadValues(root: Node, check: Option<Location>)
    requires forall l | l in Leaves(root) :: KeyedByName(l)
    ensures forall l | l in Leaves(root) ::
              l.path in LoadState(root, check) && LoadState(root, check)[l.path] == Mark(l, Installed(check))
  {
    var ls := Leaves(root);
    forall i, j | 0 <= i < |ls| && 0 <= j < |ls| && ls[i].path == ls[j].path
      ensures ls[i].name == ls[j].name
    {
      assert KeyedByName(ls[i]) && KeyedByName(ls[j]);
      FileOfInjective(ls[i].name, ls[j].name);
    }
    MarkInstalledValues(ls, Installed(check), map[]);
  }

  /** A leaf keyed by its file name counts as installed exactly when the
      view has a directory holding that file (or, for the stem ".md", a bare
      ".md" file); with no directory nothing is installed. */
  lemma InstalledIff(l: Node, check: Option<Location>)
    requires KeyedByName(l)
    ensures l.name in Installed(check) <==>
              check.Some? && check.value.Some? &&
              (l.path[|l.path| - 1] in check.value.value || (l.name == MdExt && MdExt in check.value.value))
  {
    if check.Some? {
      StemsIff(check.value, l.name);
    }
  }

  // ---------------------------------------------------------------------
  // The session invariant, start-up and reloads.
  // ---------------------------------------------------------------------

  /** A key as a leaf of the catalog has it: a `.md` file name last. */
  predicate LeafKey(k: Key) {
    |k| > 0 && HasMdSuffix(k[|k| - 1])
  }

  /** What every key handler keeps: a catalog tree, one entry per leaf key,
      changes that follow from the selection, and the key order of the maps. */
  predicate Inv(s: Session) {
    && IsCatalogRoot(s.root)
    && (forall l | l in Leaves(s.root) :: l.path in s.state)
    && (forall k | k in s.state :: LeafKey(k))
    && Consistent(s.state)
    && (forall i, j | 0 <= i < j < |s.order| :: s.order[i] != s.order[j])
    && (forall k | k in s.state :: k in s.order)
    && (forall i | 0 <= i < |s.order| :: s.order[i] in s.state)
  }

  /** Recounting the root's children keeps the catalog tree and its leaves. */
  lemma RecountAllKeepsTree(root: Node, rule: Node -> Summary)
    requires IsCatalogRoot(root)
    ensures IsCatalogRoot(RecountAll(root, rule))
    ensures Leaves(RecountAll(root, rule)) == Leaves(root)
    ensures forall i | 0 <= i < |root.children| :: Tallied(RecountAll(root, rule).children[i], rule)
  {
    var r := RecountAll(root, rule);
    forall i | 0 <= i < |r.children|
      ensures ChildOf(r, r.children[i]) && WellFormed(r.children[i])
    {
      var c := root.children[i];
      assert Skeleton(r.children[i]) == Skeleton(c);
      SkeletonWellFormed(c, r.children[i]);
      assert ChildOf(root, c) && WellFormed(c);
      match c
      case Leaf(_, _, _) =>
      case Folder(_, _, _, _, _, _, _) =>
        assert Skeleton(c).path == Skeleton(r.children[i]).path;
    }
    LeavesSeqPointwise(root.children, r.children);
  }

  /** Leaves of a well-formed tree are keyed by their file names. */
  lemma CatalogLeaves(root: Node)
    requires IsCatalogRoot(root)
    ensures forall l | l in Leaves(root) :: KeyedByName(l)
    ensures forall k | k in LeafKeys(root) :: LeafKey(k)
  {
    WellFormedLeavesKeyed(root);
    forall k | k in LeafKeys(root)
      ensures LeafKey(k)
    {
      var i :| 0 <= i < |LeafKeys(root)| && LeafKeys(root)[i] == k;
      var l := Leaves(root)[i];
      assert KeyedByName(l);
      StemOfFile(l.name);
    }
  }

  /** The constructor: general view, cursor on the first row, state loaded
      from the user directory. Summaries start at zero. */
  function Start(root: Node, targets: Targets): Session {
    Session(root, General, 0, LoadState(root, Some(targets.user)), LoadOrder(root))
  }

  /** `load_installation_state(); flatten_tree()` as the code calls it after
      a save, on ESC and on a view switch: the maps are reloaded, the folder
      summaries are left as they were. */
  function ReloadAsWritten(s: Session, targets: Targets): Session {
    s.(state := LoadState(s.root, TargetOf(targets, s.view)), order := LoadOrder(s.root))
  }

  /** A reload as written leaves a valid session with nothing pending and
      each leaf selected exactly when installed; the tree is left as it was,
      so its counts agree with the new maps exactly when it showed none. */
  lemma ReloadAsWrittenSpec(s: Session, targets: Targets)
    requires IsCatalogRoot(s.root)
    ensures var r := ReloadAsWritten(s, targets);
      && Inv(r) && r.root == s.root && r.view == s.view && r.index == s.index
      && (forall l | l in Leaves(s.root) ::
            var b := l.name in Installed(TargetOf(targets, s.view));
            r.state[l.path] == LeafState(b, b, NoChange))
      && (forall k | k in r.state :: Settled(r.state[k]))
      && (Fresh(r) <==> forall i | 0 <= i < |s.root.children| :: Quiet(s.root.children[i]))
  {
    var r := ReloadAsWritten(s, targets);
    CatalogLeaves(s.root);
    LoadSpec(s.root, TargetOf(targets, s.view));
    forall l | l in Leaves(s.root)
      ensures l.path in r.state
    {
      var i :| 0 <= i < |Leaves(s.root)| && Leaves(s.root)[i] == l;
      assert LeafKeys(s.root)[i] == l.path;
    }
    InsertionOrderOf(LeafKeys(s.root));
    forall i | 0 <= i < |s.root.children|
      ensures Tallied(s.root.children[i], SubstringRule(r.state)) <==> Quiet(s.root.children[i])
    {
      SettledTalliedIffQuiet(s.root.children[i], r.state);
    }
  }

  /** The corrected reload: the folder summaries are recounted against the
      new maps. */
  function Reload(s: Session, targets: Targets): Session
    requires s.root.Folder?
  {
    var r := ReloadAsWritten(s, targets);
    r.(root := UpdateAllSummaries(s.root, r.state))
  }

  /** The corrected reload leaves a valid session with nothing pending and
      every folder summary at zero. */
  lemma ReloadSpec(s: Session, targets: Targets)
    requires IsCatalogRoot(s.root)
    ensures var r := Reload(s, targets);
      && Inv(r) && Fresh(r)
      && (forall k | k in r.state :: Settled(r.state[k]))
      && (forall i | 0 <= i < |r.root.children| :: Quiet(r.root.children[i]))
      && r.view == s.view && r.index == s.index && Leaves(r.root) == Leaves(s.root)
  {
    var r := Reload(s, targets);
    CatalogLeaves(s.root);
    LoadSpec(s.root, TargetOf(targets, s.view));
    var rule := SubstringRule(r.state);
    RecountAllKeepsTree(s.root, rule);
    forall l | l in Leaves(r.root)
      ensures l.path in r.state
    {
      var i :| 0 <= i < |Leaves(s.root)| && Leaves(s.root)[i] == l;
      assert LeafKeys(s.root)[i] == l.path;
    }
    forall i | 0 <= i < |r.root.children|
      ensures Quiet(r.root.children[i])
    {
      forall l | l in Leaves(r.root.children[i])
        ensures rule(l) == NoChanges
      {
        SettledRuleZero(r.state, l);
      }
      TalliedQuiet(r.root.children[i], rule);
    }
    InsertionOrderOf(LeafKeys(s.root));
  }

  // ---------------------------------------------------------------------
  // Toggling one leaf (`toggle_selection`).
  // ---------------------------------------------------------------------

  /** `toggle_selection(node)`: a folder is left alone; a leaf's selection
      flips, its change is reclassified, nothing else in the maps changes,
      and the folder summaries are recounted. */
  function ToggleSelection(s: Session, n: Node): (r: Session)
    requires s.root.Folder?
    requires n.Leaf? ==> n.path in s.state
    ensures n.Folder? ==> r == s
    ensures n.Leaf? ==> r.state.Keys == s.state.Keys && r.order == s.order && r.view == s.view && r.index == s.index
    ensures n.Leaf? ==> forall k | k in s.state && k != n.path :: r.state[k] == s.state[k]
    ensures n.Leaf? ==>
              r.state[n.path].original == s.state[n.path].original &&
              r.state[n.path].current == !s.state[n.path].current &&
              r.state[n.path].change == Classify(r.state[n.path].current, r.state[n.path].original)
    ensures n.Leaf? ==> r.root == UpdateAllSummaries(s.root, r.state)
  {
    if n.Folder? then s
    else
      var st := s.state[n.path := Toggled(s.state[n.path])];
      s.(state := st, root := UpdateAllSummaries(s.root, st))
  }

  /** Toggling keeps the session invariant and fresh summaries. */
  lemma ToggleKeepsInv(s: Session, n: Node)
    requires Inv(s)
    requires n.Leaf? ==> n.path in s.state
    ensures Inv(ToggleSelection(s, n))
    ensures n.Leaf? ==> Fresh(ToggleSelection(s, n))
  {
    if n.Leaf? {
      var r := ToggleSelection(s, n);
      RecountAllKeepsTree(s.root, SubstringRule(r.state));
    }
  }

  /** Toggling the same leaf twice restores the session when the summaries
      were up to date. */
  lemma ToggleTwice(s: Session, n: Node)
    requires Fresh(s) && Consistent(s.state)
    requires n.Leaf? ==> n.path in s.state
    ensures ToggleSelection(ToggleSelection(s, n), n) == s
  {
    if n.Leaf? {
      var once := ToggleSelection(s, n);
      var twice := ToggleSelection(once, n);
      assert twice.state == s.state;
      var rule := SubstringRule(s.state);
      forall i | 0 <= i < |s.root.children|
        ensures twice.root.children[i] == s.root.children[i]
      {
        var c := s.root.children[i];
        var c1 := Recount(c, SubstringRule(once.state));
        assert twice.root.children[i] == Recount(c1, rule);
        TalliedUnique(Recount(c1, rule), c, rule);
      }
      assert twice.root.children == s.root.children;
    }
  }

  // ---------------------------------------------------------------------
  // Selecting or deselecting a folder's visible leaves (keys 'a' and 'n').
  // ---------------------------------------------------------------------

  /** The folder a node belongs to, by path: the leaf's parent folder, or
      the root (the empty path) for a top-level node. */
  function ParentPath(x: Node): Key {
    if |x.path| == 0 then [] else x.path[..|x.path| - 1]
  }

  /** One leaf set to `desired` with the branches of the 'a' and 'n' keys. */
  function SetSelected(x: LeafState, desired: bool): LeafState {
    LeafState(x.original, desired,
      if desired then (if desired != x.original then Add else NoChange)
      else (if desired != x.original then Remove else NoChange))
  }

  /** The branches of the 'a' and 'n' keys classify as toggling does. */
  lemma SetSelectedClassifies(x: LeafState, desired: bool)
    ensures SetSelected(x, desired) == LeafState(x.original, desired, Classify(desired, x.original))
  {
  }

  /** `k` is the key of a visible leaf whose parent has path `pp`. */
  predicate InGroup(flat: seq<Node>, pp: Key, k: Key) {
    exists i | 0 <= i < |flat| :: flat[i].Leaf? && ParentPath(flat[i]) == pp && flat[i].path == k
  }

  /** The loop over `flattened_nodes` of the 'a' and 'n' keys. */
  function GroupFold(flat: seq<Node>, pp: Key, desired: bool, st: State): (r: State)
    requires forall i | 0 <= i < |flat| && flat[i].Leaf? && ParentPath(flat[i]) == pp :: flat[i].path in st
    ensures r.Keys == st.Keys
    ensures forall k | k in st :: r[k] == (if InGroup(flat, pp, k) then SetSelected(st[k], desired) else st[k])
    decreases |flat|
  {
    if |flat| == 0 then st
    else
      var x := flat[0];
      var st' := if x.Leaf? && ParentPath(x) == pp then st[x.path := SetSelected(st[x.path], desired)] else st;
      assert forall i | 0 <= i < |flat[1..]| :: flat[1..][i] == flat[i + 1];
      var r := GroupFold(flat[1..], pp, desired, st');
      InGroupCons(flat, pp);
      r
  }

  /** A key is in the group of a list exactly when the first row is a leaf
      of the group with that key or the key is in the group of the rest. */
  lemma InGroupCons(flat: seq<Node>, pp: Key)
    requires |flat| > 0
    ensures forall k :: InGroup(flat, pp, k) <==>
              (flat[0].Leaf? && ParentPath(flat[0]) == pp && flat[0].path == k) || InGroup(flat[1..], pp, k)
  {
    forall k
      ensures InGroup(flat, pp, k) ==> (flat[0].Leaf? && ParentPath(flat[0]) == pp && flat[0].path == k) || InGroup(flat[1..], pp, k)
    {
      if InGroup(flat, pp, k) {
        var i :| 0 <= i < |flat| && flat[i].Leaf? && ParentPath(flat[i]) == pp && flat[i].path == k;
        if i > 0 {
          assert flat[1..][i - 1] == flat[i];
        }
      }
    }
    forall k | InGroup(flat[1..], pp, k)
      ensures InGroup(flat, pp, k)
    {
      var i :| 0 <= i < |flat[1..]| && flat[1..][i].Leaf? && ParentPath(flat[1..][i]) == pp && flat[1..][i].path == k;
      assert flat[i + 1] == flat[1..][i];
    }
  }

  /** Selecting (or deselecting) a group twice is selecting it once. */
  lemma GroupFoldIdempotent(flat: seq<Node>, pp: Key, desired: bool, st: State)
    requires forall i | 0 <= i < |flat| && flat[i].Leaf? && ParentPath(flat[i]) == pp :: flat[i].path in st
    ensures GroupFold(flat, pp, desired, GroupFold(flat, pp, desired, st)) == GroupFold(flat, pp, desired, st)
  {
  }

  /** The visible rows below the root. */
  function Rows(s: Session): seq<Node> {
    Flatten(s.root)
  }

  /** The group the 'a' and 'n' keys act on: a leaf's parent, or the folder
      under the cursor itself. */
  function GroupOf(cur: Node): Key {
    if cur.Folder? then cur.path else ParentPath(cur)
  }

  /** Keys 'a' (desired = true) and 'n' (desired = false): nothing happens
      unless the cursor is on a row; otherwise every visible leaf of the
      group gets the desired selection and the change the toggle would give,
      all other keys keep their entries, and the summaries are recounted. */
  function SelectGroup(s: Session, desired: bool): (r: Session)
    requires s.root.Folder?
    requires forall i | 0 <= i < |Rows(s)| && Rows(s)[i].Leaf? :: Rows(s)[i].path in s.state
    ensures !(0 <= s.index < |Rows(s)|) ==> r == s
    ensures r.state.Keys == s.state.Keys && r.order == s.order && r.view == s.view && r.index == s.index
    ensures 0 <= s.index < |Rows(s)| ==>
              var pp := GroupOf(Rows(s)[s.index]);
              forall k | k in s.state ::
                if InGroup(Rows(s), pp, k)
                then r.state[k] == LeafState(s.state[k].original, desired, Classify(desired, s.state[k].original))
                else r.state[k] == s.state[k]
    ensures 0 <= s.index < |Rows(s)| ==> r.root == UpdateAllSummaries(s.root, r.state)
  {
    var flat := Rows(s);
    if !(0 <= s.index < |flat|) then s
    else
      var st := GroupFold(flat, GroupOf(flat[s.index]), desired, s.state);
      s.(state := st, root := UpdateAllSummaries(s.root, st))
  }

  /** Selecting a group keeps the session invariant. */
  lemma SelectGroupKeepsInv(s: Session, desired: bool)
    requires Inv(s)
    requires forall i | 0 <= i < |Rows(s)| && Rows(s)[i].Leaf? :: Rows(s)[i].path in s.state
    ensures Inv(SelectGroup(s, desired))
  {
    var r := SelectGroup(s, desired);
    if 0 <= s.index < |Rows(s)| {
      GroupUpdateConsistent(s.state, r.state, Rows(s), GroupOf(Rows(s)[s.index]), desired);
      RecountAllKeepsTree(s.root, SubstringRule(r.state));
      NewStateKeepsInv(s, r);
    }
  }

  /** Giving every key of a group the desired selection and its matching
      change keeps the state consistent. */
  lemma GroupUpdateConsistent(st: State, st2: State, flat: seq<Node>, pp: Key, desired: bool)
    requires Consistent(st) && st2.Keys == st.Keys
    requires forall k | k in st ::
               if InGroup(flat, pp, k)
               then st2[k] == LeafState(st[k].original, desired, Classify(desired, st[k].original))
               else st2[k] == st[k]
    ensures Consistent(st2)
  {
  }

  /** A recounted tree with the same leaves and a consistent state over the
      same keys keep the invariant. */
  lemma NewStateKeepsInv(s: Session, r: Session)
    requires Inv(s) && IsCatalogRoot(r.root) && Leaves(r.root) == Leaves(s.root)
    requires r.state.Keys == s.state.Keys && r.order == s.order && Consistent(r.state)
    ensures Inv(r)
  {
  }

  // ---------------------------------------------------------------------
  // Saving (`save_changes`, `get_changes_summary`, keys 's' and 'q').
  // ---------------------------------------------------------------------

  /** `f"{Path(key).stem}.md"`: the file a key is installed as, which is the
      key's own file name. */
  function TargetName(k: Key): (f: string)
    requires LeafKey(k)
    ensures f == k[|k| - 1]
  {
    FileOf(MdStem(k[|k| - 1]))
  }

  /** What one entry of `changes` does to the target directory: a pending
      addition copies the catalog file when it exists, a pending removal
      deletes the installed file, no change does nothing. */
  function OpsFor(k: Key, x: LeafState, catalog: map<Key, Content>): (ops: seq<Op>)
    requires LeafKey(k)
    ensures x.change == NoChange ==> ops == []
    ensures forall i | 0 <= i < |ops| :: ops[i].name == TargetName(k)
  {
    match x.change
    case NoChange => []
    case Add => if k in catalog then [Write(TargetName(k), catalog[k])] else []
    case Remove => [Delete(TargetName(k))]
  }

  predicate KeysIn(keys: seq<Key>, st: State) {
    forall i | 0 <= i < |keys| :: keys[i] in st && LeafKey(keys[i])
  }

  /** Some key with a pending change is installed as file `f`. */
  predicate Targeted(keys: seq<Key>, st: State, f: string)
    requires KeysIn(keys, st)
  {
    exists j | 0 <= j < |keys| :: st[keys[j]].change != NoChange && TargetName(keys[j]) == f
  }

  /** The operations of one key; keys outside the maps ask for none. */
  function KeyOps(st: State, catalog: map<Key, Content>): Key -> seq<Op> {
    k => if k in st && LeafKey(k) then OpsFor(k, st[k], catalog) else []
  }

  /** The loop of `save_changes` over `changes.items()`, in key order. */
  function SaveOps(keys: seq<Key>, st: State, catalog: map<Key, Content>): seq<Op> {
    OpsOf(keys, KeyOps(st, catalog))
  }

  /** A file no pending key is installed as is not touched by a save. */
  lemma SaveOpsUntargeted(keys: seq<Key>, st: State, catalog: map<Key, Content>, f: string)
    requires KeysIn(keys, st)
    requires !Targeted(keys, st, f)
    ensures LastOn(SaveOps(keys, st, catalog), f) == None
  {
    var ops := KeyOps(st, catalog);
    forall j, i | 0 <= j < |keys| && 0 <= i < |ops(keys[j])|
      ensures ops(keys[j])[i].name != f
    {
      assert st[keys[j]].change != NoChange;
    }
    OpsOfSpares(keys, ops, f);
  }

  /** No other pending key of `keys` is installed under `k`'s file name. */
  predicate OnlyTarget(keys: seq<Key>, st: State, k: Key)
    requires KeysIn(keys, st) && LeafKey(k)
  {
    forall j | 0 <= j < |keys| && keys[j] != k && st[keys[j]].change != NoChange ::
      TargetName(keys[j]) != TargetName(k)
  }

  /** When `k` is the only pending key for its file, the last operation of
      the save on that file is the one `k`'s own change asks for. */
  lemma SaveOpsLast(keys: seq<Key>, st: State, catalog: map<Key, Content>, k: Key)
    requires KeysIn(keys, st) && k in keys && LeafKey(k)
    requires OnlyTarget(keys, st, k)
    ensures LastOn(SaveOps(keys, st, catalog), TargetName(k)) == LastOn(OpsFor(k, st[k], catalog), TargetName(k))
  {
    var ops := KeyOps(st, catalog);
    forall j, i | 0 <= j < |keys| && keys[j] != k && 0 <= i < |ops(keys[j])|
      ensures ops(keys[j])[i].name != TargetName(k)
    {
      assert st[keys[j]].change != NoChange;
    }
    OpsOfLast(keys, ops, k, TargetName(k));
  }

  /** The view's directory after `mkdir` and the copies and deletions. */
  function SavedDir(s: Session, targets: Targets, catalog: map<Key, Content>): Dir
    requires TargetOf(targets, s.view).Some? && KeysIn(s.order, s.state)
  {
    Run(SaveOps(s.order, s.state, catalog), Ensure(TargetOf(targets, s.view).value))
  }

  /** `save_changes()` as written: the files are written, then the maps are
      reloaded and the folder summaries are left as they were. */
  function SaveChangesAsWritten(s: Session, targets: Targets, catalog: map<Key, Content>): (Session, Targets)
    requires TargetOf(targets, s.view).Some? && KeysIn(s.order, s.state)
  {
    var t := WithTarget(targets, s.view, SavedDir(s, targets, catalog));
    (ReloadAsWritten(s, t), t)
  }

  /** `save_changes()` with the summaries recounted by the reload. */
  function SaveChanges(s: Session, targets: Targets, catalog: map<Key, Content>): (Session, Targets)
    requires s.root.Folder?
    requires TargetOf(targets, s.view).Some? && KeysIn(s.order, s.state)
  {
    var t := WithTarget(targets, s.view, SavedDir(s, targets, catalog));
    (Reload(s, t), t)
  }

  /** The effect of a save on the files of the view's directory: a file no
      pending key is installed as keeps what it held (absent stays absent);
      a key alone on its file gets the catalog content for an addition whose
      source exists, and loses the file for a removal. The other view's
      directory is not touched. */
  lemma SaveFiles(s: Session, targets: Targets, catalog: map<Key, Content>)
    requires TargetOf(targets, s.view).Some? && KeysIn(s.order, s.state)
    ensures var before := Ensure(TargetOf(targets, s.view).value);
      var after := SavedDir(s, targets, catalog);
      var t := SaveChangesAsWritten(s, targets, catalog).1;
      && TargetOf(t, s.view) == Some(Some(after))
      && (forall w: View | w != s.view :: TargetOf(t, w) == TargetOf(targets, w))
      && (forall f | !Targeted(s.order, s.state, f) :: Get(after, f) == Get(before, f))
      && (forall k | k in s.order && OnlyTarget(s.order, s.state, k) ::
            && (s.state[k].change == Add && k in catalog ==> Get(after, k[|k| - 1]) == Some(catalog[k]))
            && (s.state[k].change == Add && k !in catalog ==> Get(after, k[|k| - 1]) == Get(before, k[|k| - 1]))
            && (s.state[k].change == Remove ==> Get(after, k[|k| - 1]) == None))
  {
    forall f | !Targeted(s.order, s.state, f)
      ensures Get(SavedDir(s, targets, catalog), f) == Get(Ensure(TargetOf(targets, s.view).value), f)
    {
      SavedUntargeted(s, targets, catalog, f);
    }
    forall k | k in s.order && OnlyTarget(s.order, s.state, k)
      ensures SavedOnly(s, targets, catalog, k)
    {
      SavedTargeted(s, targets, catalog, k);
    }
  }

  /** What a save does to the file of a key alone on it. */
  predicate SavedOnly(s: Session, targets: Targets, catalog: map<Key, Content>, k: Key)
    requires TargetOf(targets, s.view).Some? && KeysIn(s.order, s.state) && k in s.state && |k| > 0
  {
    var before := Ensure(TargetOf(targets, s.view).value);
    var after := SavedDir(s, targets, catalog);
    && (s.state[k].change == Add && k in catalog ==> Get(after, k[|k| - 1]) == Some(catalog[k]))
    && (s.state[k].change == Add && k !in catalog ==> Get(after, k[|k| - 1]) == Get(before, k[|k| - 1]))
    && (s.state[k].change == Remove ==> Get(after, k[|k| - 1]) == None)
  }

  lemma SavedUntargeted(s: Session, targets: Targets, catalog: map<Key, Content>, f: string)
    requires TargetOf(targets, s.view).Some? && KeysIn(s.order, s.state)
    requires !Targeted(s.order, s.state, f)
    ensures Get(SavedDir(s, targets, catalog), f) == Get(Ensure(TargetOf(targets, s.view).value), f)
  {
    SaveOpsUntargeted(s.order, s.state, catalog, f);
    RunEffect(SaveOps(s.order, s.state, catalog), Ensure(TargetOf(targets, s.view).value), f);
  }

  lemma SavedTargeted(s: Session, targets: Targets, catalog: map<Key, Content>, k: Key)
    requires TargetOf(targets, s.view).Some? && KeysIn(s.order, s.state)
    requires k in s.order && OnlyTarget(s.order, s.state, k)
    ensures k in s.state && |k| > 0 && SavedOnly(s, targets, catalog, k)
  {
    SaveOpsLast(s.order, s.state, catalog, k);
    RunEffect(SaveOps(s.order, s.state, catalog), Ensure(TargetOf(targets, s.view).value), TargetName(k));
  }

  /** With nothing pending a save only creates the directory. */
  lemma SaveNothingPending(s: Session, targets: Targets, catalog: map<Key, Content>)
    requires TargetOf(targets, s.view).Some? && KeysIn(s.order, s.state)
    requires forall k | k in s.state :: Settled(s.state[k])
    ensures SavedDir(s, targets, catalog) == Ensure(TargetOf(targets, s.view).value)
  {
    var before := Ensure(TargetOf(targets, s.view).value);
    forall f
      ensures Get(SavedDir(s, targets, catalog), f) == Get(before, f)
    {
      SaveOpsUntargeted(s.order, s.state, catalog, f);
      RunEffect(SaveOps(s.order, s.state, catalog), before, f);
    }
    DirExt(SavedDir(s, targets, catalog), before);
  }

  /** After a save the session is valid and nothing is pending, while the
      tree, counts included, is kept; an agent added alone on its file now
      counts as installed, and one removed alone on its file no longer does. */
  lemma SaveReloads(s: Session, targets: Targets, catalog: map<Key, Content>)
    requires Inv(s) && TargetOf(targets, s.view).Some?
    ensures KeysIn(s.order, s.state)
    ensures var r := SaveChangesAsWritten(s, targets, catalog).0;
      && Inv(r) && r.root == s.root && r.view == s.view && r.index == s.index
      && (forall k | k in r.state :: Settled(r.state[k]))
      && (forall l | l in Leaves(s.root) && OnlyTarget(s.order, s.state, l.path) ::
            && (s.state[l.path].change == Add && l.path in catalog ==> r.state[l.path].current)
            && (s.state[l.path].change == Remove && l.name != MdExt ==> !r.state[l.path].current))
  {
    var t := SaveChangesAsWritten(s, targets, catalog).1;
    var r := SaveChangesAsWritten(s, targets, catalog).0;
    ReloadAsWrittenSpec(s, t);
    SaveFiles(s, targets, catalog);
    CatalogLeaves(s.root);
    LoadSpec(s.root, TargetOf(t, s.view));
    forall l | l in Leaves(s.root) && OnlyTarget(s.order, s.state, l.path)
      ensures s.state[l.path].change == Add && l.path in catalog ==> r.state[l.path].current
      ensures s.state[l.path].change == Remove && l.name != MdExt ==> !r.state[l.path].current
    {
      InstalledIff(l, TargetOf(t, s.view));
    }
  }

  /** The corrected save: the session is valid, nothing is pending, and the
      recount leaves every folder summary at zero. */
  lemma SaveRecountsBadges(s: Session, targets: Targets, catalog: map<Key, Content>)
    requires Inv(s) && TargetOf(targets, s.view).Some?
    ensures KeysIn(s.order, s.state)
    ensures var r := SaveChanges(s, targets, catalog).0;
      && Inv(r) && Fresh(r)
      && (forall k | k in r.state :: Settled(r.state[k]))
      && (forall i | 0 <= i < |r.root.children| :: Quiet(r.root.children[i]))
      && r.view == s.view && r.index == s.index && Leaves(r.root) == Leaves(s.root)
  {
    ReloadSpec(s, SaveChanges(s, targets, catalog).1);
  }

  /** Saving right after a save changes nothing. */
  lemma SaveTwice(s: Session, targets: Targets, catalog: map<Key, Content>)
    requires Inv(s) && TargetOf(targets, s.view).Some?
    ensures KeysIn(s.order, s.state)
    ensures var (r, t) := SaveChangesAsWritten(s, targets, catalog);
      KeysIn(r.order, r.state) && TargetOf(t, r.view).Some? &&
      SaveChangesAsWritten(r, t, catalog) == (r, t)
  {
    var (r, t) := SaveChangesAsWritten(s, targets, catalog);
    SaveReloads(s, targets, catalog);
    SaveNothingPending(r, t, catalog);
    var t2 := WithTarget(t, r.view, SavedDir(r, t, catalog));
    assert t2 == t;
  }

  /** Reloading right after a corrected reload changes nothing. */
  lemma ReloadTwice(s: Session, targets: Targets)
    requires IsCatalogRoot(s.root)
    ensures Reload(Reload(s, targets), targets) == Reload(s, targets)
  {
    var r := Reload(s, targets);
    ReloadSpec(s, targets);
    var r2 := Reload(r, targets);
    assert r2.state == r.state && r2.order == r.order;
    RecountAllIdempotent(s.root, SubstringRule(r.state));
  }

  /** `Path(key).name`: the last component of a key. */
  function LastName(k: Key): string {
    if |k| == 0 then "" else k[|k| - 1]
  }

  /** `get_changes_summary()`: the file names of pending additions and of
      pending removals. */
  function ChangesSummary(s: Session): (seq<string>, seq<string>)
    requires KeysIn(s.order, s.state)
  {
    (Names(s.order, s.state, LastName, Add), Names(s.order, s.state, LastName, Remove))
  }

  predicate HasPending(s: Session)
    requires KeysIn(s.order, s.state)
  {
    ChangesSummary(s).0 != [] || ChangesSummary(s).1 != []
  }

  /** The summary is empty exactly when no key has a pending change, that
      is, when every selection matches the installation. */
  lemma HasPendingIff(s: Session)
    requires Inv(s)
    ensures KeysIn(s.order, s.state)
    ensures HasPending(s) <==> exists k | k in s.state :: s.state[k].change != NoChange
    ensures HasPending(s) <==> exists k | k in s.state :: s.state[k].current != s.state[k].original
  {
    PendingIff(s.order, s.state, LastName);
  }

  /** Key 's': the confirmation dialog declines by itself when nothing is
      pending; otherwise `confirmed` is the answer given to it. */
  function SaveKey(s: Session, targets: Targets, catalog: map<Key, Content>, confirmed: bool): (r: (Session, Targets))
    requires TargetOf(targets, s.view).Some? && KeysIn(s.order, s.state)
    ensures !HasPending(s) || !confirmed ==> r == (s, targets)
    ensures HasPending(s) && confirmed ==> r == SaveChangesAsWritten(s, targets, catalog)
  {
    if HasPending(s) && confirmed then SaveChangesAsWritten(s, targets, catalog) else (s, targets)
  }

  /** Key 'q': with pending changes the program saves and ends when the
      dialog is confirmed, and stays otherwise; with none it just ends. The
      last component tells whether the program ends. */
  function Quit(s: Session, targets: Targets, catalog: map<Key, Content>, confirmed: bool): (r: (Session, Targets, bool))
    requires TargetOf(targets, s.view).Some? && KeysIn(s.order, s.state)
    ensures !HasPending(s) ==> r == (s, targets, true)
    ensures HasPending(s) && !confirmed ==> r == (s, targets, false)
    ensures HasPending(s) && confirmed ==> (r.0, r.1) == SaveChangesAsWritten(s, targets, catalog) && r.2
  {
    if !HasPending(s) then (s, targets, true)
    else if confirmed then
      var (r, t) := SaveChangesAsWritten(s, targets, catalog);
      (r, t, true)
    else (s, targets, false)
  }

  /** Key 's' keeps the session valid, the tree and the cursor; afterwards
      something is pending exactly when something was and the dialog was
      declined. */
  lemma SaveKeySpec(s: Session, targets: Targets, catalog: map<Key, Content>, confirmed: bool)
    requires Inv(s) && TargetOf(targets, s.view).Some?
    ensures KeysIn(s.order, s.state)
    ensures var r := SaveKey(s, targets, catalog, confirmed).0;
      && Inv(r) && KeysIn(r.order, r.state)
      && r.root == s.root && r.view == s.view && r.index == s.index
      && (HasPending(r) <==> HasPending(s) && !confirmed)
  {
    HasPendingIff(s);
    var r := SaveKey(s, targets, catalog, confirmed).0;
    if HasPending(s) && confirmed {
      SaveReloads(s, targets, catalog);
    }
    HasPendingIff(r);
  }

  /** Key 'q' ends the program exactly when nothing is pending or the dialog
      is confirmed, and never with a change left unsaved; when the program
      stays, nothing changes. */
  lemma QuitSpec(s: Session, targets: Targets, catalog: map<Key, Content>, confirmed: bool)
    requires Inv(s) && TargetOf(targets, s.view).Some?
    ensures KeysIn(s.order, s.state)
    ensures var (r, t, ends) := Quit(s, targets, catalog, confirmed);
      && Inv(r) && KeysIn(r.order, r.state)
      && (ends <==> !HasPending(s) || confirmed)
      && (ends ==> !HasPending(r))
      && (!ends ==> r == s && t == targets)
  {
    SaveKeySpec(s, targets, catalog, confirmed);
  }

  // ---------------------------------------------------------------------
  // Reloads as written leave stale badges.
  // ---------------------------------------------------------------------

  const StaleKey: Key := ["frontend", "vue.md"]
  const StaleLeaf := Leaf("vue", StaleKey, 1)
  const StaleRoot := Folder("agents", [], -1, true, 0, NoChanges,
                            [Folder("frontend", ["frontend"], 0, true, 1, NoChanges, [StaleLeaf])])
  const StaleTargets := Targets(Some(map[]), None)
  const StaleCatalog: map<Key, Content> := map[StaleKey := "vue agent"]

  lemma StaleRootShape()
    ensures IsCatalogRoot(StaleRoot) && Leaves(StaleRoot) == [StaleLeaf] && LeafKeys(StaleRoot) == [StaleKey]
  {
    var folder := StaleRoot.children[0];
    assert FileOf("vue") == "vue.md";
    assert ChildOf(folder, StaleLeaf) && WellFormed(StaleLeaf);
    assert WellFormed(folder);
    assert ChildOf(StaleRoot, folder);
    assert folder.children[1..] == [] && StaleRoot.children[1..] == [];
    assert LeavesSeq(folder.children) == Leaves(StaleLeaf) + LeavesSeq(folder.children[1..]);
    assert Leaves(folder) == [StaleLeaf];
    assert LeavesSeq(StaleRoot.children) == Leaves(folder) + LeavesSeq(StaleRoot.children[1..]);
  }

  lemma StaleStart()
    ensures Start(StaleRoot, StaleTargets).state == map[StaleKey := LeafState(false, false, NoChange)]
    ensures Start(StaleRoot, StaleTargets).order == [StaleKey]
  {
    StaleRootShape();
    CatalogLeaves(StaleRoot);
    LoadSpec(StaleRoot, Some(StaleTargets.user));
    InstalledIff(StaleLeaf, Some(StaleTargets.user));
    InsertionOrderOf([StaleKey]);
    var o := Start(StaleRoot, StaleTargets).order;
    assert o == InsertionOrder([StaleKey], []);
    assert InsertionOrder([StaleKey], []) == InsertionOrder([], [StaleKey]);
  }

  lemma StaleMatches(st: State)
    requires st == map[StaleKey := LeafState(false, true, Add)]
    ensures SubstringRule(st)(StaleLeaf) == Summary(1, 0)
  {
    assert KeyText(StaleKey) == "frontend/" + "vue" + ".md";
    SubstringOfSurrounded("frontend/", "vue", ".md");
    assert StaleKey in Matching("vue", st, Add);
    assert Matching("vue", st, Add) == {StaleKey};
    assert Matching("vue", st, Remove) == {};
  }

  lemma StaleCount(st: State)
    requires st == map[StaleKey := LeafState(false, true, Add)]
    ensures Recount(StaleRoot.children[0], SubstringRule(st)).summary == Summary(1, 0)
  {
    StaleMatches(st);
    var rule := SubstringRule(st);
    var c := StaleRoot.children[0];
    var f := Recount(c, rule);
    assert c.children[1..] == [];
    assert f.children == [StaleLeaf];
    assert rule(StaleLeaf) == Summary(1, 0);
    assert f.children[1..] == [];
    assert ChildSum(f.children, rule) == Plus(rule(StaleLeaf), ChildSum(f.children[1..], rule));
  }

  lemma StaleToggled()
    ensures StaleLeaf.path in Start(StaleRoot, StaleTargets).state
    ensures var s1 := ToggleSelection(Start(StaleRoot, StaleTargets), StaleLeaf);
      && s1.state == map[StaleKey := LeafState(false, true, Add)] && s1.order == [StaleKey]
      && ChangesDisplay(s1.root.children[0]) == " [+1]"
  {
    StaleStart();
    var s1 := ToggleSelection(Start(StaleRoot, StaleTargets), StaleLeaf);
    assert s1.state == map[StaleKey := LeafState(false, true, Add)];
    StaleCount(s1.state);
    var f := s1.root.children[0];
    assert f == Recount(StaleRoot.children[0], SubstringRule(s1.state));
    assert f.summary == Summary(1, 0);
    assert DigitChar(1) == '1';
    assert NatToString(1) == "1";
    assert BadgeParts(f.summary) == ["+" + NatToString(1)] + [];
    assert "+" + "1" == "+1";
    assert BadgeParts(f.summary) == ["+1"];
    assert Join(["+1"], " ") == "+1";
  }

  /** Selecting the one agent of "frontend" and saving: with the reload as
      written, nothing is pending any more but the folder still shows
      " [+1]"; with the recounting reload it shows no badge. */
  lemma StaleBadgeAfterSave()
    ensures StaleLeaf.path in Start(StaleRoot, StaleTargets).state
    ensures var s1 := ToggleSelection(Start(StaleRoot, StaleTargets), StaleLeaf);
      && KeysIn(s1.order, s1.state)
      && ChangesDisplay(s1.root.children[0]) == " [+1]"
      && var written := SaveChangesAsWritten(s1, StaleTargets, StaleCatalog).0;
         var fixed := SaveChanges(s1, StaleTargets, StaleCatalog).0;
         && (forall k | k in written.state :: Settled(written.state[k]))
         && ChangesDisplay(written.root.children[0]) == " [+1]"
         && ChangesDisplay(fixed.root.children[0]) == ""
  {
    StaleToggled();
    var s1 := ToggleSelection(Start(StaleRoot, StaleTargets), StaleLeaf);
    StaleSaves(s1);
  }

  /** The two saves of `StaleBadgeAfterSave`, from the toggled session. */
  lemma StaleSaves(s1: Session)
    requires s1.state == map[StaleKey := LeafState(false, true, Add)] && s1.order == [StaleKey]
    requires s1.view == General && s1.root == UpdateAllSummaries(StaleRoot, s1.state)
    ensures KeysIn(s1.order, s1.state)
    ensures var written := SaveChangesAsWritten(s1, StaleTargets, StaleCatalog).0;
            var fixed := SaveChanges(s1, StaleTargets, StaleCatalog).0;
            && written.root == s1.root
            && (forall k | k in written.state :: Settled(written.state[k]))
            && |fixed.root.children| == 1
            && ChangesDisplay(fixed.root.children[0]) == ""
  {
    StaleRootShape();
    CatalogLeaves(StaleRoot);
    assert StaleKey[1] == "vue.md";
    assert LeafKey(StaleKey);
    RecountAllKeepsTree(StaleRoot, SubstringRule(s1.state));
    var t := SaveChangesAsWritten(s1, StaleTargets, StaleCatalog).1;
    ReloadSpec(s1, t);
  }

  /** Selecting the one agent of "frontend" and pressing ESC: the selection
      is dropped and nothing is pending, but the folder still shows " [+1]";
      the recounting reload shows no badge. */
  lemma StaleBadgeAfterCancel()
    ensures StaleLeaf.path in Start(StaleRoot, StaleTargets).state
    ensures var s1 := ToggleSelection(Start(StaleRoot, StaleTargets), StaleLeaf);
      && ChangesDisplay(s1.root.children[0]) == " [+1]"
      && var written := Cancel(s1, StaleTargets);
         var fixed := Reload(s1, StaleTargets);
         && KeysIn(written.order, written.state) && !HasPending(written)
         && ChangesDisplay(written.root.children[0]) == " [+1]"
         && |fixed.root.children| == 1
         && ChangesDisplay(fixed.root.children[0]) == ""
  {
    StaleToggled();
    var s1 := ToggleSelection(Start(StaleRoot, StaleTargets), StaleLeaf);
    StaleCancels(s1);
  }

  /** The two reloads of `StaleBadgeAfterCancel`, from the toggled session. */
  lemma StaleCancels(s1: Session)
    requires s1.state == map[StaleKey := LeafState(false, true, Add)] && s1.order == [StaleKey]
    requires s1.view == General && s1.root == UpdateAllSummaries(StaleRoot, s1.state)
    ensures var written := Cancel(s1, StaleTargets);
            var fixed := Reload(s1, StaleTargets);
            && written.root == s1.root
            && KeysIn(written.order, written.state) && !HasPending(written)
            && |fixed.root.children| == 1
            && ChangesDisplay(fixed.root.children[0]) == ""
  {
    StaleRootShape();
    CatalogLeaves(StaleRoot);
    RecountAllKeepsTree(StaleRoot, SubstringRule(s1.state));
    ReloadAsWrittenSpec(s1, StaleTargets);
    HasPendingIff(Cancel(s1, StaleTargets));
    ReloadSpec(s1, StaleTargets);
  }

  // ---------------------------------------------------------------------
  // Cursor, folding, view and cancel keys of the main loop.
  // ---------------------------------------------------------------------

  /** The cursor is on a row of the visible list. */
  predicate OnRow(s: Session) {
    0 <= s.index < |Rows(s)|
  }

  /** KEY_UP: one row up unless on the first row. */
  function Up(s: Session): Session {
    if s.index > 0 then s.(index := s.index - 1) else s
  }

  /** KEY_DOWN: one row down unless on the last row. */
  function Down(s: Session): Session {
    if s.index < |Rows(s)| - 1 then s.(index := s.index + 1) else s
  }

  /** The arrows change only the cursor, keep it on the list, and undo
      each other where they moved. */
  lemma CursorKeys(s: Session)
    ensures Up(s).(index := s.index) == s && Down(s).(index := s.index) == s
    ensures OnRow(s) ==> OnRow(Up(s)) && OnRow(Down(s))
    ensures OnRow(s) && s.index > 0 ==> Up(s).index == s.index - 1 && Down(Up(s)) == s
    ensures 0 <= s.index < |Rows(s)| - 1 ==> Down(s).index == s.index + 1 && Up(Down(s)) == s
    ensures OnRow(s) && s.index == 0 ==> Up(s) == s
    ensures OnRow(s) && s.index == |Rows(s)| - 1 ==> Down(s) == s
  {
  }

  /** The parent search of KEY_LEFT, by path: the first folder row at `p`. */
  function FindFolder(rows: seq<Node>, p: Key): (r: Option<nat>)
    ensures r.Some? ==> r.value < |rows| && rows[r.value].Folder? && rows[r.value].path == p
    ensures r.Some? ==> forall j | 0 <= j < r.value :: !(rows[j].Folder? && rows[j].path == p)
    ensures r.None? ==> forall j | 0 <= j < |rows| :: !(rows[j].Folder? && rows[j].path == p)
    decreases |rows|
  {
    if |rows| == 0 then None
    else if rows[0].Folder? && rows[0].path == p then Some(0)
    else
      match FindFolder(rows[1..], p)
      case None => None
      case Some(i) => Some(i + 1)
  }

  /** KEY_RIGHT and Enter: a collapsed folder under the cursor is expanded. */
  function Right(s: Session): Session {
    var rows := Rows(s);
    if OnRow(s) && rows[s.index].Folder? && !rows[s.index].expanded
    then s.(root := ToggleExpandAt(s.root, rows[s.index].path))
    else s
  }

  /** KEY_LEFT: an expanded folder under the cursor is collapsed; otherwise,
      below the top level (the parent's level is one less), the cursor jumps
      to the parent's row. */
  function Left(s: Session): Session {
    var rows := Rows(s);
    if !OnRow(s) then s
    else
      var x := rows[s.index];
      if x.Folder? && x.expanded then s.(root := ToggleExpandAt(s.root, x.path))
      else if x.level >= 1 then
        match FindFolder(rows, ParentPath(x))
        case Some(i) => s.(index := i)
        case None => s
      else s
  }

  /** Space: a folder under the cursor is folded or unfolded, a leaf is
      toggled. */
  function Space(s: Session): Session
    requires s.root.Folder?
    requires forall i | 0 <= i < |Rows(s)| && Rows(s)[i].Leaf? :: Rows(s)[i].path in s.state
  {
    var rows := Rows(s);
    if !OnRow(s) then s
    else if rows[s.index].Folder? then s.(root := ToggleExpandAt(s.root, rows[s.index].path))
    else ToggleSelection(s, rows[s.index])
  }

  /** '*': the loop over the top-level nodes as written. */
  function Star(s: Session): Session
    requires s.root.Folder?
  {
    s.(root := ExpandCollapseAllAsWritten(s.root))
  }

  /** Keys '1' and '2': a switch to the other view moves the cursor to the
      first row and reloads the maps; '2' does nothing without a project. */
  function SwitchView(s: Session, v: View, targets: Targets): Session
  {
    if v == Project && targets.project.None? then s
    else if s.view == v then s
    else ReloadAsWritten(s.(view := v, index := 0), targets)
  }

  /** ESC: pending changes are dropped by reloading the maps. */
  function Cancel(s: Session, targets: Targets): Session
  {
    ReloadAsWritten(s, targets)
  }

  /** A visible leaf is a leaf of the tree. */
  lemma {:induction false} FlattenLeaf(n: Node, x: Node)
    requires x in Flatten(n) && x.Leaf?
    ensures x in Leaves(n)
    decreases n
  {
    if x != n {
      assert x in FlattenSeq(n.children);
      var i := FlattenSeqMember(n.children, x);
      FlattenLeaf(n.children[i], x);
      LeavesSeqContains(n.children, i, x);
    }
  }

  /** In a valid session every visible leaf has entries in the maps, as
      the space, 'a' and 'n' keys need. */
  lemma RowsKeyed(s: Session)
    requires Inv(s)
    ensures forall i | 0 <= i < |Rows(s)| && Rows(s)[i].Leaf? :: Rows(s)[i].path in s.state
  {
    forall i | 0 <= i < |Rows(s)| && Rows(s)[i].Leaf?
      ensures Rows(s)[i].path in s.state
    {
      FlattenLeaf(s.root, Rows(s)[i]);
    }
  }

  /** Replacing the tree by a refolded one keeps the invariant and the
      summaries' freshness. */
  lemma RefoldKeepsInv(s: Session, t: Node)
    requires Inv(s) && SameShape(s.root, t)
    ensures Inv(s.(root := t))
    ensures Fresh(s) ==> Fresh(s.(root := t))
  {
    SameShapeKeeps(s.root, t, SubstringRule(s.state));
    forall i | 0 <= i < |t.children|
      ensures Tallied(s.root.children[i], SubstringRule(s.state)) ==> Tallied(t.children[i], SubstringRule(s.state))
    {
      SameShapeKeeps(s.root.children[i], t.children[i], SubstringRule(s.state));
    }
  }

  /** The folding keys flip the folder under the cursor (every folder at
      its path) and leave every other flag, the maps and the cursor alone. */
  lemma FoldingKeys(s: Session)
    requires Inv(s)
    ensures forall i | 0 <= i < |Rows(s)| && Rows(s)[i].Leaf? :: Rows(s)[i].path in s.state
    ensures OnRow(s) && Rows(s)[s.index].Folder? ==>
              var x := Rows(s)[s.index];
              && FolderFlags(Space(s).root) == Flip(FolderFlags(s.root), x.path)
              && (x.path, !x.expanded) in FolderFlags(Space(s).root)
              && Space(s).(root := s.root) == s
              && (!x.expanded ==> Right(s) == Space(s))
              && (x.expanded ==> Left(s) == Space(s))
    ensures OnRow(s) && Rows(s)[s.index].Leaf? ==> Space(s) == ToggleSelection(s, Rows(s)[s.index])
    ensures !(OnRow(s) && Rows(s)[s.index].Folder? && !Rows(s)[s.index].expanded) ==> Right(s) == s
  {
    RowsKeyed(s);
    if OnRow(s) && Rows(s)[s.index].Folder? {
      var x := Rows(s)[s.index];
      FlattenFolderFlag(s.root, x);
      ToggleExpandAtFlags(s.root, x.path);
      var fs := FolderFlags(s.root);
      var k :| 0 <= k < |fs| && fs[k] == (x.path, x.expanded);
      assert Flip(fs, x.path)[k] == (x.path, !x.expanded);
    }
  }

  /** KEY_LEFT on a leaf or a collapsed folder below the top level puts the
      cursor on its parent folder's row and changes nothing else. */
  lemma LeftFindsParent(s: Session)
    requires Inv(s) && OnRow(s)
    requires var x := Rows(s)[s.index]; !(x.Folder? && x.expanded) && x.level >= 1
    ensures OnRow(Left(s))
    ensures var p := Rows(s)[Left(s).index];
      p.Folder? && p.path == ParentPath(Rows(s)[s.index])
    ensures Left(s).(index := s.index) == s
  {
    var x := Rows(s)[s.index];
    assert x in Flatten(s.root);
    var j := ParentRow(s.root, x);
    LeftJump(s, j);
  }

  /** A visible node below the top level has its parent folder among the rows. */
  lemma ParentRow(root: Node, x: Node) returns (j: nat)
    requires IsCatalogRoot(root) && x in Flatten(root) && x.level >= 1
    ensures j < |Flatten(root)| && Flatten(root)[j].Folder? && Flatten(root)[j].path == ParentPath(x)
  {
    WellFormedLevels(root);
    FlattenRootShows(root, x);
    var idx :| |idx| > 0 && ReachedThroughOpen(root, idx, x);
    var parent := ReachedLast(root, idx, x);
    assert ParentPath(x) == parent.path;
    FlattenRootShows(root, parent);
    assert parent in Flatten(root);
    j :| j < |Flatten(root)| && Flatten(root)[j] == parent;
  }

  lemma LeftJump(s: Session, j: nat)
    requires OnRow(s)
    requires var x := Rows(s)[s.index]; !(x.Folder? && x.expanded) && x.level >= 1
    requires j < |Rows(s)| && Rows(s)[j].Folder? && Rows(s)[j].path == ParentPath(Rows(s)[s.index])
    ensures OnRow(Left(s))
    ensures var p := Rows(s)[Left(s).index];
      p.Folder? && p.path == ParentPath(Rows(s)[s.index])
    ensures Left(s).(index := s.index) == s
  {
  }

  /** The keys that move the cursor or fold the tree keep the session
      invariant and the summaries' freshness. */
  lemma MoveKeysKeepInv(s: Session)
    requires Inv(s)
    ensures Inv(Up(s)) && Inv(Down(s)) && Inv(Right(s)) && Inv(Left(s)) && Inv(Star(s))
    ensures Fresh(s) ==> Fresh(Up(s)) && Fresh(Down(s)) && Fresh(Right(s)) && Fresh(Left(s)) && Fresh(Star(s))
  {
    CursorKeepsInv(s, Up(s).index);
    CursorKeepsInv(s, Down(s).index);
    FoldKeysKeepInv(s);
    ExpandCollapseAllAsWrittenShape(s.root);
    RefoldKeepsInv(s, ExpandCollapseAllAsWritten(s.root));
  }

  /** KEY_RIGHT and KEY_LEFT keep the invariant and the summaries. */
  lemma FoldKeysKeepInv(s: Session)
    requires Inv(s)
    ensures Inv(Right(s)) && Inv(Left(s))
    ensures Fresh(s) ==> Fresh(Right(s)) && Fresh(Left(s))
  {
    if OnRow(s) {
      var x := Rows(s)[s.index];
      RefoldKeepsInv(s, ToggleExpandAt(s.root, x.path));
      if !(x.Folder? && x.expanded) && x.level >= 1 {
        CursorKeepsInv(s, Left(s).index);
        assert Left(s) == s.(index := Left(s).index);
      }
    }
  }

  /** Moving the cursor alone keeps the invariant and the summaries. */
  lemma CursorKeepsInv(s: Session, i: int)
    requires Inv(s)
    ensures Inv(s.(index := i)) && (Fresh(s) ==> Fresh(s.(index := i)))
  {
  }

  /** The selection keys keep the session invariant; space keeps the
      summaries fresh. */
  lemma SelectionKeysKeepInv(s: Session, desired: bool)
    requires Inv(s)
    ensures forall i | 0 <= i < |Rows(s)| && Rows(s)[i].Leaf? :: Rows(s)[i].path in s.state
    ensures Inv(Space(s)) && Inv(SelectGroup(s, desired))
    ensures Fresh(s) ==> Fresh(Space(s))
  {
    RowsKeyed(s);
    var rows := Rows(s);
    if OnRow(s) {
      if rows[s.index].Leaf? {
        ToggleKeepsInv(s, rows[s.index]);
      } else {
        RefoldKeepsInv(s, ToggleExpandAt(s.root, rows[s.index].path));
      }
    }
    SelectGroupKeepsInv(s, desired);
  }

  /** The view and cancel keys give a valid session. */
  lemma ViewKeysKeepInv(s: Session, v: View, targets: Targets)
    requires Inv(s)
    ensures Inv(SwitchView(s, v, targets)) && Inv(Cancel(s, targets))
  {
    ReloadAsWrittenSpec(s, targets);
    ReloadAsWrittenSpec(s.(view := v, index := 0), targets);
  }

  /** Switching to the other view lands on its first row with each leaf
      selected exactly when that view's directory installs it and nothing
      pending; the tree is kept, so its counts fit exactly when it showed
      none. */
  lemma SwitchViewSpec(s: Session, v: View, targets: Targets)
    requires IsCatalogRoot(s.root)
    ensures var r := SwitchView(s, v, targets);
      && (v == Project && targets.project.None? ==> r == s)
      && (v == s.view ==> r == s)
      && (v != s.view && TargetOf(targets, v).Some? ==>
            && r.view == v && r.index == 0 && Inv(r) && r.root == s.root
            && (forall l | l in Leaves(s.root) ::
                  var b := l.name in Installed(TargetOf(targets, v));
                  r.state[l.path] == LeafState(b, b, NoChange))
            && (forall k | k in r.state :: Settled(r.state[k]))
            && (Fresh(r) <==> forall i | 0 <= i < |s.root.children| :: Quiet(s.root.children[i])))
  {
    ReloadAsWrittenSpec(s.(view := v, index := 0), targets);
  }

  /** ESC undoes a toggle in the maps: cancelling after toggling a leaf
      gives the session cancelling before it gives, except that the tree
      keeps the counts the toggle put there. */
  lemma CancelUndoesToggle(s: Session, n: Node, targets: Targets)
    requires IsCatalogRoot(s.root) && (n.Leaf? ==> n.path in s.state)
    ensures var t := ToggleSelection(s, n);
      Cancel(t, targets) == Cancel(s, targets).(root := t.root)
  {
    if n.Leaf? {
      var t := ToggleSelection(s, n);
      CancelIgnoresRecount(s, t, SubstringRule(t.state), targets);
    }
  }

  /** ESC undoes the 'a' and 'n' keys in the same way. */
  lemma CancelUndoesGroup(s: Session, desired: bool, targets: Targets)
    requires IsCatalogRoot(s.root)
    requires forall i | 0 <= i < |Rows(s)| && Rows(s)[i].Leaf? :: Rows(s)[i].path in s.state
    ensures var t := SelectGroup(s, desired);
      Cancel(t, targets) == Cancel(s, targets).(root := t.root)
  {
    var t := SelectGroup(s, desired);
    if OnRow(s) {
      CancelIgnoresRecount(s, t, SubstringRule(t.state), targets);
    }
  }

  /** A reload as written forgets the maps it is given but keeps the tree. */
  lemma CancelIgnoresRecount(s: Session, t: Session, rule: Node -> Summary, targets: Targets)
    requires IsCatalogRoot(s.root)
    requires t.root == RecountAll(s.root, rule) && t.view == s.view && t.index == s.index
    ensures Cancel(t, targets) == Cancel(s, targets).(root := t.root)
  {
    RecountAllKeepsTree(s.root, rule);
    assert LeafKeys(t.root) == LeafKeys(s.root);
  }

  /** The corrected reload undoes a toggle entirely. */
  lemma ReloadUndoesToggle(s: Session, n: Node, targets: Targets)
    requires IsCatalogRoot(s.root) && (n.Leaf? ==> n.path in s.state)
    ensures Reload(ToggleSelection(s, n), targets) == Reload(s, targets)
  {
    if n.Leaf? {
      var t := ToggleSelection(s, n);
      ReloadIgnoresRecount(s, t, SubstringRule(t.state), targets);
    }
  }

  /** The corrected reload undoes the 'a' and 'n' keys entirely. */
  lemma ReloadUndoesGroup(s: Session, desired: bool, targets: Targets)
    requires IsCatalogRoot(s.root)
    requires forall i | 0 <= i < |Rows(s)| && Rows(s)[i].Leaf? :: Rows(s)[i].path in s.state
    ensures Reload(SelectGroup(s, desired), targets) == Reload(s, targets)
  {
    var t := SelectGroup(s, desired);
    if OnRow(s) {
      ReloadIgnoresRecount(s, t, SubstringRule(t.state), targets);
    }
  }

  /** The corrected reload forgets the maps and the summaries it is given. */
  lemma ReloadIgnoresRecount(s: Session, t: Session, rule: Node -> Summary, targets: Targets)
    requires IsCatalogRoot(s.root)
    requires t.root == RecountAll(s.root, rule) && t.view == s.view && t.index == s.index
    ensures Reload(t, targets) == Reload(s, targets)
  {
    RecountAllKeepsTree(s.root, rule);
    assert LeafKeys(t.root) == LeafKeys(s.root);
    var a, b := Reload(t, targets), Reload(s, targets);
    assert a.state == b.state && a.order == b.order;
    var rule' := SubstringRule(a.state);
    forall i | 0 <= i < |s.root.children|
      ensures a.root.children[i] == b.root.children[i]
    {
      var c := s.root.children[i];
      TalliedUnique(Recount(Recount(c, rule), rule'), Recount(c, rule'), rule');
    }
    assert a.root.children == b.root.children;
  }
}
