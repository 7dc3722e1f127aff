/** verify-tree.py: the same tree node with a simplified summary rule, in
    which a leaf adds one when it is selected but not installed and removes
    one when it is installed but not selected; and the scenario the script
    builds. Here the rule is related to the classification of pending
    changes and to the substring rule of the tree variant. */
module TreeCheck {
  import opened Text
  import opened Files
  import opened Catalog
  import opened Tally
  import opened Display
  import opened Selection
  import opened TreeEngine

  /** What a pending change contributes to a folder's counts. */
  function Unit(c: Change): (u: Summary)
    ensures u.add + u.remove <= 1
    ensures u.add == 1 <==> c == Add
    ensures u.remove == 1 <==> c == Remove
  {
    match c
    case NoChange => NoChanges
    case Add => Summary(1, 0)
    case Remove => Summary(0, 1)
  }

  /** The leaf branch of `update_changes_summary` in verify-tree.py, with a
      leaf's `selected` and `installed` flags given as sets of keys. */
  function SelectionRule(sel: set<Key>, inst: set<Key>): Node -> Summary {
    (l: Node) =>
      if l.path in sel && l.path !in inst then Summary(1, 0)
      else if l.path !in sel && l.path in inst then Summary(0, 1)
      else NoChanges
  }

  /** The change a leaf's flags describe. */
  function LeafChange(l: Node, sel: set<Key>, inst: set<Key>): Change {
    Classify(l.path in sel, l.path in inst)
  }

  /** The rule counts exactly the change the tree variant would record. */
  lemma SelectionRuleClassifies(l: Node, sel: set<Key>, inst: set<Key>)
    ensures SelectionRule(sel, inst)(l) == Unit(LeafChange(l, sel, inst))
  {
  }

  /** The changes the leaves of a sequence describe, in order. */
  function Changes(ls: seq<Node>, sel: set<Key>, inst: set<Key>): (cs: seq<Change>)
    ensures |cs| == |ls|
    ensures forall i | 0 <= i < |ls| :: cs[i] == LeafChange(ls[i], sel, inst)
  {
    if |ls| == 0 then [] else [LeafChange(ls[0], sel, inst)] + Changes(ls[1..], sel, inst)
  }

  /** Summing the rule counts the leaves to add and the leaves to remove. */
  lemma {:induction false} SumOverCounts(ls: seq<Node>, sel: set<Key>, inst: set<Key>)
    ensures var m := multiset(Changes(ls, sel, inst));
      SumOver(ls, SelectionRule(sel, inst)) == Summary(m[Add], m[Remove])
    decreases |ls|
  {
    if |ls| > 0 {
      var c := LeafChange(ls[0], sel, inst);
      var rest := Changes(ls[1..], sel, inst);
      SumOverCounts(ls[1..], sel, inst);
      SelectionRuleClassifies(ls[0], sel, inst);
      CountCons(c, rest);
    }
  }

  /** Putting one change in front of a list adds its unit to the counts. */
  lemma CountCons(c: Change, rest: seq<Change>)
    ensures var m := multiset([c] + rest); var m' := multiset(rest);
      Summary(m[Add], m[Remove]) == Plus(Unit(c), Summary(m'[Add], m'[Remove]))
  {
    assert multiset([c] + rest) == multiset{c} + multiset(rest);
  }

  /** After `update_changes_summary`, every folder shows how many of its
      leaves are selected but not installed, and how many are installed
      but not selected. */
  lemma FolderCounts(n: Node, sel: set<Key>, inst: set<Key>)
    requires n.Folder?
    ensures var r := Recount(n, SelectionRule(sel, inst));
      var m := multiset(Changes(Leaves(n), sel, inst));
      r.summary == Summary(m[Add], m[Remove])
  {
    SumOverCounts(Leaves(n), sel, inst);
  }

  // ---------------------------------------------------------------------
  // The substring rule of the tree variant against this rule.
  // ---------------------------------------------------------------------

  /** The tree variant's maps hold, for leaf `l`, the flags given here. */
  predicate Describes(st: State, l: Node, sel: set<Key>, inst: set<Key>) {
    l.path in st &&
    st[l.path] == LeafState(l.path in inst, l.path in sel, LeafChange(l, sel, inst))
  }

  /** Pending keys other than the leaf's own whose text contains its name. */
  function Foreign(l: Node, st: State, c: Change): set<Key> {
    set k | k in st && k != l.path && st[k].change == c && IsSubstring(l.name, KeyText(k))
  }

  /** A leaf's own key contains its name. */
  lemma KeyContainsName(l: Node)
    requires KeyedByName(l)
    ensures IsSubstring(l.name, KeyText(l.path))
  {
    JoinEndsWithLast(l.path, "/");
    var init := JoinInit(l.path, "/");
    assert KeyText(l.path) == init + l.name + MdExt;
    SubstringOfSurrounded(init, l.name, MdExt);
  }

  /** The substring count of a leaf is its own change plus every foreign match. */
  lemma MatchingSplits(l: Node, st: State, sel: set<Key>, inst: set<Key>, c: Change)
    requires KeyedByName(l) && Describes(st, l, sel, inst)
    ensures |Matching(l.name, st, c)| == (if LeafChange(l, sel, inst) == c then 1 else 0) + |Foreign(l, st, c)|
  {
    KeyContainsName(l);
    var own: set<Key> := if LeafChange(l, sel, inst) == c then {l.path} else {};
    assert Matching(l.name, st, c) == own + Foreign(l, st, c);
    assert own !! Foreign(l, st, c);
  }

  /** The two rules agree on a leaf exactly when no other pending key
      contains the leaf's name; otherwise the substring rule counts more. */
  lemma LeafRulesAgreeIff(l: Node, st: State, sel: set<Key>, inst: set<Key>)
    requires KeyedByName(l) && Describes(st, l, sel, inst)
    ensures SubstringRule(st)(l) == SelectionRule(sel, inst)(l) <==>
              forall k | k in st && k != l.path && st[k].change != NoChange :: !IsSubstring(l.name, KeyText(k))
    ensures SubstringRule(st)(l).add >= SelectionRule(sel, inst)(l).add
    ensures SubstringRule(st)(l).remove >= SelectionRule(sel, inst)(l).remove
  {
    MatchingSplits(l, st, sel, inst, Add);
    MatchingSplits(l, st, sel, inst, Remove);
    SelectionRuleClassifies(l, sel, inst);
    if exists k | k in st && k != l.path && st[k].change != NoChange :: IsSubstring(l.name, KeyText(k)) {
      var k :| k in st && k != l.path && st[k].change != NoChange && IsSubstring(l.name, KeyText(k));
      assert k in Foreign(l, st, st[k].change);
    } else {
      assert Foreign(l, st, Add) == {};
      assert Foreign(l, st, Remove) == {};
    }
  }

  /** When the maps describe the flags and no leaf's name occurs in another
      pending key, the tree variant's summaries are the ones of this rule. */
  lemma RulesAgree(n: Node, st: State, sel: set<Key>, inst: set<Key>)
    requires forall l | l in Leaves(n) :: KeyedByName(l) && Describes(st, l, sel, inst)
    requires forall l | l in Leaves(n) ::
               forall k | k in st && k != l.path && st[k].change != NoChange :: !IsSubstring(l.name, KeyText(k))
    ensures Recount(n, SubstringRule(st)) == Recount(n, SelectionRule(sel, inst))
  {
    forall l | l in Leaves(n)
      ensures SubstringRule(st)(l) == SelectionRule(sel, inst)(l)
    {
      LeafRulesAgreeIff(l, st, sel, inst);
    }
    RecountAgree(n, SubstringRule(st), SelectionRule(sel, inst));
  }

  const DjangoKey: Key := ["backend", "django.md"]
  const GoKey: Key := ["backend", "go.md"]
  const Django := Leaf("django", DjangoKey, 1)
  const Go := Leaf("go", GoKey, 1)

  /** "go" occurs in "backend/django.md": with both agents selected and
      neither installed, the substring rule gives "go" two additions where
      the selection rule gives one. */
  lemma SubstringOvercount()
    ensures var sel, inst := {DjangoKey, GoKey}, {};
      var st := map[DjangoKey := LeafState(false, true, Add), GoKey := LeafState(false, true, Add)];
      && Describes(st, Go, sel, inst) && Describes(st, Django, sel, inst)
      && SubstringRule(st)(Go) == Summary(2, 0)
      && SelectionRule(sel, inst)(Go) == Summary(1, 0)
  {
    var sel, inst := {DjangoKey, GoKey}, {};
    var st := map[DjangoKey := LeafState(false, true, Add), GoKey := LeafState(false, true, Add)];
    assert KeyText(DjangoKey) == "backend/djan" + "go" + ".md";
    SubstringOfSurrounded("backend/djan", "go", ".md");
    assert KeyedByName(Go) by {
      assert FileOf("go") == "go.md";
    }
    MatchingSplits(Go, st, sel, inst, Add);
    assert Foreign(Go, st, Add) == {DjangoKey};
  }

  // ---------------------------------------------------------------------
  // The scenario of the script.
  // ---------------------------------------------------------------------

  const VueAgent := Leaf("vue3-composition", ["frontend", "vue", "vue3-composition.md"], 2)
  const FastapiAgent := Leaf("fastapi-expert", ["backend", "api", "rest", "fastapi-expert.md"], 3)
  const ApiPath: Key := ["backend", "api"]

  function Frontend(): Node {
    NewFolder("frontend", ["frontend"], 0,
      [NewFolder("vue", ["frontend", "vue"], 1, [VueAgent]), NewFolder("react", ["frontend", "react"], 1, [])])
  }

  function Backend(): Node {
    NewFolder("backend", ["backend"], 0,
      [NewFolder("api", ApiPath, 1,
        [NewFolder("rest", ["backend", "api", "rest"], 2, [FastapiAgent]),
         NewFolder("graphql", ["backend", "api", "graphql"], 2, [])])])
  }

  /** The tree the script builds: platform, frontend and backend at the top. */
  function SampleRoot(): Node {
    NewFolder("root", [], -1, [NewFolder("platform", ["platform"], 0, []), Frontend(), Backend()])
  }

  /** Lines 121-126: both agents selected, then only the second and third
      top-level folders recounted. */
  function SelectBoth(root: Node): Node
    requires root.Folder? && |root.children| == 3
  {
    var rule := SelectionRule({VueAgent.path, FastapiAgent.path}, {});
    root.(children := [root.children[0], Recount(root.children[1], rule), Recount(root.children[2], rule)])
  }

  lemma LeavesOfTwo(f: Node)
    requires f.Folder? && |f.children| == 2
    ensures Leaves(f) == Leaves(f.children[0]) + Leaves(f.children[1])
  {
    var cs := f.children;
    assert cs[1..][1..] == [];
    assert LeavesSeq(cs[1..]) == Leaves(cs[1]) + LeavesSeq(cs[1..][1..]);
  }

  lemma LeavesOfOne(f: Node)
    requires f.Folder? && |f.children| == 1
    ensures Leaves(f) == Leaves(f.children[0])
  {
    assert f.children[1..] == [];
    assert LeavesSeq(f.children) == Leaves(f.children[0]) + LeavesSeq(f.children[1..]);
  }

  lemma SampleLeaves()
    ensures Leaves(Frontend()) == [VueAgent]
    ensures Leaves(Backend()) == [FastapiAgent]
  {
    var fe := Frontend();
    LeavesOfTwo(fe);
    LeavesOfOne(fe.children[0]);
    assert Leaves(fe.children[1]) == [];
    var be := Backend();
    LeavesOfOne(be);
    var api := be.children[0];
    LeavesOfTwo(api);
    LeavesOfOne(api.children[0]);
    assert Leaves(api.children[1]) == [];
  }

  /** A folder whose only leaf is selected and not installed shows one
      pending addition after its recount. */
  lemma OnlyLeafAdded(f: Node, l: Node, sel: set<Key>)
    requires f.Folder? && Leaves(f) == [l] && l.path in sel
    ensures Recount(f, SelectionRule(sel, {})).summary == Summary(1, 0)
  {
    FolderCounts(f, sel, {});
    assert Changes([l], sel, {}) == [Add];
  }

  /** Lines 121-126 leave one pending addition under frontend and one under
      backend; platform keeps its initial counts. */
  lemma SampleCounts()
    ensures var t := SelectBoth(SampleRoot());
      t.children[0].summary == NoChanges && t.children[1].summary == Summary(1, 0) && t.children[2].summary == Summary(1, 0)
  {
    var sel: set<Key> := {VueAgent.path, FastapiAgent.path};
    SampleLeaves();
    OnlyLeafAdded(Frontend(), VueAgent, sel);
    OnlyLeafAdded(Backend(), FastapiAgent, sel);
  }

  lemma OneAddition(n: Node)
    requires n.Folder? && n.summary == Summary(1, 0)
    ensures ChangesDisplay(n) == " [+1]"
  {
    assert NatToString(1) == "1" by {
      assert DigitChar(1) == '1';
    }
    assert "+" + "1" == "+1";
    assert BadgeParts(Summary(1, 0)) == ["+" + NatToString(1)] + [];
    assert Join(["+1"], " ") == "+1";
  }

  /** The script's expectations: frontend and backend each show one pending
      addition, platform (never recounted) shows none, and folding the api
      folder twice gives back the same tree. */
  lemma Scenario()
    ensures var t := SelectBoth(SampleRoot());
      && ChangesDisplay(t.children[0]) == ""
      && ChangesDisplay(t.children[1]) == " [+1]"
      && ChangesDisplay(t.children[2]) == " [+1]"
      && ToggleExpandAt(ToggleExpandAt(t, ApiPath), ApiPath) == t
  {
    var t := SelectBoth(SampleRoot());
    SampleCounts();
    OneAddition(t.children[1]);
    OneAddition(t.children[2]);
    ToggleExpandAtTwice(t, ApiPath);
  }
}
