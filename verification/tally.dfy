/** The bottom-up pass of `update_changes_summary`, shared by the tree
    variant and verify-tree.py: a folder's summary is reset, then each
    child folder is recounted first and adds its summary, and each leaf
    child adds what a leaf rule says about it. The two programs differ only
    in that rule, which is a parameter here. */
module Tally {
  import opened Catalog

  function Plus(a: Summary, b: Summary): Summary {
    Summary(a.add + b.add, a.remove + b.remove)
  }

  /** Sum of a leaf rule over a sequence of leaves: the reference value of
      a folder's summary. */
  function SumOver(ls: seq<Node>, rule: Node -> Summary): Summary
  {
    if |ls| == 0 then NoChanges else Plus(rule(ls[0]), SumOver(ls[1..], rule))
  }

  lemma {:induction false} SumOverAppend(a: seq<Node>, b: seq<Node>, rule: Node -> Summary)
    ensures SumOver(a + b, rule) == Plus(SumOver(a, rule), SumOver(b, rule))
    decreases |a|
  {
    if |a| > 0 {
      assert (a + b)[0] == a[0];
      assert (a + b)[1..] == a[1..] + b;
      SumOverAppend(a[1..], b, rule);
    } else {
      assert a + b == b;
    }
  }

  /** Rules that agree on every leaf of the sequence sum to the same value. */
  lemma {:induction false} SumOverAgree(ls: seq<Node>, r1: Node -> Summary, r2: Node -> Summary)
    requires forall i | 0 <= i < |ls| :: r1(ls[i]) == r2(ls[i])
    ensures SumOver(ls, r1) == SumOver(ls, r2)
    decreases |ls|
  {
    if |ls| > 0 {
      SumOverAgree(ls[1..], r1, r2);
    }
  }

  /** The tree with every summary cleared: what a recount may not change. */
  function Skeleton(n: Node): Node
  {
    match n
    case Leaf(_, _, _) => n
    case Folder(_, _, _, _, _, _, cs) =>
      n.(summary := NoChanges, children := seq(|cs|, i requires 0 <= i < |cs| => Skeleton(cs[i])))
  }

  /** What a folder adds for its (already recounted) children: a child
      folder's summary, or the rule's value for a leaf. */
  function ChildSum(us: seq<Node>, rule: Node -> Summary): Summary
  {
    if |us| == 0 then NoChanges
    else Plus(if us[0].Folder? then us[0].summary else rule(us[0]), ChildSum(us[1..], rule))
  }

  lemma {:induction false} ChildSumIsLeafSum(us: seq<Node>, rule: Node -> Summary)
    requires forall i | 0 <= i < |us| :: Tallied(us[i], rule)
    ensures ChildSum(us, rule) == SumOver(LeavesSeq(us), rule)
    decreases |us|
  {
    if |us| > 0 {
      var head := if us[0].Folder? then us[0].summary else rule(us[0]);
      assert Tallied(us[0], rule);
      ChildSumIsLeafSum(us[1..], rule);
      SumOverAppend(Leaves(us[0]), LeavesSeq(us[1..]), rule);
      if us[0].Leaf? {
        assert Leaves(us[0]) == [us[0]];
        assert SumOver([us[0]], rule) == Plus(rule(us[0]), NoChanges);
      }
      assert SumOver(Leaves(us[0]), rule) == head;
    }
  }

  /** Every folder of the subtree carries the sum of the rule over its leaves. */
  predicate Tallied(n: Node, rule: Node -> Summary) {
    n.Folder? ==>
      n.summary == SumOver(Leaves(n), rule) &&
      forall i | 0 <= i < |n.children| :: Tallied(n.children[i], rule)
  }

  /** `update_changes_summary` on one node: a leaf is left alone; a folder
      and every folder below it get the sum of the rule over their leaves,
      and nothing but summaries changes. */
  function Recount(n: Node, rule: Node -> Summary): (r: Node)
    ensures Skeleton(r) == Skeleton(n)
    ensures Leaves(r) == Leaves(n)
    ensures Tallied(r, rule)
    decreases n
  {
    match n
    case Leaf(_, _, _) => n
    case Folder(_, _, _, _, _, _, cs) =>
      var us := seq(|cs|, i requires 0 <= i < |cs| => Recount(cs[i], rule));
      RecountStep(n, us, rule);
      n.(children := us, summary := ChildSum(us, rule))
  }

  /** One level of the recount: recounted children make a recounted folder. */
  lemma RecountStep(n: Node, us: seq<Node>, rule: Node -> Summary)
    requires n.Folder? && |us| == |n.children|
    requires forall i | 0 <= i < |us| ::
               Skeleton(us[i]) == Skeleton(n.children[i]) && Leaves(us[i]) == Leaves(n.children[i]) &&
               Tallied(us[i], rule)
    ensures var r := n.(children := us, summary := ChildSum(us, rule));
      Skeleton(r) == Skeleton(n) && Leaves(r) == Leaves(n) && Tallied(r, rule)
  {
    var r := n.(children := us, summary := ChildSum(us, rule));
    ChildSumIsLeafSum(us, rule);
    LeavesSeqPointwise(n.children, us);
    assert Skeleton(r).children == Skeleton(n).children by {
      forall i | 0 <= i < |us|
        ensures Skeleton(r).children[i] == Skeleton(n).children[i]
      {
      }
    }
  }

  /** Children with the same leaves, one by one, have the same leaves together. */
  lemma {:induction false} LeavesSeqPointwise(cs: seq<Node>, us: seq<Node>)
    requires |cs| == |us|
    requires forall i | 0 <= i < |cs| :: Leaves(us[i]) == Leaves(cs[i])
    ensures LeavesSeq(us) == LeavesSeq(cs)
    decreases |cs|
  {
    if |cs| > 0 {
      LeavesSeqPointwise(cs[1..], us[1..]);
    }
  }

  /** Trees with the same skeleton have the same leaves. */
  lemma {:induction false} SkeletonLeaves(a: Node, b: Node)
    requires Skeleton(a) == Skeleton(b)
    ensures Leaves(a) == Leaves(b)
    decreases a
  {
    if a.Folder? {
      assert b.Folder?;
      assert |a.children| == |b.children| by {
        assert |Skeleton(a).children| == |Skeleton(b).children|;
      }
      forall i | 0 <= i < |a.children|
        ensures Leaves(a.children[i]) == Leaves(b.children[i])
      {
        assert Skeleton(a).children[i] == Skeleton(b).children[i];
        SkeletonLeaves(a.children[i], b.children[i]);
      }
      LeavesSeqPointwise(a.children, b.children);
    }
  }

  /** A tallied tree is determined by its skeleton: there is one way to fill
      in the summaries. */
  lemma {:induction false} TalliedUnique(a: Node, b: Node, rule: Node -> Summary)
    requires Tallied(a, rule) && Tallied(b, rule)
    requires Skeleton(a) == Skeleton(b)
    ensures a == b
    decreases a
  {
    if a.Folder? {
      assert b.Folder?;
      SkeletonLeaves(a, b);
      assert |a.children| == |b.children| by {
        assert |Skeleton(a).children| == |Skeleton(b).children|;
      }
      forall i | 0 <= i < |a.children|
        ensures a.children[i] == b.children[i]
      {
        assert Skeleton(a).children[i] == Skeleton(b).children[i];
        TalliedUnique(a.children[i], b.children[i], rule);
      }
      assert a.children == b.children;
      assert a == Skeleton(a).(summary := a.summary, children := a.children);
    }
  }

  /** The summary is reset before counting, so recounting is idempotent. */
  lemma RecountIdempotent(n: Node, rule: Node -> Summary)
    ensures Recount(Recount(n, rule), rule) == Recount(n, rule)
  {
    var once := Recount(n, rule);
    TalliedUnique(Recount(once, rule), once, rule);
  }

  /** Recounting keeps a tree well formed. */
  lemma {:induction false} SkeletonWellFormed(a: Node, b: Node)
    requires Skeleton(a) == Skeleton(b) && WellFormed(a)
    ensures WellFormed(b)
    decreases b
  {
    if b.Folder? {
      forall i | 0 <= i < |b.children|
        ensures ChildOf(b, b.children[i]) && WellFormed(b.children[i])
      {
        assert Skeleton(a).children[i] == Skeleton(b).children[i];
        SkeletonWellFormed(a.children[i], b.children[i]);
      }
    }
  }

  /** Two rules that agree on every leaf of the subtree recount it alike. */
  lemma RecountAgree(n: Node, r1: Node -> Summary, r2: Node -> Summary)
    requires forall l | l in Leaves(n) :: r1(l) == r2(l)
    ensures Recount(n, r1) == Recount(n, r2)
  {
    var a, b := Recount(n, r1), Recount(n, r2);
    TalliedAgree(a, r1, r2);
    TalliedUnique(a, b, r2);
  }

  lemma {:induction false} TalliedAgree(n: Node, r1: Node -> Summary, r2: Node -> Summary)
    requires Tallied(n, r1)
    requires forall l | l in Leaves(n) :: r1(l) == r2(l)
    ensures Tallied(n, r2)
    decreases n
  {
    if n.Folder? {
      SumOverAgree(Leaves(n), r1, r2);
      forall i | 0 <= i < |n.children|
        ensures Tallied(n.children[i], r2)
      {
        forall l | l in Leaves(n.children[i])
          ensures r1(l) == r2(l)
        {
          LeavesSeqContains(n.children, i, l);
        }
        TalliedAgree(n.children[i], r1, r2);
      }
    }
  }

  lemma {:induction false} LeavesSeqContains(cs: seq<Node>, i: nat, l: Node)
    requires i < |cs| && l in Leaves(cs[i])
    ensures l in LeavesSeq(cs)
    decreases i
  {
    if i > 0 {
      LeavesSeqContains(cs[1..], i - 1, l);
    }
  }

  /** `update_all_changes_summary`: recounts every child of the root; the
      root's own summary is not touched. */
  function RecountAll(root: Node, rule: Node -> Summary): (r: Node)
    requires root.Folder?
    ensures r.Folder? && r.summary == root.summary && |r.children| == |root.children|
    ensures forall i | 0 <= i < |root.children| :: r.children[i] == Recount(root.children[i], rule)
    ensures r.(children := root.children) == root
  {
    root.(children := seq(|root.children|, i requires 0 <= i < |root.children| => Recount(root.children[i], rule)))
  }

  /** Recounting the root's children twice is recounting them once. */
  lemma RecountAllIdempotent(root: Node, rule: Node -> Summary)
    requires root.Folder?
    ensures RecountAll(RecountAll(root, rule), rule) == RecountAll(root, rule)
  {
    var once := RecountAll(root, rule);
    var twice := RecountAll(once, rule);
    forall i | 0 <= i < |once.children|
      ensures twice.children[i] == once.children[i]
    {
      RecountIdempotent(root.children[i], rule);
    }
    assert twice.children == once.children;
  }

  /** Every folder of the subtree shows no pending change. */
  predicate Quiet(n: Node) {
    n.Folder? ==> n.summary == NoChanges && forall i | 0 <= i < |n.children| :: Quiet(n.children[i])
  }

  lemma {:induction false} SumOverZero(ls: seq<Node>, rule: Node -> Summary)
    requires forall i | 0 <= i < |ls| :: rule(ls[i]) == NoChanges
    ensures SumOver(ls, rule) == NoChanges
    decreases |ls|
  {
    if |ls| > 0 {
      SumOverZero(ls[1..], rule);
    }
  }

  /** When the rule finds nothing on any leaf, a tallied tree is quiet. */
  lemma {:induction false} TalliedQuiet(n: Node, rule: Node -> Summary)
    requires Tallied(n, rule)
    requires forall l | l in Leaves(n) :: rule(l) == NoChanges
    ensures Quiet(n)
    decreases n
  {
    if n.Folder? {
      SumOverZero(Leaves(n), rule);
      forall i | 0 <= i < |n.children|
        ensures Quiet(n.children[i])
      {
        forall l | l in Leaves(n.children[i])
          ensures rule(l) == NoChanges
        {
          LeavesSeqContains(n.children, i, l);
        }
        TalliedQuiet(n.children[i], rule);
      }
    }
  }

  /** When the rule finds nothing on any leaf, a quiet tree is tallied. */
  lemma {:induction false} QuietTallied(n: Node, rule: Node -> Summary)
    requires Quiet(n)
    requires forall l | l in Leaves(n) :: rule(l) == NoChanges
    ensures Tallied(n, rule)
    decreases n
  {
    if n.Folder? {
      SumOverZero(Leaves(n), rule);
      forall i | 0 <= i < |n.children|
        ensures Tallied(n.children[i], rule)
      {
        forall l | l in Leaves(n.children[i])
          ensures rule(l) == NoChanges
        {
          LeavesSeqContains(n.children, i, l);
        }
        QuietTallied(n.children[i], rule);
      }
    }
  }

  /** Refolding (a tree of the same shape, flags aside) keeps the node's
      identity, its leaves, well-formedness and the summaries' agreement
      with any rule. */
  lemma {:induction false} SameShapeKeeps(a: Node, b: Node, rule: Node -> Summary)
    requires SameShape(a, b)
    ensures b.Folder? == a.Folder? && b.name == a.name && b.path == a.path && b.level == a.level
    ensures Leaves(b) == Leaves(a)
    ensures WellFormed(a) ==> WellFormed(b)
    ensures Tallied(a, rule) ==> Tallied(b, rule)
    decreases a
  {
    if a.Folder? {
      forall i | 0 <= i < |a.children|
        ensures Leaves(b.children[i]) == Leaves(a.children[i])
        ensures a.children[i].Folder? == b.children[i].Folder? && b.children[i].name == a.children[i].name
        ensures b.children[i].path == a.children[i].path && b.children[i].level == a.children[i].level
        ensures WellFormed(a.children[i]) ==> WellFormed(b.children[i])
        ensures Tallied(a.children[i], rule) ==> Tallied(b.children[i], rule)
      {
        SameShapeKeeps(a.children[i], b.children[i], rule);
      }
      LeavesSeqPointwise(a.children, b.children);
      if WellFormed(a) {
        forall i | 0 <= i < |b.children|
          ensures ChildOf(b, b.children[i])
        {
          assert ChildOf(a, a.children[i]);
        }
      }
    }
  }
}
