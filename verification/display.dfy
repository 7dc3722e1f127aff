/** How a node is labelled in the tree views (agent-manager-tree.py and
    verify-tree.py share the two methods): the folder arrow and name, and
    the pending-change badge " [+a -r]" next to a folder. */
module Display {
  import opened Text
  import opened Files
  import opened Catalog

  /** "▼ " for an expanded folder, "▶ " for a collapsed one. */
  function Arrow(expanded: bool): (a: string)
    ensures |a| == 2 && a[1] == ' '
  {
    if expanded then "\U{25BC} " else "\U{25B6} "
  }

  /** `get_display_name`: a folder shows its arrow and its name, upper-cased
      at level 0 only; a leaf shows its name. */
  function DisplayName(n: Node): (r: string)
    ensures n.Leaf? ==> r == n.name
    ensures n.Folder? ==> |r| == 2 + |n.name| && r[..2] == Arrow(n.expanded)
    ensures n.Folder? && n.level != 0 ==> r[2..] == n.name
    ensures n.Folder? && n.level == 0 ==> forall i | 0 <= i < |n.name| :: r[2 + i] == UpperChar(n.name[i])
  {
    if n.Folder? then Arrow(n.expanded) + (if n.level == 0 then Upper(n.name) else n.name)
    else n.name
  }

  /** Reads the expansion flag back from a folder's label. */
  predicate ShownExpanded(text: string) {
    |text| > 0 && text[0] == '\U{25BC}'
  }

  /** A folder's label tells whether it is expanded. */
  lemma DisplayShowsExpansion(n: Node)
    requires n.Folder?
    ensures ShownExpanded(DisplayName(n)) <==> n.expanded
  {
    assert DisplayName(n)[0] == Arrow(n.expanded)[0];
  }

  /** Toggling a folder changes its arrow and nothing else of its label;
      a leaf's label does not change. */
  lemma ToggleChangesOnlyArrow(n: Node)
    ensures n.Leaf? ==> DisplayName(ToggleExpand(n)) == DisplayName(n)
    ensures n.Folder? ==>
              DisplayName(ToggleExpand(n))[2..] == DisplayName(n)[2..] &&
              DisplayName(ToggleExpand(n))[..2] != DisplayName(n)[..2]
  {
    if n.Folder? {
      assert Arrow(true)[0] != Arrow(false)[0];
    }
  }

  // ---------------------------------------------------------------------
  // The change badge (`get_changes_display`).
  // ---------------------------------------------------------------------

  predicate AllDigits(s: string) {
    forall i | 0 <= i < |s| :: IsDigit(s[i])
  }

  /** The non-zero parts of a summary: "+a" and then "-r". */
  function BadgeParts(s: Summary): (parts: seq<string>)
    ensures |parts| == (if s.add > 0 then 1 else 0) + (if s.remove > 0 then 1 else 0)
  {
    (if s.add > 0 then ["+" + NatToString(s.add)] else [])
    + (if s.remove > 0 then ["-" + NatToString(s.remove)] else [])
  }

  /** `get_changes_display`: empty for a leaf or a folder without pending
      changes, otherwise the non-zero parts joined by a space in brackets. */
  function ChangesDisplay(n: Node): (r: string)
    ensures r == "" <==> n.Leaf? || (n.summary.add == 0 && n.summary.remove == 0)
    ensures r != "" ==> |r| >= 3 && r[..2] == " [" && r[|r| - 1] == ']'
  {
    if n.Leaf? || (n.summary.add == 0 && n.summary.remove == 0) then ""
    else
      var parts := BadgeParts(n.summary);
      if |parts| > 0 then " [" + Join(parts, " ") + "]" else ""
  }

  /** Splits at the first space: the text before it and the text after it. */
  function SplitAtSpace(s: string): (p: (string, string))
    ensures |p.0| <= |s|
    decreases |s|
  {
    if |s| == 0 then ("", "")
    else if s[0] == ' ' then ("", s[1..])
    else
      var rest := SplitAtSpace(s[1..]);
      ([s[0]] + rest.0, rest.1)
  }

  lemma {:induction false} SplitDigits(d: string, t: string)
    requires AllDigits(d)
    ensures SplitAtSpace(d + " " + t) == (d, t)
    ensures SplitAtSpace(d) == (d, "")
    decreases |d|
  {
    if |d| > 0 {
      assert (d + " " + t)[1..] == d[1..] + " " + t;
      SplitDigits(d[1..], t);
      assert [d[0]] + d[1..] == d;
    } else {
      assert d + " " + t == " " + t;
    }
  }

  /** Reads a change badge back into the counts it shows; `None` for text
      that no summary renders to. */
  function ParseChanges(s: string): Option<Summary>
  {
    if s == "" then Some(NoChanges)
    else if |s| >= 3 && s[..2] == " [" && s[|s| - 1] == ']' then ParseParts(s[2..|s| - 1])
    else None
  }

  function ParseParts(b: string): Option<Summary>
  {
    if |b| > 0 && b[0] == '+' then
      var p := SplitAtSpace(b[1..]);
      if p.0 == "" || !AllDigits(p.0) then None
      else if p.1 == "" then Some(Summary(ParseNat(p.0), 0))
      else if |p.1| > 1 && p.1[0] == '-' && AllDigits(p.1[1..]) then
        Some(Summary(ParseNat(p.0), ParseNat(p.1[1..])))
      else None
    else if |b| > 1 && b[0] == '-' && AllDigits(b[1..]) then Some(Summary(0, ParseNat(b[1..])))
    else None
  }

  lemma ParseBracketed(body: string)
    requires |body| > 0
    ensures ParseChanges(" [" + body + "]") == ParseParts(body)
  {
    var shown := " [" + body + "]";
    assert shown[..2] == " [" && shown[2..|shown| - 1] == body;
  }

  lemma ParseBoth(x: nat, y: nat)
    ensures ParseParts("+" + NatToString(x) + " " + "-" + NatToString(y)) == Some(Summary(x, y))
  {
    var a, r := NatToString(x), NatToString(y);
    var body := "+" + a + " " + "-" + r;
    assert body[1..] == a + " " + ("-" + r);
    SplitDigits(a, "-" + r);
    assert ("-" + r)[1..] == r;
    ParseNatToString(x);
    ParseNatToString(y);
  }

  lemma ParseAddOnly(x: nat)
    ensures ParseParts("+" + NatToString(x)) == Some(Summary(x, 0))
  {
    var a := NatToString(x);
    assert ("+" + a)[1..] == a;
    SplitDigits(a, "");
    ParseNatToString(x);
  }

  lemma ParseRemoveOnly(y: nat)
    ensures ParseParts("-" + NatToString(y)) == Some(Summary(0, y))
  {
    assert ("-" + NatToString(y))[1..] == NatToString(y);
    ParseNatToString(y);
  }

  /** The badge shows the folder's counts exactly: reading it back gives the
      summary, zero counts included. */
  lemma ChangesDisplayRoundTrip(n: Node)
    requires n.Folder?
    ensures ParseChanges(ChangesDisplay(n)) == Some(n.summary)
  {
    var s := n.summary;
    var a, r := NatToString(s.add), NatToString(s.remove);
    if s.add > 0 && s.remove > 0 {
      var body := "+" + a + " " + "-" + r;
      assert BadgeParts(s) == ["+" + a, "-" + r];
      assert Join(BadgeParts(s), " ") == body;
      ParseBracketed(body);
      ParseBoth(s.add, s.remove);
    } else if s.add > 0 {
      var body := "+" + a;
      assert BadgeParts(s) == [body];
      ParseBracketed(body);
      ParseAddOnly(s.add);
    } else if s.remove > 0 {
      var body := "-" + r;
      assert BadgeParts(s) == [body];
      ParseBracketed(body);
      ParseRemoveOnly(s.remove);
    }
  }
}
