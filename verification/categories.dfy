/** The category manager (agent-manager-v2.py): the collection's four
    category directories listed as one header row followed by the category's
    agents, the original/current/change maps keyed by "category/name",
    loading them from the install directory of the current view, toggling an
    agent, saving the pending changes, and the keys of the main loop. */
module CategoryManager {
  import opened Text
  import opened Files
  import opened Selection
  import opened Sources

  /** An entry of `flattened_agents`: a category header or an agent. */
  datatype Row = Header(category: string) | Agent(category: string, name: string)

  /** The state of the screen. `cats` is the category list, `Categories`
      from the start; `order` lists the keys of the three maps in insertion
      order. The collection is read again by every load; it is kept here
      because the program never writes to it. */
  datatype Screen = Screen(cats: seq<string>, col: Collection, view: View, index: int, rows: seq<Row>,
                           state: map<string, LeafState>, order: seq<string>)

  // ---------------------------------------------------------------------
  // The listing (`load_agents`, lines 81-115).
  // ---------------------------------------------------------------------

  /** The agents of a category: the stems of its files, in file order. */
  function AgentNames(col: Collection, cat: string): (ns: seq<string>)
    ensures |ns| == |AgentFiles(col, cat)|
    ensures forall i | 0 <= i < |ns| :: ns[i] == MdStem(AgentFiles(col, cat)[i])
  {
    var fs := AgentFiles(col, cat);
    seq(|fs|, i requires 0 <= i < |fs| => MdStem(fs[i]))
  }

  /** A category lists an agent exactly when it holds the agent's file
      `name.md`; the stems "" and ".md" are set aside, since no file
      `name.md` gives them back unambiguously. */
  lemma AgentNamesIff(col: Collection, cat: string, n: string)
    ensures n != "" && n != MdExt ==> (n in AgentNames(col, cat) <==> cat in col && FileOf(n) in col[cat])
  {
    if n != "" && n != MdExt {
      var ns := AgentNames(col, cat);
      var fs := AgentFiles(col, cat);
      if n in ns {
        var i :| 0 <= i < |ns| && ns[i] == n;
        assert fs[i] in fs;
      }
      if cat in col && FileOf(n) in col[cat] {
        StemOfFile(n);
        assert FileOf(n) in fs;
        var i :| 0 <= i < |fs| && fs[i] == FileOf(n);
        assert ns[i] == n;
      }
    }
  }

  /** A non-empty category shows its header and then its agents. */
  function CategoryRows(cat: string, ns: seq<string>): seq<Row> {
    if |ns| == 0 then []
    else [Header(cat)] + seq(|ns|, i requires 0 <= i < |ns| => Agent(cat, ns[i]))
  }

  /** `flattened_agents`: the categories in turn, each non-empty one as its
      header followed by its agents. */
  function Rows(col: Collection, cats: seq<string>): seq<Row>
    decreases |cats|
  {
    if |cats| == 0 then [] else CategoryRows(cats[0], AgentNames(col, cats[0])) + Rows(col, cats[1..])
  }

  /** Every header is followed by an agent of its category, so the listing
      neither ends on a header nor shows an empty category. */
  predicate HeadersLead(rows: seq<Row>) {
    forall i | 0 <= i < |rows| && rows[i].Header? ::
      i + 1 < |rows| && rows[i + 1].Agent? && rows[i + 1].category == rows[i].category
  }

  lemma HeadersLeadAppend(a: seq<Row>, b: seq<Row>)
    requires HeadersLead(a) && HeadersLead(b)
    ensures HeadersLead(a + b)
  {
    forall i | 0 <= i < |a + b| && (a + b)[i].Header?
      ensures i + 1 < |a + b| && (a + b)[i + 1].Agent? && (a + b)[i + 1].category == (a + b)[i].category
    {
      if i < |a| {
        assert a[i].Header?;
      } else {
        assert b[i - |a|].Header?;
      }
    }
  }

  lemma CategoryRowsShape(cat: string, ns: seq<string>)
    ensures HeadersLead(CategoryRows(cat, ns))
    ensures |CategoryRows(cat, ns)| > 0 ==> CategoryRows(cat, ns)[0] == Header(cat)
    ensures forall i | 0 <= i < |CategoryRows(cat, ns)| ::
              CategoryRows(cat, ns)[i].category == cat &&
              (CategoryRows(cat, ns)[i].Agent? ==> CategoryRows(cat, ns)[i].name in ns)
    ensures forall j | 0 <= j < |ns| :: Agent(cat, ns[j]) in CategoryRows(cat, ns)
  {
    var rows := CategoryRows(cat, ns);
    if |ns| > 0 {
      forall j | 0 <= j < |ns|
        ensures Agent(cat, ns[j]) in rows
      {
        assert rows[j + 1] == Agent(cat, ns[j]);
      }
    }
  }

  /** Every header is followed by an agent of its category, and the listing
      starts with a header. */
  lemma {:induction false} RowsLead(col: Collection, cats: seq<string>)
    ensures HeadersLead(Rows(col, cats))
    ensures |Rows(col, cats)| > 0 ==> Rows(col, cats)[0].Header?
    decreases |cats|
  {
    if |cats| > 0 {
      CategoryRowsShape(cats[0], AgentNames(col, cats[0]));
      RowsLead(col, cats[1..]);
      HeadersLeadAppend(CategoryRows(cats[0], AgentNames(col, cats[0])), Rows(col, cats[1..]));
    }
  }

  /** Every row belongs to a listed category, and an agent row names one of
      that category's agents. */
  lemma {:induction false} RowsSound(col: Collection, cats: seq<string>)
    ensures forall i | 0 <= i < |Rows(col, cats)| ::
              Rows(col, cats)[i].category in cats &&
              (Rows(col, cats)[i].Agent? ==> Rows(col, cats)[i].name in AgentNames(col, Rows(col, cats)[i].category))
    decreases |cats|
  {
    if |cats| > 0 {
      var head: seq<Row> := CategoryRows(cats[0], AgentNames(col, cats[0]));
      var tail: seq<Row> := Rows(col, cats[1..]);
      CategoryRowsShape(cats[0], AgentNames(col, cats[0]));
      RowsSound(col, cats[1..]);
      SoundAppend(head, tail, cats, col);
    }
  }

  /** Appending two row lists that each belong to `cats` keeps that. */
  lemma SoundAppend(head: seq<Row>, tail: seq<Row>, cats: seq<string>, col: Collection)
    requires |cats| > 0
    requires forall i | 0 <= i < |head| ::
               head[i].category == cats[0] && (head[i].Agent? ==> head[i].name in AgentNames(col, cats[0]))
    requires forall i | 0 <= i < |tail| ::
               tail[i].category in cats[1..] && (tail[i].Agent? ==> tail[i].name in AgentNames(col, tail[i].category))
    ensures forall i | 0 <= i < |head + tail| ::
              (head + tail)[i].category in cats &&
              ((head + tail)[i].Agent? ==> (head + tail)[i].name in AgentNames(col, (head + tail)[i].category))
  {
    forall i | 0 <= i < |head + tail|
      ensures (head + tail)[i].category in cats
    {
      if i >= |head| {
        assert (head + tail)[i] == tail[i - |head|];
      }
    }
  }

  /** Every agent of a listed category has a row. */
  lemma {:induction false} RowsComplete(col: Collection, cats: seq<string>)
    ensures forall c, j | c in cats && 0 <= j < |AgentNames(col, c)| :: Agent(c, AgentNames(col, c)[j]) in Rows(col, cats)
    decreases |cats|
  {
    if |cats| > 0 {
      var head: seq<Row> := CategoryRows(cats[0], AgentNames(col, cats[0]));
      var tail: seq<Row> := Rows(col, cats[1..]);
      CategoryRowsShape(cats[0], AgentNames(col, cats[0]));
      RowsComplete(col, cats[1..]);
      forall c, j | c in cats && 0 <= j < |AgentNames(col, c)|
        ensures Agent(c, AgentNames(col, c)[j]) in head + tail
      {
        if c != cats[0] {
          assert c in cats[1..];
        }
      }
    }
  }

  /** Neither part of an agent row holds the separator. */
  predicate PlainRows(rows: seq<Row>) {
    forall i | 0 <= i < |rows| && rows[i].Agent? :: '/' !in rows[i].category && '/' !in rows[i].name
  }

  /** The listing of plain categories over plain file names is plain, and
      every header leads an agent. */
  lemma RowsShape(col: Collection, cats: seq<string>)
    requires Plain(col) && PlainCats(cats)
    ensures HeadersLead(Rows(col, cats)) && PlainRows(Rows(col, cats))
  {
    RowsLead(col, cats);
    RowsSound(col, cats);
    var rows := Rows(col, cats);
    forall i | 0 <= i < |rows| && rows[i].Agent?
      ensures '/' !in rows[i].category && '/' !in rows[i].name
    {
      var c := rows[i].category;
      var j :| 0 <= j < |AgentNames(col, c)| && AgentNames(col, c)[j] == rows[i].name;
      var f := AgentFiles(col, c)[j];
      assert f in AgentFiles(col, c);
      StemPlain(f);
    }
  }

  // ---------------------------------------------------------------------
  // Keys: `f"{category}/{name}"` and `key.split('/')`.
  // ---------------------------------------------------------------------

  function AgentKey(category: string, name: string): string {
    category + "/" + name
  }

  /** `key.split('/')[0]`. */
  function KeyCategory(k: string): string {
    Split(k, '/')[0]
  }

  /** `key.split('/')[1]`; every key of the maps has two pieces (KeyParts),
      so the empty fallback is never used. */
  function KeyName(k: string): string {
    var parts := Split(k, '/');
    if |parts| >= 2 then parts[1] else ""
  }

  /** Splitting a key gives back exactly its category and its name, which is
      what `category, name = agent_key.split('/')` needs. */
  lemma KeyParts(c: string, n: string)
    requires '/' !in c && '/' !in n
    ensures Split(AgentKey(c, n), '/') == [c, n]
    ensures KeyCategory(AgentKey(c, n)) == c && KeyName(AgentKey(c, n)) == n
  {
    assert AgentKey(c, n) == c + ['/'] + n;
    SplitFirst(c, n, '/');
    SplitNone(n, '/');
  }

  /** A key of two pieces is rebuilt from them. */
  lemma KeyRoundTrip(k: string)
    requires |Split(k, '/')| == 2
    ensures AgentKey(KeyCategory(k), KeyName(k)) == k
  {
    var parts := Split(k, '/');
    SplitJoin(k, '/');
    assert parts == [parts[0]] + parts[1..];
    JoinCons(parts[0], parts[1..], "/");
    assert Join(parts[1..], "/") == parts[1];
  }

  /** Different agents have different keys. */
  lemma AgentKeyInjective(c1: string, n1: string, c2: string, n2: string)
    requires '/' !in c1 && '/' !in n1 && '/' !in c2 && '/' !in n2
    requires AgentKey(c1, n1) == AgentKey(c2, n2)
    ensures c1 == c2 && n1 == n2
  {
    KeyParts(c1, n1);
    KeyParts(c2, n2);
  }

  /** Some agent row has key `k`. */
  predicate IsRowKey(rows: seq<Row>, k: string) {
    exists i | 0 <= i < |rows| :: rows[i].Agent? && AgentKey(rows[i].category, rows[i].name) == k
  }

  /** The keys of the agent rows, in row order. */
  function RowKeys(rows: seq<Row>): (ks: seq<string>)
    ensures forall i | 0 <= i < |rows| && rows[i].Agent? :: AgentKey(rows[i].category, rows[i].name) in ks
    ensures forall i | 0 <= i < |ks| :: IsRowKey(rows, ks[i])
    decreases |rows|
  {
    if |rows| == 0 then []
    else
      var tail := RowKeys(rows[1..]);
      assert forall i | 0 <= i < |tail| :: IsRowKey(rows, tail[i]) by {
        forall i | 0 <= i < |tail|
          ensures IsRowKey(rows, tail[i])
        {
          var j :| 0 <= j < |rows[1..]| && rows[1..][j].Agent? &&
                   AgentKey(rows[1..][j].category, rows[1..][j].name) == tail[i];
          assert rows[j + 1] == rows[1..][j];
        }
      }
      assert forall i | 1 <= i < |rows| :: rows[i] == rows[1..][i - 1];
      (if rows[0].Agent? then [AgentKey(rows[0].category, rows[0].name)] else []) + tail
  }

  // ---------------------------------------------------------------------
  // Loading the maps (`load_agents`, lines 78-108).
  // ---------------------------------------------------------------------

  /** `installed`: the view has a directory and it holds `name.md`. */
  function IsInstalled(check: Option<Location>, name: string): bool {
    check.Some? && check.value.Some? && FileOf(name) in check.value.value
  }

  /** What a load records for an agent: original and current both say
      whether it is installed, and no change is pending. */
  function Loaded(check: Option<Location>, name: string): (x: LeafState)
    ensures Settled(x) && x.change == Classify(x.current, x.original)
    ensures x.current <==> IsInstalled(check, name)
  {
    var b := IsInstalled(check, name);
    LeafState(b, b, NoChange)
  }

  /** The loop over the agents: each one's key is assigned, and the maps are
      not cleared first. */
  function LoadRows(rows: seq<Row>, check: Option<Location>, st: map<string, LeafState>): map<string, LeafState>
    decreases |rows|
  {
    if |rows| == 0 then st
    else
      var next := if rows[0].Agent? then st[AgentKey(rows[0].category, rows[0].name) := Loaded(check, rows[0].name)] else st;
      LoadRows(rows[1..], check, next)
  }

  /** After the loop every agent's key holds what the load records for the
      name in the key, and every other key keeps its old entry. */
  lemma {:induction false} LoadRowsSpec(rows: seq<Row>, check: Option<Location>, st: map<string, LeafState>)
    requires PlainRows(rows)
    ensures forall k :: k in LoadRows(rows, check, st) <==> k in st || k in RowKeys(rows)
    ensures forall k | k in RowKeys(rows) :: LoadRows(rows, check, st)[k] == Loaded(check, KeyName(k))
    ensures forall k | k in st && k !in RowKeys(rows) :: LoadRows(rows, check, st)[k] == st[k]
    decreases |rows|
  {
    if |rows| > 0 {
      var next := if rows[0].Agent? then st[AgentKey(rows[0].category, rows[0].name) := Loaded(check, rows[0].name)] else st;
      assert PlainRows(rows[1..]) by {
        assert forall i | 0 <= i < |rows[1..]| :: rows[1..][i] == rows[i + 1];
      }
      LoadRowsSpec(rows[1..], check, next);
      if rows[0].Agent? {
        KeyParts(rows[0].category, rows[0].name);
      }
    }
  }

  /** `load_agents()`: the listing is rebuilt and every agent's key is
      loaded from the view's directory; the cursor stays where it was. */
  function Load(s: Screen, targets: Targets): Screen
    requires Distinct(s.order)
  {
    var rows := Rows(s.col, s.cats);
    s.(rows := rows,
       state := LoadRows(rows, TargetOf(targets, s.view), s.state),
       order := InsertionOrder(RowKeys(rows), s.order))
  }

  /** The screen invariant: the listing is the collection's, the maps hold
      exactly the keys of the agent rows, the key order lists them once
      each, every change is classified, and the cursor is on a row. */
  ghost predicate Inv(s: Screen) {
    && Plain(s.col) && PlainCats(s.cats)
    && s.rows == Rows(s.col, s.cats)
    && Distinct(s.order)
    && (forall k :: k in s.order <==> k in s.state)
    && (forall k :: k in s.state <==> k in RowKeys(s.rows))
    && Consistent(s.state)
    && 0 <= s.index && (s.index < |s.rows| || s.index == 0)
  }

  /** What a load may start from: any maps whose keys are agents of the
      collection, listed once each in the key order. */
  ghost predicate Loadable(s: Screen) {
    && Plain(s.col) && PlainCats(s.cats)
    && Distinct(s.order)
    && (forall k :: k in s.order <==> k in s.state)
    && (forall k | k in s.state :: k in RowKeys(Rows(s.col, s.cats)))
    && 0 <= s.index && (s.index < |Rows(s.col, s.cats)| || s.index == 0)
  }

  /** A load gives the invariant and leaves every key settled: original and
      current say whether the agent named in the key is installed in the
      view's directory. */
  lemma LoadSpec(s: Screen, targets: Targets)
    requires Loadable(s)
    ensures Inv(Load(s, targets))
    ensures forall k | k in Load(s, targets).state ::
              Load(s, targets).state[k] == Loaded(TargetOf(targets, s.view), KeyName(k))
    ensures Load(s, targets).view == s.view && Load(s, targets).index == s.index
  {
    RowsShape(s.col, s.cats);
    var rows := Rows(s.col, s.cats);
    LoadRowsSpec(rows, TargetOf(targets, s.view), s.state);
  }

  /** The screen the program starts with: general view, cursor on the first
      row, maps loaded from the user's directory. */
  function Start(col: Collection, targets: Targets): Screen {
    Load(Screen(Categories, col, General, 0, [], map[], []), targets)
  }

  lemma StartSpec(col: Collection, targets: Targets)
    requires Plain(col)
    ensures Inv(Start(col, targets)) && Start(col, targets).index == 0
    ensures forall k | k in Start(col, targets).state ::
              Start(col, targets).state[k] == Loaded(Some(targets.user), KeyName(k))
  {
    LoadSpec(Screen(Categories, col, General, 0, [], map[], []), targets);
  }

  /** A load overwrites every entry, so whatever was selected before is
      forgotten: two screens that differ only in their maps' values load
      to the same screen. */
  lemma LoadForgets(s: Screen, u: Screen, targets: Targets)
    requires Inv(s) && Inv(u)
    requires s.cats == u.cats && s.col == u.col && s.view == u.view && s.index == u.index && s.order == u.order
    ensures Load(s, targets) == Load(u, targets)
  {
    RowsShape(s.col, s.cats);
    LoadRowsForgets(s.rows, TargetOf(targets, s.view), s.state, u.state);
  }

  /** The loop over the agents gives the same maps from any two maps with
      the same keys, all of them agents. */
  lemma LoadRowsForgets(rows: seq<Row>, check: Option<Location>, a: map<string, LeafState>, b: map<string, LeafState>)
    requires PlainRows(rows)
    requires forall k :: k in a <==> k in RowKeys(rows)
    requires forall k :: k in b <==> k in RowKeys(rows)
    ensures LoadRows(rows, check, a) == LoadRows(rows, check, b)
  {
    LoadRowsAgree(rows, check, a, b);
  }

  /** Maps with the same keys that agree outside the agents' keys load alike. */
  lemma {:induction false} LoadRowsAgree(rows: seq<Row>, check: Option<Location>, a: map<string, LeafState>, b: map<string, LeafState>)
    requires forall k :: k in a <==> k in b
    requires forall k | k in a && k !in RowKeys(rows) :: a[k] == b[k]
    ensures LoadRows(rows, check, a) == LoadRows(rows, check, b)
    decreases |rows|
  {
    if |rows| > 0 {
      var rest := rows[1..];
      var mine := if rows[0].Agent? then [AgentKey(rows[0].category, rows[0].name)] else [];
      assert RowKeys(rows) == mine + RowKeys(rest);
      var na := if rows[0].Agent? then a[AgentKey(rows[0].category, rows[0].name) := Loaded(check, rows[0].name)] else a;
      var nb := if rows[0].Agent? then b[AgentKey(rows[0].category, rows[0].name) := Loaded(check, rows[0].name)] else b;
      LoadRowsAgree(rest, check, na, nb);
    }
  }

  /** Loading twice is loading once, and a load of a screen that satisfies
      the invariant keeps the key order. */
  lemma LoadIdempotent(s: Screen, targets: Targets)
    requires Inv(s)
    ensures Load(s, targets).order == s.order
    ensures Load(Load(s, targets), targets) == Load(s, targets)
  {
    var r := Load(s, targets);
    assert forall i | 0 <= i < |RowKeys(s.rows)| :: RowKeys(s.rows)[i] in s.order;
    InsertionOrderPresent(RowKeys(s.rows), s.order);
    LoadSpec(s, targets);
    LoadForgets(s, r, targets);
  }

  // ---------------------------------------------------------------------
  // Toggling an agent (`toggle_agent`) and the summary.
  // ---------------------------------------------------------------------

  /** `toggle_agent(agent)`: the agent's selection flips and its change is
      reclassified; nothing else changes. */
  function ToggleAgent(s: Screen, c: string, n: string): (r: Screen)
    requires AgentKey(c, n) in s.state
    ensures r == s.(state := r.state) && r.state.Keys == s.state.Keys
    ensures forall k | k in s.state && k != AgentKey(c, n) :: r.state[k] == s.state[k]
    ensures r.state[AgentKey(c, n)].original == s.state[AgentKey(c, n)].original
    ensures r.state[AgentKey(c, n)].current == !s.state[AgentKey(c, n)].current
    ensures r.state[AgentKey(c, n)].change == Classify(r.state[AgentKey(c, n)].current, r.state[AgentKey(c, n)].original)
  {
    var k := AgentKey(c, n);
    s.(state := s.state[k := Toggled(s.state[k])])
  }

  lemma ToggleAgentKeepsInv(s: Screen, c: string, n: string)
    requires Inv(s) && AgentKey(c, n) in s.state
    ensures Inv(ToggleAgent(s, c, n))
  {
  }

  /** Toggling the same agent twice restores the screen. */
  lemma ToggleAgentTwice(s: Screen, c: string, n: string)
    requires Inv(s) && AgentKey(c, n) in s.state
    ensures ToggleAgent(ToggleAgent(s, c, n), c, n) == s
  {
    ToggleKeyTwice(s.state, AgentKey(c, n));
  }

  lemma ToggleKeyTwice(st: map<string, LeafState>, k: string)
    requires k in st && Consistent(st)
    ensures var once := st[k := Toggled(st[k])]; once[k := Toggled(once[k])] == st
  {
    ToggledTwice(st[k]);
  }

  /** Key space: toggles the agent under the cursor; a header row or an
      empty listing is left alone. */
  function Space(s: Screen): (r: Screen)
    requires Inv(s)
    ensures s.index < |s.rows| && s.rows[s.index].Agent? ==>
              r == ToggleAgent(s, s.rows[s.index].category, s.rows[s.index].name)
    ensures !(s.index < |s.rows| && s.rows[s.index].Agent?) ==> r == s
  {
    if s.index < |s.rows| && s.rows[s.index].Agent? then
      var row := s.rows[s.index];
      assert AgentKey(row.category, row.name) in RowKeys(s.rows);
      ToggleAgent(s, row.category, row.name)
    else s
  }

  /** Space twice on the same row gives the screen back. */
  lemma SpaceTwice(s: Screen)
    requires Inv(s)
    ensures Inv(Space(s)) && Space(Space(s)) == s
  {
    if s.index < |s.rows| && s.rows[s.index].Agent? {
      var row := s.rows[s.index];
      assert AgentKey(row.category, row.name) in RowKeys(s.rows);
      ToggleAgentKeepsInv(s, row.category, row.name);
      ToggleAgentTwice(s, row.category, row.name);
    }
  }

  /** `get_changes_summary()`: the names of the pending additions and of the
      pending removals, in key order. */
  function ChangesSummary(s: Screen): (seq<string>, seq<string>)
    requires forall k | k in s.order :: k in s.state
  {
    (Names(s.order, s.state, KeyName, Add), Names(s.order, s.state, KeyName, Remove))
  }

  predicate HasPending(s: Screen)
    requires forall k | k in s.order :: k in s.state
  {
    ChangesSummary(s).0 != [] || ChangesSummary(s).1 != []
  }

  /** The summary is empty exactly when no key has a pending change, that
      is, when every selection matches the installation. */
  lemma HasPendingIff(s: Screen)
    requires Inv(s)
    ensures HasPending(s) <==> exists k | k in s.state :: s.state[k].change != NoChange
    ensures HasPending(s) <==> exists k | k in s.state :: s.state[k].current != s.state[k].original
  {
    PendingIff(s.order, s.state, KeyName);
  }

  /** The key of a listed agent names its category and its agent. */
  lemma RowKeyParts(s: Screen, k: string)
    requires Inv(s) && k in s.state
    ensures AgentKey(KeyCategory(k), KeyName(k)) == k
  {
    RowsShape(s.col, s.cats);
    assert IsRowKey(s.rows, k);
    var i :| 0 <= i < |s.rows| && s.rows[i].Agent? && AgentKey(s.rows[i].category, s.rows[i].name) == k;
    KeyParts(s.rows[i].category, s.rows[i].name);
  }

  /** A name listed both as an addition and as a removal belongs to two
      keys with opposite changes, whose categories therefore differ. */
  lemma NamesOverlap(keys: seq<string>, st: map<string, LeafState>, x: string)
    requires forall k | k in keys :: k in st
    requires forall k | k in st :: AgentKey(KeyCategory(k), KeyName(k)) == k
    requires x in Names(keys, st, KeyName, Add) && x in Names(keys, st, KeyName, Remove)
    ensures exists k1, k2 | k1 in st && k2 in st ::
              st[k1].change == Add && st[k2].change == Remove &&
              KeyName(k1) == x && KeyName(k2) == x && KeyCategory(k1) != KeyCategory(k2)
  {
    assert forall i | 0 <= i < |keys| :: keys[i] in st by {
      forall i | 0 <= i < |keys| ensures keys[i] in st {
        assert keys[i] in keys;
      }
    }
    assert NamedWith(keys, st, KeyName, Add, x);
    assert NamedWith(keys, st, KeyName, Remove, x);
    var j1 :| 0 <= j1 < |keys| && st[keys[j1]].change == Add && KeyName(keys[j1]) == x;
    var j2 :| 0 <= j2 < |keys| && st[keys[j2]].change == Remove && KeyName(keys[j2]) == x;
    var k1, k2 := keys[j1], keys[j2];
    assert AgentKey(KeyCategory(k1), x) == k1 && AgentKey(KeyCategory(k2), x) == k2;
  }

  /** The two summary lists share a name only when agents of that name in
      two different categories have opposite pending changes; with agent
      names unique across categories they are disjoint. */
  lemma SummaryOverlap(s: Screen, x: string)
    requires Inv(s)
    requires x in ChangesSummary(s).0 && x in ChangesSummary(s).1
    ensures exists k1, k2 | k1 in s.state && k2 in s.state ::
              s.state[k1].change == Add && s.state[k2].change == Remove &&
              KeyName(k1) == x && KeyName(k2) == x && KeyCategory(k1) != KeyCategory(k2)
  {
    StateKeysSplit(s);
    NamesOverlap(s.order, s.state, x);
  }

  /** Every key of a valid screen splits back into its category and name. */
  lemma StateKeysSplit(s: Screen)
    requires Inv(s)
    ensures forall k | k in s.state :: AgentKey(KeyCategory(k), KeyName(k)) == k
  {
    forall k | k in s.state ensures AgentKey(KeyCategory(k), KeyName(k)) == k {
      RowKeyParts(s, k);
    }
  }

  // ---------------------------------------------------------------------
  // Saving (`save_changes`, lines 138-157).
  // ---------------------------------------------------------------------

  /** What one entry of `changes` does to the target directory: a pending
      addition copies `category/name.md` from the collection when it exists,
      a pending removal deletes `name.md`, no change does nothing. */
  function OpsFor(col: Collection, k: string, x: LeafState): (ops: seq<Op>)
    ensures x.change == NoChange ==> ops == []
    ensures forall i | 0 <= i < |ops| :: ops[i].name == FileOf(KeyName(k))
  {
    var c := KeyCategory(k);
    var n := KeyName(k);
    match x.change
    case NoChange => []
    case Add => if c in col && FileOf(n) in col[c] then [Write(FileOf(n), col[c][FileOf(n)])] else []
    case Remove => [Delete(FileOf(n))]
  }

  function KeyOps(col: Collection, st: map<string, LeafState>): string -> seq<Op> {
    k => if k in st then OpsFor(col, k, st[k]) else []
  }

  /** The view's directory after `mkdir` and the loop over `changes`. */
  function SavedDir(s: Screen, targets: Targets): Dir
    requires TargetOf(targets, s.view).Some?
  {
    Run(OpsOf(s.order, KeyOps(s.col, s.state)), Ensure(TargetOf(targets, s.view).value))
  }

  /** `save_changes()`: the files are written, then the maps are loaded. */
  function SaveChanges(s: Screen, targets: Targets): (Screen, Targets)
    requires TargetOf(targets, s.view).Some? && Distinct(s.order)
  {
    var t := WithTarget(targets, s.view, SavedDir(s, targets));
    (Load(s, t), t)
  }

  /** No other key with a pending change names an agent of the same name,
      so nothing else in the save touches `k`'s file. */
  predicate OnlyTarget(s: Screen, k: string) {
    forall k2 | k2 in s.state && k2 != k && s.state[k2].change != NoChange :: KeyName(k2) != KeyName(k)
  }

  /** A file that no pending key installs is left as it was. */
  lemma SaveUntouched(s: Screen, targets: Targets, f: string)
    requires Inv(s) && TargetOf(targets, s.view).Some?
    requires forall k | k in s.state && s.state[k].change != NoChange :: FileOf(KeyName(k)) != f
    ensures Get(SavedDir(s, targets), f) == Get(Ensure(TargetOf(targets, s.view).value), f)
  {
    var ops := KeyOps(s.col, s.state);
    assert Spares(s.order, ops, f);
    OpsOfSpares(s.order, ops, f);
    RunEffect(OpsOf(s.order, ops), Ensure(TargetOf(targets, s.view).value), f);
  }

  /** The file of an agent that is the only pending one of its name: an
      addition installs the collection's copy when the collection has it
      and leaves the file alone otherwise, a removal deletes it. */
  lemma SaveOfKey(s: Screen, targets: Targets, c: string, n: string)
    requires Inv(s) && TargetOf(targets, s.view).Some?
    requires AgentKey(c, n) in s.state && '/' !in c && '/' !in n
    requires OnlyTarget(s, AgentKey(c, n))
    ensures var x := s.state[AgentKey(c, n)];
            var before := Ensure(TargetOf(targets, s.view).value);
            var after := SavedDir(s, targets);
            && (x.change == Add && c in s.col && FileOf(n) in s.col[c] ==> Get(after, FileOf(n)) == Some(s.col[c][FileOf(n)]))
            && (x.change == Add && !(c in s.col && FileOf(n) in s.col[c]) ==> Get(after, FileOf(n)) == Get(before, FileOf(n)))
            && (x.change == Remove ==> Get(after, FileOf(n)) == None)
            && (x.change == NoChange ==> Get(after, FileOf(n)) == Get(before, FileOf(n)))
  {
    var k := AgentKey(c, n);
    KeyParts(c, n);
    assert k in s.order;
    KeyFileLast(s.order, s.col, s.state, k, Ensure(TargetOf(targets, s.view).value));
  }

  /** The file of a key alone on its name ends as that key's own
      operations leave it. */
  lemma KeyFileLast(order: seq<string>, col: Collection, st: map<string, LeafState>, k: string, d: Dir)
    requires k in order && k in st
    requires forall k2 | k2 in st && k2 != k && st[k2].change != NoChange :: KeyName(k2) != KeyName(k)
    ensures var f := FileOf(KeyName(k));
            Get(Run(OpsOf(order, KeyOps(col, st)), d), f) == Outcome(LastOn(OpsFor(col, k, st[k]), f), Get(d, f))
  {
    var f := FileOf(KeyName(k));
    var ops := KeyOps(col, st);
    forall j, i | 0 <= j < |order| && order[j] != k && 0 <= i < |ops(order[j])|
      ensures ops(order[j])[i].name != f
    {
      var k2 := order[j];
      if FileOf(KeyName(k2)) == f {
        FileOfInjective(KeyName(k2), KeyName(k));
      }
    }
    OpsOfLast(order, ops, k, f);
    RunEffect(OpsOf(order, ops), d, f);
  }

  /** After a save the screen is loaded again: the invariant holds, nothing
      is pending, the cursor stays, the other view's directory is untouched,
      and the saved directory shows the result of the copies and deletions. */
  lemma SaveReloads(s: Screen, targets: Targets)
    requires Inv(s) && TargetOf(targets, s.view).Some?
    ensures var (r, t) := SaveChanges(s, targets);
            && Inv(r) && r.view == s.view && r.index == s.index
            && (forall k | k in r.state :: r.state[k] == Loaded(Some(Some(SavedDir(s, targets))), KeyName(k)))
            && TargetOf(t, s.view) == Some(Some(SavedDir(s, targets)))
            && (forall w: View | w != s.view :: TargetOf(t, w) == TargetOf(targets, w))
  {
    var t := WithTarget(targets, s.view, SavedDir(s, targets));
    LoadSpec(s, t);
  }

  /** Saving again right after a save changes nothing. */
  lemma SaveTwice(s: Screen, targets: Targets)
    requires Inv(s) && TargetOf(targets, s.view).Some?
    ensures var (r, t) := SaveChanges(s, targets);
            SaveChanges(r, t) == (r, t)
  {
    var (r, t) := SaveChanges(s, targets);
    SaveReloads(s, targets);
    var d := SavedDir(s, targets);
    assert OpsOf(r.order, KeyOps(r.col, r.state)) == [] by {
      NothingPendingNoOps(r.order, r.col, r.state);
    }
    assert SavedDir(r, t) == d;
    assert WithTarget(t, r.view, d) == t;
    LoadIdempotent(s, t);
  }

  /** With nothing pending the loop over `changes` does nothing. */
  lemma {:induction false} NothingPendingNoOps(keys: seq<string>, col: Collection, st: map<string, LeafState>)
    requires forall k | k in st :: st[k].change == NoChange
    ensures OpsOf(keys, KeyOps(col, st)) == []
    decreases |keys|
  {
    if |keys| > 0 {
      NothingPendingNoOps(keys[1..], col, st);
    }
  }

  // ---------------------------------------------------------------------
  // The main loop's keys (lines 400-481).
  // ---------------------------------------------------------------------

  /** Key UP: one row up, then further up past headers while not at the
      top, so the cursor lands on the nearest agent above, or on the first
      row when there is none. */
  method Up(s: Screen) returns (r: Screen)
    requires Inv(s)
    ensures r == s.(index := r.index) && Inv(r)
    ensures s.index == 0 ==> r.index == 0
    ensures s.index > 0 ==> r.index < s.index && (r.index == 0 || s.rows[r.index].Agent?)
    ensures forall i | r.index < i < s.index :: s.rows[i].Header?
  {
    var j := UpFrom(s.rows, s.index);
    CursorKeepsInv(s, j);
    r := s.(index := j);
  }

  /** The row Key UP moves to from row `i`. */
  method UpFrom(rows: seq<Row>, i: int) returns (j: int)
    requires 0 <= i && (i < |rows| || i == 0)
    ensures 0 <= j && (j < |rows| || j == 0)
    ensures i == 0 ==> j == 0
    ensures i > 0 ==> j < i && (j == 0 || rows[j].Agent?)
    ensures forall k | j < k < i :: rows[k].Header?
  {
    j := i;
    if j > 0 {
      j := j - 1;
      while j > 0 && rows[j].Header?
        invariant 0 <= j < i
        invariant forall k | j < k < i :: rows[k].Header?
      {
        j := j - 1;
      }
    }
  }

  /** Key DOWN: one row down, then further down past headers while not at
      the bottom. Since a header is always followed by an agent, the cursor
      lands on the nearest agent below. */
  method Down(s: Screen) returns (r: Screen)
    requires Inv(s)
    ensures r == s.(index := r.index) && Inv(r)
    ensures s.index >= |s.rows| - 1 ==> r.index == s.index
    ensures s.index < |s.rows| - 1 ==> s.index < r.index && s.rows[r.index].Agent?
    ensures forall i | s.index < i < r.index :: s.rows[i].Header?
  {
    RowsShape(s.col, s.cats);
    var j := DownFrom(s.rows, s.index);
    CursorKeepsInv(s, j);
    r := s.(index := j);
  }

  /** The row Key DOWN moves to from row `i`. */
  method DownFrom(rows: seq<Row>, i: int) returns (j: int)
    requires HeadersLead(rows) && 0 <= i && (i < |rows| || i == 0)
    ensures 0 <= j && (j < |rows| || j == 0)
    ensures i >= |rows| - 1 ==> j == i
    ensures i < |rows| - 1 ==> i < j && rows[j].Agent?
    ensures forall k | i < k < j :: rows[k].Header?
  {
    j := i;
    if j < |rows| - 1 {
      j := j + 1;
      while j < |rows| - 1 && rows[j].Header?
        invariant i < j <= |rows| - 1
        invariant forall k | i < k < j :: rows[k].Header?
      {
        j := j + 1;
      }
    }
  }

  /** Moving the cursor to another row keeps the invariant. */
  lemma CursorKeepsInv(s: Screen, j: int)
    requires Inv(s) && 0 <= j && (j < |s.rows| || j == 0)
    ensures Inv(s.(index := j))
  {
  }

  /** Keys '1' and '2': switching to the other view moves the cursor to the
      top and loads that view; the current view, or '2' without a project,
      is ignored. The warning about unsaved changes is only a message. */
  function SwitchView(s: Screen, v: View, targets: Targets): Screen
    requires Distinct(s.order)
  {
    if v == Project && targets.project.None? then s
    else if s.view == v then s
    else Load(s.(view := v, index := 0), targets)
  }

  /** The view switch loads the new view from its directory and discards
      every pending change. */
  lemma SwitchViewSpec(s: Screen, v: View, targets: Targets)
    requires Inv(s)
    ensures Inv(SwitchView(s, v, targets))
    ensures v == Project && targets.project.None? ==> SwitchView(s, v, targets) == s
    ensures s.view == v ==> SwitchView(s, v, targets) == s
    ensures s.view != v && TargetOf(targets, v).Some? ==>
              var r := SwitchView(s, v, targets);
              && r.view == v && r.index == 0
              && forall k | k in r.state :: r.state[k] == Loaded(TargetOf(targets, v), KeyName(k))
  {
    if !(v == Project && targets.project.None?) && s.view != v {
      LoadSpec(s.(view := v, index := 0), targets);
    }
  }

  /** Keys 'r' and ESC: the maps are loaded again, which drops every
      pending change (the message that says so is not modelled). */
  function Reload(s: Screen, targets: Targets): Screen
    requires Distinct(s.order)
  {
    Load(s, targets)
  }

  /** A reload after toggling an agent is the reload without the toggle. */
  lemma ReloadUndoesToggle(s: Screen, c: string, n: string, targets: Targets)
    requires Inv(s) && AgentKey(c, n) in s.state
    ensures Reload(ToggleAgent(s, c, n), targets) == Reload(s, targets)
  {
    ToggleAgentKeepsInv(s, c, n);
    LoadForgets(ToggleAgent(s, c, n), s, targets);
  }

  /** Key 's': the confirmation dialog declines by itself when nothing is
      pending; otherwise `confirmed` is the answer given to it. */
  function SaveKey(s: Screen, targets: Targets, confirmed: bool): (r: (Screen, Targets))
    requires Inv(s) && TargetOf(targets, s.view).Some?
    ensures !HasPending(s) || !confirmed ==> r == (s, targets)
    ensures HasPending(s) && confirmed ==> r == SaveChanges(s, targets)
  {
    if HasPending(s) && confirmed then SaveChanges(s, targets) else (s, targets)
  }

  /** Key 'q': with pending changes the program saves and ends when the
      dialog is confirmed, and stays otherwise; with none it just ends. The
      last component tells whether the program ends. */
  function Quit(s: Screen, targets: Targets, confirmed: bool): (r: (Screen, Targets, bool))
    requires Inv(s) && TargetOf(targets, s.view).Some?
    ensures !HasPending(s) ==> r == (s, targets, true)
    ensures HasPending(s) && !confirmed ==> r == (s, targets, false)
    ensures HasPending(s) && confirmed ==> (r.0, r.1) == SaveChanges(s, targets) && r.2
  {
    if !HasPending(s) then (s, targets, true)
    else if confirmed then
      var (r, t) := SaveChanges(s, targets);
      (r, t, true)
    else (s, targets, false)
  }

  /** Key 's' keeps the screen valid and the cursor where it was; afterwards
      something is pending exactly when something was and the dialog was
      declined. */
  lemma SaveKeySpec(s: Screen, targets: Targets, confirmed: bool)
    requires Inv(s) && TargetOf(targets, s.view).Some?
    ensures var r := SaveKey(s, targets, confirmed).0;
            Inv(r) && r.view == s.view && r.index == s.index &&
            (HasPending(r) <==> HasPending(s) && !confirmed)
  {
    if HasPending(s) && confirmed {
      SaveReloads(s, targets);
      HasPendingIff(SaveChanges(s, targets).0);
    }
  }

  /** Key 'q' ends the program exactly when nothing is pending or the
      dialog is confirmed, and never with a change left unsaved; when the
      program stays, nothing changes. */
  lemma QuitSpec(s: Screen, targets: Targets, confirmed: bool)
    requires Inv(s) && TargetOf(targets, s.view).Some?
    ensures var (r, t, ends) := Quit(s, targets, confirmed);
            Inv(r) && (ends <==> !HasPending(s) || confirmed) &&
            (ends ==> !HasPending(r)) && (!ends ==> r == s && t == targets)
  {
    SaveKeySpec(s, targets, confirmed);
  }
}
