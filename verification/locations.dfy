/** agent-manager.py: one list of every agent known to the collection, the
    user directory or the project directory, each with the place it is
    installed; edit modes that pre-select the installed agents of a level
    and make the directory match the selection; an install mode that only
    adds; and three ways of copying agent files between the two levels. */
module LocationManager {
  import opened Text
  import opened Files
  import opened Selection
  import opened Sources

  /** `Mode`: VIEW, EDIT_USER, EDIT_PROJECT, INSTALL and SYNC. */
  datatype Mode = Overview | EditUser | EditProject | Install | Sync

  /** An agent's `'location'`: only in the collection (`'available'`), or
      installed at the user level, the project level or both. */
  datatype Place = Available | InUser | InProject | InBoth

  /** One entry of `self.agents` (the description and path are not modelled). */
  datatype AgentInfo = AgentInfo(name: string, location: Place)

  /** The manager: the collection's categories and files, the mode, the
      cursor `current_index`, the sorted agent list and `self.selected`. */
  datatype Manager = Manager(cats: seq<string>, col: Collection, mode: Mode, index: int,
                             agents: seq<AgentInfo>, selected: map<string, bool>)

  // ---------------------------------------------------------------------
  // load_agents
  // ---------------------------------------------------------------------

  function Lookup(d: map<string, Place>, n: string): Option<Place> {
    if n in d then Some(d[n]) else None
  }

  /** The stems of the `*.md` names among `files`. */
  function StemSet(files: seq<string>): set<string> {
    set f | f in files && Globbed(f) :: MdStem(f)
  }

  /** `dir.glob("*.md")`, in name order. */
  function Listing(d: Dir): (fs: seq<string>)
    ensures forall f :: f in fs <==> f in d && Globbed(f)
  {
    SortedSet(set f | f in d && Globbed(f))
  }

  lemma ListingStems(d: Dir)
    ensures StemSet(Listing(d)) == Stems(Some(d))
  {
  }

  /** One loop of `load_agents` over the files of a directory: the stem of
      each file gets `merge` of the place it had so far. */
  function Pass(files: seq<string>, d: map<string, Place>, merge: Option<Place> -> Place): map<string, Place>
    requires forall f | f in files :: Globbed(f)
    decreases |files|
  {
    if |files| == 0 then d
    else
      var n := MdStem(files[0]);
      Pass(files[1..], d[n := merge(Lookup(d, n))], merge)
  }

  /** A pass adds the stems of its files and gives each of them `merge` of
      its place before the pass, however often the stem occurs, provided
      `merge` gives the same place when applied twice. */
  lemma {:induction false} PassSpec(files: seq<string>, d: map<string, Place>, merge: Option<Place> -> Place)
    requires forall f | f in files :: Globbed(f)
    requires forall o :: merge(Some(merge(o))) == merge(o)
    ensures forall n :: n in Pass(files, d, merge) <==> n in d || n in StemSet(files)
    ensures forall n | n in StemSet(files) :: Pass(files, d, merge)[n] == merge(Lookup(d, n))
    ensures forall n | n in d && n !in StemSet(files) :: Pass(files, d, merge)[n] == d[n]
    decreases |files|
  {
    if |files| > 0 {
      var n0 := MdStem(files[0]);
      var d1 := d[n0 := merge(Lookup(d, n0))];
      var rest := files[1..];
      assert forall f | f in rest :: f in files;
      PassSpec(rest, d1, merge);
      StemSetCons(files);
      var r := Pass(files, d, merge);
      assert r == Pass(rest, d1, merge);
      forall n | n in StemSet(files)
        ensures r[n] == merge(Lookup(d, n))
      {
        if n != n0 {
          assert n in StemSet(rest);
          assert Lookup(d1, n) == Lookup(d, n);
        } else if n in StemSet(rest) {
          assert Lookup(d1, n) == Some(merge(Lookup(d, n)));
        }
      }
      forall n | n in d && n !in StemSet(files)
        ensures r[n] == d[n]
      {
        assert n != n0 && n !in StemSet(rest);
      }
    }
  }

  /** The stems of a listing are its first file's stem and the stems of the rest. */
  lemma StemSetCons(files: seq<string>)
    requires |files| > 0 && Globbed(files[0])
    ensures StemSet(files) == {MdStem(files[0])} + StemSet(files[1..])
  {
    assert files == [files[0]] + files[1..];
  }

  /** The place given to every collection file. */
  function ToAvailable(o: Option<Place>): Place {
    Available
  }

  /** The user pass: any agent found there is at the user level. */
  function ToUser(o: Option<Place>): Place {
    InUser
  }

  /** The project pass: a user agent becomes `'both'`, a new or merely
      available one `'project'`, and anything else stays as it was. */
  function ToProject(o: Option<Place>): Place {
    match o
    case None => InProject
    case Some(InUser) => InBoth
    case Some(Available) => InProject
    case Some(p) => p
  }

  /** A category of the collection exists and has a `*.md` file of stem `n`. */
  predicate InCategory(col: Collection, c: string, n: string) {
    c in col && n in Stems(Some(col[c]))
  }

  lemma AgentFileStems(col: Collection, c: string)
    ensures StemSet(AgentFiles(col, c)) == (if c in col then Stems(Some(col[c])) else {})
  {
    if c in col {
      assert AgentFiles(col, c) == Listing(col[c]);
      ListingStems(col[c]);
    }
  }

  /** The collection loop of `load_agents`: each category in turn. */
  function CollectionPass(col: Collection, cats: seq<string>, d: map<string, Place>): map<string, Place>
    decreases |cats|
  {
    if |cats| == 0 then d
    else CollectionPass(col, cats[1..], Pass(AgentFiles(col, cats[0]), d, ToAvailable))
  }

  /** The stems of every category of `cats` that exists. */
  function CollectionStems(col: Collection, cats: seq<string>): set<string>
    decreases |cats|
  {
    if |cats| == 0 then {}
    else (if cats[0] in col then Stems(Some(col[cats[0]])) else {}) + CollectionStems(col, cats[1..])
  }

  /** A stem is in the collection exactly when some listed category has a
      `*.md` file of that stem. */
  lemma {:induction false} CollectionStemsIff(col: Collection, cats: seq<string>, n: string)
    ensures n in CollectionStems(col, cats) <==> exists i | 0 <= i < |cats| :: InCategory(col, cats[i], n)
    decreases |cats|
  {
    if |cats| > 0 {
      CollectionStemsIff(col, cats[1..], n);
      if exists i | 0 <= i < |cats| :: InCategory(col, cats[i], n) {
        var i :| 0 <= i < |cats| && InCategory(col, cats[i], n);
        if i > 0 {
          assert cats[1..][i - 1] == cats[i];
        }
      }
      if exists i | 0 <= i < |cats[1..]| :: InCategory(col, cats[1..][i], n) {
        var i :| 0 <= i < |cats[1..]| && InCategory(col, cats[1..][i], n);
        assert cats[i + 1] == cats[1..][i];
      }
    }
  }

  /** The collection loop adds every stem of the collection, as available,
      and keeps the rest. */
  lemma {:induction false} CollectionPassSpec(col: Collection, cats: seq<string>, d: map<string, Place>)
    ensures forall n :: n in CollectionPass(col, cats, d) <==> n in d || n in CollectionStems(col, cats)
    ensures forall n | n in CollectionPass(col, cats, d) ::
              CollectionPass(col, cats, d)[n] == if n in CollectionStems(col, cats) then Available else d[n]
    decreases |cats|
  {
    if |cats| > 0 {
      var d1 := Pass(AgentFiles(col, cats[0]), d, ToAvailable);
      PassSpec(AgentFiles(col, cats[0]), d, ToAvailable);
      AgentFileStems(col, cats[0]);
      CollectionPassSpec(col, cats[1..], d1);
    }
  }

  /** The project directory's `*.md` stems, none without a project or when
      its agents directory does not exist. */
  function ProjectStems(t: Targets): set<string> {
    if t.project.Some? then Stems(t.project.value) else {}
  }

  /** The place shown for an agent, from whether each level has it. */
  function PlaceOf(inUser: bool, inProject: bool): Place {
    if inUser && inProject then InBoth
    else if inUser then InUser
    else if inProject then InProject
    else Available
  }

  /** The user loop of `load_agents`, when the user directory exists. */
  function UserPass(d: map<string, Place>, t: Targets): map<string, Place> {
    if t.user.Some? then Pass(Listing(t.user.value), d, ToUser) else d
  }

  /** The project loop of `load_agents`, when there is a project whose
      agents directory exists. */
  function ProjectPass(d: map<string, Place>, t: Targets): map<string, Place> {
    if t.project.Some? && t.project.value.Some? then Pass(Listing(t.project.value.value), d, ToProject) else d
  }

  /** `agent_dict` after the three loops, as name -> location. */
  function Locations(col: Collection, cats: seq<string>, t: Targets): map<string, Place> {
    ProjectPass(UserPass(CollectionPass(col, cats, map[]), t), t)
  }

  /** After the user loop every user agent is at the user level and every
      other one is still available. */
  lemma UserPassSpec(d: map<string, Place>, t: Targets)
    requires forall n | n in d :: d[n] == Available
    ensures forall n :: n in UserPass(d, t) <==> n in d || n in Stems(t.user)
    ensures forall n | n in UserPass(d, t) :: UserPass(d, t)[n] == PlaceOf(n in Stems(t.user), false)
  {
    if t.user.Some? {
      PassSpec(Listing(t.user.value), d, ToUser);
      ListingStems(t.user.value);
    }
  }

  lemma ToProjectTwice()
    ensures forall o :: ToProject(Some(ToProject(o))) == ToProject(o)
  {
  }

  /** A project loop over `files` turns a user agent it finds into
      `'both'` and an available or new one into `'project'`. */
  lemma ProjectFilesPass(files: seq<string>, d: map<string, Place>, us: set<string>)
    requires forall f | f in files :: Globbed(f)
    requires forall n | n in d :: d[n] == PlaceOf(n in us, false)
    requires forall n | n in us :: n in d
    ensures forall n :: n in Pass(files, d, ToProject) <==> n in d || n in StemSet(files)
    ensures forall n | n in Pass(files, d, ToProject) ::
              Pass(files, d, ToProject)[n] == PlaceOf(n in us, n in StemSet(files))
  {
    ToProjectTwice();
    PassSpec(files, d, ToProject);
    var r := Pass(files, d, ToProject);
    forall n | n in r
      ensures r[n] == PlaceOf(n in us, n in StemSet(files))
    {
      if n in StemSet(files) {
        assert r[n] == ToProject(Lookup(d, n));
      }
    }
  }

  lemma ProjectPassSpec(d: map<string, Place>, t: Targets)
    requires forall n | n in d :: d[n] == PlaceOf(n in Stems(t.user), false)
    requires forall n | n in Stems(t.user) :: n in d
    ensures forall n :: n in ProjectPass(d, t) <==> n in d || n in ProjectStems(t)
    ensures forall n | n in ProjectPass(d, t) :: ProjectPass(d, t)[n] == PlaceOf(n in Stems(t.user), n in ProjectStems(t))
  {
    if t.project.Some? && t.project.value.Some? {
      ProjectFilesPass(Listing(t.project.value.value), d, Stems(t.user));
      ListingStems(t.project.value.value);
    }
  }

  /** Every agent of the collection, the user level or the project level is
      listed, and nothing else; its place says which levels have it,
      whichever loop saw it first. */
  lemma LocationsSpec(col: Collection, cats: seq<string>, t: Targets)
    ensures forall n :: n in Locations(col, cats, t) <==>
              n in CollectionStems(col, cats) || n in Stems(t.user) || n in ProjectStems(t)
    ensures forall n | n in Locations(col, cats, t) ::
              Locations(col, cats, t)[n] == PlaceOf(n in Stems(t.user), n in ProjectStems(t))
  {
    var a := CollectionPass(col, cats, map[]);
    CollectionPassSpec(col, cats, map[]);
    UserPassSpec(a, t);
    var b := UserPass(a, t);
    ProjectPassSpec(b, t);
  }

  /** The names of a list of agents, in list order. */
  function NamesOf(agents: seq<AgentInfo>): (ns: seq<string>)
    ensures |ns| == |agents|
    ensures forall i | 0 <= i < |agents| :: ns[i] == agents[i].name
  {
    seq(|agents|, i requires 0 <= i < |agents| => agents[i].name)
  }

  /** No two agents of the list share a name. */
  predicate UniqueNames(agents: seq<AgentInfo>) {
    forall i, j | 0 <= i < |agents| && 0 <= j < |agents| && i != j :: agents[i].name != agents[j].name
  }

  lemma SortedUnique(agents: seq<AgentInfo>)
    requires StrictlySorted(NamesOf(agents))
    ensures UniqueNames(agents)
  {
    forall i, j | 0 <= i < |agents| && 0 <= j < |agents| && i != j
      ensures agents[i].name != agents[j].name
    {
      if i < j {
        assert NamesOf(agents)[i] != NamesOf(agents)[j];
      } else {
        assert NamesOf(agents)[j] != NamesOf(agents)[i];
      }
    }
  }

  /** `sorted(agent_dict.values(), key=name)`: one entry per known agent, in
      name order, each with the place the levels give it. */
  function Agents(col: Collection, cats: seq<string>, t: Targets): (agents: seq<AgentInfo>)
    ensures StrictlySorted(NamesOf(agents))
    ensures forall n :: n in NamesOf(agents) <==>
              n in CollectionStems(col, cats) || n in Stems(t.user) || n in ProjectStems(t)
    ensures forall i | 0 <= i < |agents| ::
              agents[i].location == PlaceOf(agents[i].name in Stems(t.user), agents[i].name in ProjectStems(t))
    ensures |agents| == |Locations(col, cats, t).Keys|
  {
    LocationsSpec(col, cats, t);
    var loc := Locations(col, cats, t);
    var ns := SortedSet(loc.Keys);
    var agents := seq(|ns|, i requires 0 <= i < |ns| => AgentInfo(ns[i], loc[ns[i]]));
    assert NamesOf(agents) == ns;
    agents
  }

  /** The selection loop of `load_agents`: a name seen for the first time
      is unselected, every other entry keeps its value. */
  function Defaults(agents: seq<AgentInfo>, selected: map<string, bool>): (r: map<string, bool>)
    ensures forall n :: n in r <==> n in selected || n in NamesOf(agents)
    ensures forall n | n in selected :: r[n] == selected[n]
    ensures forall n | n in r && n !in selected :: !r[n]
  {
    map n | n in selected.Keys + set i | 0 <= i < |agents| :: agents[i].name ::
      if n in selected then selected[n] else false
  }

  /** The cursor brought back onto the list: kept when it is on an entry,
      moved to the last entry otherwise, 0 for an empty list. */
  function Clamp(index: int, size: nat): (r: int)
    ensures 0 <= r && (r < size || r == 0)
    ensures 0 <= index < size ==> r == index
  {
    if 0 <= index < size then index else if size == 0 || index < 0 then 0 else size - 1
  }

  /** `load_agents()` as written: the list and the selection are rebuilt
      and the cursor is left where it was. */
  function LoadAsWritten(m: Manager, t: Targets): Manager {
    var agents := Agents(m.col, m.cats, t);
    m.(agents := agents, selected := Defaults(agents, m.selected))
  }

  /** The corrected `load_agents()`: the cursor is kept on the list. */
  function Load(m: Manager, t: Targets): Manager {
    var agents := Agents(m.col, m.cats, t);
    m.(agents := agents, selected := Defaults(agents, m.selected), index := Clamp(m.index, |agents|))
  }

  /** What the screen relies on: the list is sorted by name, every agent
      has an entry in `selected`, and the cursor is on an entry (or 0 for
      an empty list). */
  ghost predicate Inv(m: Manager) {
    && StrictlySorted(NamesOf(m.agents))
    && (forall i | 0 <= i < |m.agents| :: m.agents[i].name in m.selected)
    && 0 <= m.index && (m.index < |m.agents| || m.index == 0)
  }

  /** Loading lists the agents of the directories, keeps every selection
      made before, leaves new ones unselected and keeps the cursor where it
      was whenever it is still on the list. */
  lemma LoadSpec(m: Manager, t: Targets)
    ensures Inv(Load(m, t))
    ensures Load(m, t).agents == Agents(m.col, m.cats, t)
    ensures forall n | n in m.selected :: Load(m, t).selected[n] == m.selected[n]
    ensures forall n | n in Load(m, t).selected && n !in m.selected :: !Load(m, t).selected[n]
    ensures 0 <= m.index < |Load(m, t).agents| ==> Load(m, t).index == m.index
  {
    var r := Load(m, t);
    assert forall i | 0 <= i < |r.agents| :: r.agents[i].name in NamesOf(r.agents) by {
      forall i | 0 <= i < |r.agents| ensures r.agents[i].name in NamesOf(r.agents) {
        assert NamesOf(r.agents)[i] == r.agents[i].name;
      }
    }
  }

  /** The list is the one the collection and the two levels give, as every
      load leaves it. */
  predicate UpToDate(m: Manager, t: Targets) {
    m.agents == Agents(m.col, m.cats, t)
  }

  /** The load as written lists the agents of the directories, keeps every
      selection made before, leaves new ones unselected and leaves the
      cursor alone: the result keeps the invariant exactly when the cursor
      is still on the list (or at 0), and then it is the corrected load. */
  lemma LoadAsWrittenSpec(m: Manager, t: Targets)
    ensures var r := LoadAsWritten(m, t);
      && UpToDate(r, t) && r.index == m.index && r.mode == m.mode
      && StrictlySorted(NamesOf(r.agents))
      && (forall i | 0 <= i < |r.agents| :: r.agents[i].name in r.selected)
      && (forall n | n in m.selected :: r.selected[n] == m.selected[n])
      && (forall n | n in r.selected && n !in m.selected :: !r.selected[n])
      && (Inv(r) <==> 0 <= m.index && (m.index < |r.agents| || m.index == 0))
      && (Inv(r) ==> r == Load(m, t))
  {
    LoadSpec(m, t);
  }

  /** Neither level has lost an agent file. */
  predicate Grows(t: Targets, t2: Targets) {
    Stems(t.user) <= Stems(t2.user) && ProjectStems(t) <= ProjectStems(t2)
  }

  /** A directory that keeps every file keeps every stem. */
  lemma StemsGrow(d1: Dir, d2: Dir)
    requires forall f | f in d1 :: f in d2
    ensures Stems(Some(d1)) <= Stems(Some(d2))
  {
    forall n | n in Stems(Some(d1))
      ensures n in Stems(Some(d2))
    {
      var f :| f in d1 && Globbed(f) && MdStem(f) == n;
      assert f in d2;
    }
  }

  /** When neither level loses an agent file, the list gets no shorter. */
  lemma AgentsGrow(col: Collection, cats: seq<string>, t: Targets, t2: Targets)
    requires Grows(t, t2)
    ensures |Agents(col, cats, t)| <= |Agents(col, cats, t2)|
  {
    LocationsSpec(col, cats, t);
    LocationsSpec(col, cats, t2);
    var a := Locations(col, cats, t).Keys;
    var b := Locations(col, cats, t2).Keys;
    assert a <= b;
    assert b == a + (b - a) && a * (b - a) == {};
  }

  /** Reloading an up-to-date manager after the levels only gained files
      keeps the cursor on the list, so the load as written keeps the
      invariant and is the corrected load. */
  lemma GrowKeepsInv(m: Manager, t: Targets, t2: Targets)
    requires Inv(m) && UpToDate(m, t) && Grows(t, t2)
    ensures Inv(LoadAsWritten(m, t2)) && UpToDate(LoadAsWritten(m, t2), t2)
    ensures LoadAsWritten(m, t2) == Load(m, t2)
  {
    AgentsGrow(m.col, m.cats, t, t2);
    LoadAsWrittenSpec(m, t2);
  }

  /** The manager at start-up: `__init__` followed by `load_agents()`. */
  function Start(col: Collection, t: Targets): Manager {
    LoadAsWritten(Manager(Categories, col, Overview, 0, [], map[]), t)
  }

  lemma StartSpec(col: Collection, t: Targets)
    ensures Inv(Start(col, t)) && UpToDate(Start(col, t), t)
    ensures Start(col, t).mode == Overview && Start(col, t).index == 0
    ensures forall n | n in Start(col, t).selected :: !Start(col, t).selected[n]
  {
    LoadAsWrittenSpec(Manager(Categories, col, Overview, 0, [], map[]), t);
  }

  // ---------------------------------------------------------------------
  // Edit modes
  // ---------------------------------------------------------------------

  /** An agent in place `p` is installed at the level of view `v`. */
  predicate AtLevel(p: Place, v: View) {
    if v == General then p == InUser || p == InBoth else p == InProject || p == InBoth
  }

  /** The loop of `handle_edit_mode`: each listed agent is selected exactly
      when it is installed at the level. */
  function EditFold(agents: seq<AgentInfo>, v: View, sel: map<string, bool>): (r: map<string, bool>)
    ensures forall n :: n in r <==> n in sel || n in NamesOf(agents)
    ensures forall n | n in sel && n !in NamesOf(agents) :: r[n] == sel[n]
    decreases |agents|
  {
    if |agents| == 0 then sel
    else
      assert NamesOf(agents) == [agents[0].name] + NamesOf(agents[1..]);
      EditFold(agents[1..], v, sel[agents[0].name := AtLevel(agents[0].location, v)])
  }

  lemma {:induction false} EditFoldAgent(agents: seq<AgentInfo>, v: View, sel: map<string, bool>, i: nat)
    requires UniqueNames(agents) && i < |agents|
    ensures EditFold(agents, v, sel)[agents[i].name] == AtLevel(agents[i].location, v)
    decreases |agents|
  {
    var rest := agents[1..];
    var sel1 := sel[agents[0].name := AtLevel(agents[0].location, v)];
    assert UniqueNames(rest) by {
      forall a, b | 0 <= a < |rest| && 0 <= b < |rest| && a != b
        ensures rest[a].name != rest[b].name
      {
        assert rest[a] == agents[a + 1] && rest[b] == agents[b + 1];
      }
    }
    if i == 0 {
      assert agents[0].name !in NamesOf(rest) by {
        forall j | 0 <= j < |rest| ensures NamesOf(rest)[j] != agents[0].name {
          assert rest[j] == agents[j + 1];
        }
      }
    } else {
      assert rest[i - 1] == agents[i];
      EditFoldAgent(rest, v, sel1, i - 1);
    }
  }

  /** `handle_edit_mode(target)`. */
  function EditMode(m: Manager, v: View): Manager {
    m.(selected := EditFold(m.agents, v, m.selected))
  }

  /** Entering an edit mode after a load pre-selects exactly the agents
      installed at that level, and keeps every other selection. */
  lemma EditModeSelectsInstalled(m: Manager, v: View, t: Targets)
    requires m.agents == Agents(m.col, m.cats, t)
    ensures forall i | 0 <= i < |m.agents| ::
              EditMode(m, v).selected[m.agents[i].name] <==>
                m.agents[i].name in (if v == General then Stems(t.user) else ProjectStems(t))
    ensures forall n | n in m.selected && n !in NamesOf(m.agents) :: EditMode(m, v).selected[n] == m.selected[n]
  {
    SortedUnique(m.agents);
    forall i | 0 <= i < |m.agents|
      ensures EditMode(m, v).selected[m.agents[i].name] <==>
                m.agents[i].name in (if v == General then Stems(t.user) else ProjectStems(t))
    {
      var a := m.agents[i];
      EditFoldAgent(m.agents, v, m.selected, i);
      assert a.location == PlaceOf(a.name in Stems(t.user), a.name in ProjectStems(t));
      AtLevelPlaceOf(a.name in Stems(t.user), a.name in ProjectStems(t), v);
    }
  }

  /** An agent is at the level of a view exactly when that level has it. */
  lemma AtLevelPlaceOf(inUser: bool, inProject: bool, v: View)
    ensures AtLevel(PlaceOf(inUser, inProject), v) <==> if v == General then inUser else inProject
  {
  }

  lemma EditModeKeepsInv(m: Manager, v: View)
    requires Inv(m)
    ensures Inv(EditMode(m, v))
  {
  }

  // ---------------------------------------------------------------------
  // Saving and installing: a loop over the agents, each writing its own file
  // ---------------------------------------------------------------------

  /** The directory with file `f` set to `x`: written when `x` has content,
      removed when it is `None`. */
  function Put(d: Dir, f: string, x: Option<Content>): (r: Dir)
    ensures Get(r, f) == x
    ensures forall g | g != f :: Get(r, g) == Get(d, g)
  {
    match x
    case None => d - {f}
    case Some(c) => d[f := c]
  }

  /** `for agent in self.agents:` where the body only reads and writes the
      agent's own file `name.md`; `own` gives that file's new content from
      the agent and the file's content before. */
  function ForEach(agents: seq<AgentInfo>, d: Dir, own: (AgentInfo, Option<Content>) -> Option<Content>): Dir
    decreases |agents|
  {
    if |agents| == 0 then d
    else
      var f := FileOf(agents[0].name);
      ForEach(agents[1..], Put(d, f, own(agents[0], Get(d, f))), own)
  }

  /** A file that is no agent's own is left as it was. */
  lemma {:induction false} ForEachOther(agents: seq<AgentInfo>, d: Dir, own: (AgentInfo, Option<Content>) -> Option<Content>, f: string)
    requires forall i | 0 <= i < |agents| :: FileOf(agents[i].name) != f
    ensures Get(ForEach(agents, d, own), f) == Get(d, f)
    decreases |agents|
  {
    if |agents| > 0 {
      var g := FileOf(agents[0].name);
      assert forall i | 0 <= i < |agents[1..]| :: agents[1..][i] == agents[i + 1];
      ForEachOther(agents[1..], Put(d, g, own(agents[0], Get(d, g))), own, f);
    }
  }

  /** When names are unique, each agent's file ends up as its own step
      makes it from the content it had before the loop. */
  lemma {:induction false} ForEachAgent(agents: seq<AgentInfo>, d: Dir, own: (AgentInfo, Option<Content>) -> Option<Content>, i: nat)
    requires UniqueNames(agents) && i < |agents|
    ensures Get(ForEach(agents, d, own), FileOf(agents[i].name)) ==
              own(agents[i], Get(d, FileOf(agents[i].name)))
    decreases |agents|
  {
    var rest := agents[1..];
    var g := FileOf(agents[0].name);
    var d1 := Put(d, g, own(agents[0], Get(d, g)));
    assert forall j | 0 <= j < |rest| :: rest[j] == agents[j + 1];
    if i == 0 {
      forall j | 0 <= j < |rest| ensures FileOf(rest[j].name) != g {
        if FileOf(rest[j].name) == g {
          FileOfInjective(rest[j].name, agents[0].name);
        }
      }
      ForEachOther(rest, d1, own, g);
    } else {
      assert UniqueNames(rest);
      var f := FileOf(agents[i].name);
      if f == g {
        FileOfInjective(agents[i].name, agents[0].name);
      }
      ForEachAgent(rest, d1, own, i - 1);
    }
  }

  /** The body of the `save_changes` loop for one agent: a selected agent
      whose file is missing gets the collection's copy when there is one,
      a selected agent whose file exists keeps it, an unselected agent's
      file is deleted. */
  function SaveFile(col: Collection, cats: seq<string>, sel: map<string, bool>): (AgentInfo, Option<Content>) -> Option<Content> {
    (a: AgentInfo, before: Option<Content>) =>
      if a.name in sel && sel[a.name] then
        (if before.Some? then before else SourceIn(col, cats, a.name))
      else None
  }

  /** The directory of level `v` after `mkdir` and the `save_changes` loop. */
  function SavedDir(m: Manager, t: Targets, v: View): Dir
    requires TargetOf(t, v).Some?
  {
    ForEach(m.agents, Ensure(TargetOf(t, v).value), SaveFile(m.col, m.cats, m.selected))
  }

  /** `save_changes(target)` as written: the loop, then a load that keeps
      the cursor. */
  function SaveChangesAsWritten(m: Manager, t: Targets, v: View): (Manager, Targets)
    requires TargetOf(t, v).Some?
  {
    var t2 := WithTarget(t, v, SavedDir(m, t, v));
    (LoadAsWritten(m, t2), t2)
  }

  /** `save_changes(target)` followed by the corrected load. */
  function SaveChanges(m: Manager, t: Targets, v: View): (Manager, Targets)
    requires TargetOf(t, v).Some?
  {
    var t2 := WithTarget(t, v, SavedDir(m, t, v));
    (Load(m, t2), t2)
  }

  /** After a save the level's directory holds exactly the selected agents
      of the list that were installed or that the collection has: a
      selected agent keeps its file or gets the collection's copy, an
      unselected one loses it, and files of unlisted names are untouched.
      The other level is not touched. */
  lemma SaveChangesSpec(m: Manager, t: Targets, v: View)
    requires Inv(m) && TargetOf(t, v).Some?
    ensures forall i | 0 <= i < |m.agents| ::
              var n := m.agents[i].name;
              var before := Get(Ensure(TargetOf(t, v).value), FileOf(n));
              Get(SavedDir(m, t, v), FileOf(n)) ==
                if !m.selected[n] then None
                else if before.Some? then before
                else SourceIn(m.col, m.cats, n)
    ensures forall f | forall i | 0 <= i < |m.agents| :: FileOf(m.agents[i].name) != f ::
              Get(SavedDir(m, t, v), f) == Get(Ensure(TargetOf(t, v).value), f)
    ensures forall w: View | w != v :: TargetOf(SaveChangesAsWritten(m, t, v).1, w) == TargetOf(t, w)
    ensures Inv(SaveChanges(m, t, v).0)
  {
    SortedUnique(m.agents);
    var own := SaveFile(m.col, m.cats, m.selected);
    var d := Ensure(TargetOf(t, v).value);
    forall i | 0 <= i < |m.agents|
      ensures Get(ForEach(m.agents, d, own), FileOf(m.agents[i].name)) == own(m.agents[i], Get(d, FileOf(m.agents[i].name)))
    {
      ForEachAgent(m.agents, d, own, i);
    }
    forall f | forall i | 0 <= i < |m.agents| :: FileOf(m.agents[i].name) != f
      ensures Get(ForEach(m.agents, d, own), f) == Get(d, f)
    {
      ForEachOther(m.agents, d, own, f);
    }
    LoadSpec(m, WithTarget(t, v, SavedDir(m, t, v)));
  }

  /** The body of the `install_selected` loop for one agent: a selected
      agent that is only available gets the collection's copy, overwriting;
      anything else is left alone. */
  function InstallFile(col: Collection, cats: seq<string>, sel: map<string, bool>): (AgentInfo, Option<Content>) -> Option<Content> {
    (a: AgentInfo, before: Option<Content>) =>
      if a.name in sel && sel[a.name] && a.location == Available then
        match SourceIn(col, cats, a.name)
        case Some(c) => Some(c)
        case None => before
      else before
  }

  /** `install_selected(target)`, then the load. */
  function InstallSelected(m: Manager, t: Targets, v: View): (Manager, Targets)
    requires TargetOf(t, v).Some?
  {
    var d := ForEach(m.agents, Ensure(TargetOf(t, v).value), InstallFile(m.col, m.cats, m.selected));
    var t2 := WithTarget(t, v, d);
    (LoadAsWritten(m, t2), t2)
  }

  /** Installing only adds: every file of the directory stays, a selected
      available agent gets the collection's copy, and every other file
      keeps its content. */
  lemma InstallSelectedSpec(m: Manager, t: Targets, v: View)
    requires Inv(m) && TargetOf(t, v).Some?
    ensures var d := Ensure(TargetOf(t, v).value);
            var r := TargetOf(InstallSelected(m, t, v).1, v);
            r.Some? && r.value.Some? &&
            (forall f | f in d :: f in r.value.value) &&
            (forall i | 0 <= i < |m.agents| ::
               var n := m.agents[i].name;
               Get(r.value.value, FileOf(n)) ==
                 if m.selected[n] && m.agents[i].location == Available && SourceIn(m.col, m.cats, n).Some?
                 then SourceIn(m.col, m.cats, n) else Get(d, FileOf(n))) &&
            (forall f | forall i | 0 <= i < |m.agents| :: FileOf(m.agents[i].name) != f :: Get(r.value.value, f) == Get(d, f))
    ensures forall w: View | w != v :: TargetOf(InstallSelected(m, t, v).1, w) == TargetOf(t, w)
    ensures Grows(t, InstallSelected(m, t, v).1)
  {
    SortedUnique(m.agents);
    var own := InstallFile(m.col, m.cats, m.selected);
    var d := Ensure(TargetOf(t, v).value);
    var out := ForEach(m.agents, d, own);
    forall i | 0 <= i < |m.agents|
      ensures Get(out, FileOf(m.agents[i].name)) == own(m.agents[i], Get(d, FileOf(m.agents[i].name)))
    {
      ForEachAgent(m.agents, d, own, i);
    }
    forall f | forall i | 0 <= i < |m.agents| :: FileOf(m.agents[i].name) != f
      ensures Get(out, f) == Get(d, f)
    {
      ForEachOther(m.agents, d, own, f);
    }
    forall f | f in d ensures f in out {
      if exists i | 0 <= i < |m.agents| :: FileOf(m.agents[i].name) == f {
        var i :| 0 <= i < |m.agents| && FileOf(m.agents[i].name) == f;
        assert Get(out, f) == own(m.agents[i], Get(d, f));
      } else {
        assert Get(out, f) == Get(d, f);
      }
    }
    StemsGrow(d, out);
    EnsureSpec(TargetOf(t, v).value);
  }

  // ---------------------------------------------------------------------
  // Sync
  // ---------------------------------------------------------------------

  /** `for file in src.glob("*.md"): shutil.copy2(file, dst / file.name)`. */
  function CopyAll(files: seq<string>, src: Dir, dst: Dir): Dir
    requires forall f | f in files :: f in src
    decreases |files|
  {
    if |files| == 0 then dst
    else CopyAll(files[1..], src, dst[files[0] := src[files[0]]])
  }

  lemma {:induction false} CopyAllSpec(files: seq<string>, src: Dir, dst: Dir, f: string)
    requires forall g | g in files :: g in src
    ensures Get(CopyAll(files, src, dst), f) == if f in files then Some(src[f]) else Get(dst, f)
    decreases |files|
  {
    if |files| > 0 {
      assert forall g | g in files[1..] :: g in files;
      CopyAllSpec(files[1..], src, dst[files[0] := src[files[0]]], f);
      assert f in files <==> f == files[0] || f in files[1..] by {
        assert files == [files[0]] + files[1..];
      }
    }
  }

  /** Copying every `*.md` file of `src` into `dst` overlays them on `dst`. */
  function CopyGlob(src: Dir, dst: Dir): (r: Dir)
    ensures r == dst + MdFiles(src)
  {
    var files := Listing(src);
    var r := CopyAll(files, src, dst);
    forall f ensures Get(r, f) == Get(dst + MdFiles(src), f) {
      CopyAllSpec(files, src, dst, f);
    }
    DirExt(r, dst + MdFiles(src));
    r
  }

  /** `sync_agents('project_to_user')`: runs when the project's agents
      directory exists. */
  function ProjectToUser(t: Targets): Targets {
    if t.project.Some? && t.project.value.Some? then t.(user := Some(CopyGlob(t.project.value.value, Ensure(t.user))))
    else t
  }

  /** `sync_agents('user_to_project')`: runs when the user directory exists
      and there is a project; the project directory is created. */
  function UserToProject(t: Targets): Targets {
    if t.user.Some? && t.project.Some? then t.(project := Some(Some(CopyGlob(t.user.value, Ensure(t.project.value)))))
    else t
  }

  /** `sync_agents('bidirectional')`: runs when both directories exist;
      user to project first, then project to user. */
  function Bidirectional(t: Targets): (r: Targets)
    ensures !(t.user.Some? && t.project.Some? && t.project.value.Some?) ==> r == t
  {
    if t.user.Some? && t.project.Some? && t.project.value.Some? then ProjectToUser(UserToProject(t)) else t
  }

  /** After copying, an agent file holds the source's content when the
      source has it and keeps its own otherwise; other files are kept. */
  lemma CopyGlobGet(src: Dir, dst: Dir, f: string)
    ensures Get(CopyGlob(src, dst), f) == if Globbed(f) && f in src then Some(src[f]) else Get(dst, f)
  {
  }

  /** Copying user to project and then project to user leaves both with
      the same agent files, one for every agent file either had: the
      user's content where the user had the file, the project's
      otherwise. Other files are kept on both sides. */
  lemma BothWays(u: Dir, p: Dir)
    ensures var p1 := CopyGlob(u, p);
            var u1 := CopyGlob(p1, u);
            (forall f | Globbed(f) :: Get(u1, f) == Get(p1, f) == if f in u then Some(u[f]) else Get(p, f)) &&
            (forall f | !Globbed(f) :: Get(u1, f) == Get(u, f) && Get(p1, f) == Get(p, f))
  {
    var p1 := CopyGlob(u, p);
    var u1 := CopyGlob(p1, u);
    forall f
      ensures Globbed(f) ==> Get(u1, f) == Get(p1, f) == if f in u then Some(u[f]) else Get(p, f)
      ensures !Globbed(f) ==> Get(u1, f) == Get(u, f) && Get(p1, f) == Get(p, f)
    {
      CopyGlobGet(u, p, f);
      CopyGlobGet(p1, u, f);
    }
  }

  /** `sync_agents('bidirectional')` on directories that both exist. */
  lemma BidirectionalSpec(t: Targets)
    requires t.user.Some? && t.project.Some? && t.project.value.Some?
    ensures var r := Bidirectional(t);
            var u := t.user.value;
            var p := t.project.value.value;
            r.user.Some? && r.project.Some? && r.project.value.Some? &&
            (forall f | Globbed(f) ::
               Get(r.user.value, f) == Get(r.project.value.value, f) == if f in u then Some(u[f]) else Get(p, f)) &&
            (forall f | !Globbed(f) :: Get(r.user.value, f) == Get(u, f) && Get(r.project.value.value, f) == Get(p, f))
  {
    BothWays(t.user.value, t.project.value.value);
  }

  /** Syncing both ways a second time changes nothing. */
  lemma BidirectionalIdempotent(t: Targets)
    ensures Bidirectional(Bidirectional(t)) == Bidirectional(t)
  {
    if t.user.Some? && t.project.Some? && t.project.value.Some? {
      var r := Bidirectional(t);
      var u := r.user.value;
      var p := r.project.value.value;
      BidirectionalSpec(t);
      forall f ensures Get(CopyGlob(u, p), f) == Get(p, f) {
        CopyGlobGet(u, p, f);
      }
      DirExt(CopyGlob(u, p), p);
      forall f ensures Get(CopyGlob(p, u), f) == Get(u, f) {
        CopyGlobGet(p, u, f);
      }
      DirExt(CopyGlob(p, u), u);
    }
  }

  /** A one-way sync makes the target hold every agent file of the source,
      with the source's content, and keeps the target's other files; the
      source is not touched. */
  lemma OneWaySpec(t: Targets)
    ensures !(t.project.Some? && t.project.value.Some?) ==> ProjectToUser(t) == t
    ensures !(t.user.Some? && t.project.Some?) ==> UserToProject(t) == t
    ensures var r := ProjectToUser(t);
            r.project == t.project &&
            (t.project.Some? && t.project.value.Some? ==>
               r.user.Some? &&
               (forall f | f in MdFiles(t.project.value.value) :: r.user.value[f] == t.project.value.value[f]) &&
               (forall f | f !in MdFiles(t.project.value.value) :: Get(r.user.value, f) == Get(Ensure(t.user), f)))
    ensures var r := UserToProject(t);
            r.user == t.user &&
            (t.user.Some? && t.project.Some? ==>
               r.project.Some? && r.project.value.Some? &&
               (forall f | f in MdFiles(t.user.value) :: r.project.value.value[f] == t.user.value[f]) &&
               (forall f | f !in MdFiles(t.user.value) :: Get(r.project.value.value, f) == Get(Ensure(t.project.value), f)))
  {
  }

  /** Syncing only copies files in, so neither level loses an agent. */
  lemma SyncGrows(t: Targets)
    ensures Grows(t, ProjectToUser(t)) && Grows(t, UserToProject(t)) && Grows(t, Bidirectional(t))
  {
    ProjectToUserGrows(t);
    UserToProjectGrows(t);
    ProjectToUserGrows(UserToProject(t));
  }

  lemma ProjectToUserGrows(t: Targets)
    ensures Grows(t, ProjectToUser(t))
  {
    if t.project.Some? && t.project.value.Some? {
      StemsGrow(Ensure(t.user), CopyGlob(t.project.value.value, Ensure(t.user)));
      EnsureSpec(t.user);
    }
  }

  lemma UserToProjectGrows(t: Targets)
    ensures Grows(t, UserToProject(t))
  {
    if t.user.Some? && t.project.Some? {
      StemsGrow(Ensure(t.project.value), CopyGlob(t.user.value, Ensure(t.project.value)));
      EnsureSpec(t.project.value);
    }
  }

  // ---------------------------------------------------------------------
  // Keys of the main loop
  // ---------------------------------------------------------------------

  predicate Selecting(m: Manager) {
    m.mode == EditUser || m.mode == EditProject || m.mode == Install
  }

  /** Every entry of `selected` set to `b` ('a', 'n', and entering INSTALL). */
  function SetAll(m: Manager, b: bool): (r: Manager)
    ensures r.selected.Keys == m.selected.Keys
    ensures forall n | n in r.selected :: r.selected[n] == b
    ensures r.agents == m.agents && r.index == m.index
  {
    m.(selected := map n | n in m.selected :: b)
  }

  /** Escape: back to the overview with nothing selected, then a load. */
  function Escape(m: Manager, t: Targets): Manager {
    if m.mode != Overview then LoadAsWritten(SetAll(m, false).(mode := Overview), t) else m
  }

  /** Up arrow. */
  function Up(m: Manager): (r: Manager)
    ensures m.index > 0 ==> r == m.(index := m.index - 1)
    ensures m.index <= 0 ==> r == m
  {
    if m.index > 0 then m.(index := m.index - 1) else m
  }

  /** Down arrow. */
  function Down(m: Manager): (r: Manager)
    ensures m.index < |m.agents| - 1 ==> r == m.(index := m.index + 1)
    ensures m.index >= |m.agents| - 1 ==> r == m
  {
    if m.index < |m.agents| - 1 then m.(index := m.index + 1) else m
  }

  /** The arrows move only the cursor and keep the invariant; on a
      non-empty list the cursor stays on it, and up then down (or down then
      up) away from the ends comes back to where it started. */
  lemma CursorKeys(m: Manager)
    requires Inv(m)
    ensures Inv(Up(m)) && Inv(Down(m))
    ensures Up(m) == m.(index := Up(m).index) && Down(m) == m.(index := Down(m).index)
    ensures |m.agents| > 0 ==> 0 <= Up(m).index < |m.agents| && 0 <= Down(m).index < |m.agents|
    ensures 0 < m.index ==> Down(Up(m)) == m
    ensures m.index < |m.agents| - 1 ==> Up(Down(m)) == m
  { }

  /** Space: the agent under the cursor is flipped in a selecting mode.
      `None` is the IndexError the program raises when the cursor is off
      the list, which ends the program. */
  function Space(m: Manager): Option<Manager> {
    if !Selecting(m) then Some(m)
    else if 0 <= m.index < |m.agents| then
      var n := m.agents[m.index].name;
      Some(m.(selected := m.selected[n := !(n in m.selected && m.selected[n])]))
    else None
  }

  /** With the invariant, Space fails only on an empty list, flips exactly
      the agent under the cursor, and keeps the invariant. */
  lemma SpaceSpec(m: Manager)
    requires Inv(m)
    ensures Space(m).None? <==> Selecting(m) && |m.agents| == 0
    ensures Space(m).Some? ==> Inv(Space(m).value)
    ensures Space(m).Some? && Selecting(m) ==>
              var n := m.agents[m.index].name;
              Space(m).value.selected == m.selected[n := !m.selected[n]]
  {
  }

  /** Flipping the same agent twice gives the selection back. */
  lemma SpaceTwice(m: Manager)
    requires Inv(m) && Selecting(m) && |m.agents| > 0
    ensures Space(m).Some? && Space(Space(m).value) == Some(m)
  {
    var n := m.agents[m.index].name;
    var once := Space(m).value;
    assert once.selected == m.selected[n := !m.selected[n]];
    assert Space(once) == Some(once.(selected := once.selected[n := !once.selected[n]]));
    assert once.selected[n := !once.selected[n]] == m.selected;
  }

  /** Key '1': edit the user level, install the selection there, or sync
      project to user, by mode; each action returns to the overview. */
  function KeyOne(m: Manager, t: Targets): (Manager, Targets) {
    match m.mode
    case Overview => (EditMode(m.(mode := EditUser), General), t)
    case Install =>
      var (r, t2) := InstallSelected(m, t, General);
      (r.(mode := Overview), t2)
    case Sync =>
      var t2 := ProjectToUser(t);
      (LoadAsWritten(m, t2).(mode := Overview), t2)
    case _ => (m, t)
  }

  /** Key '2': the project counterparts of '1', the first two only with a
      project root. */
  function KeyTwo(m: Manager, t: Targets): (Manager, Targets) {
    if m.mode == Overview && t.project.Some? then (EditMode(m.(mode := EditProject), Project), t)
    else if m.mode == Install && t.project.Some? then
      var (r, t2) := InstallSelected(m, t, Project);
      (r.(mode := Overview), t2)
    else if m.mode == Sync then
      var t2 := UserToProject(t);
      (LoadAsWritten(m, t2).(mode := Overview), t2)
    else (m, t)
  }

  /** Key '3': the install mode with nothing selected, or a two-way sync. */
  function KeyThree(m: Manager, t: Targets): (Manager, Targets) {
    if m.mode == Overview then (SetAll(m, false).(mode := Install), t)
    else if m.mode == Sync then
      var t2 := Bidirectional(t);
      (LoadAsWritten(m, t2).(mode := Overview), t2)
    else (m, t)
  }

  /** Key '4': the sync mode. */
  function KeyFour(m: Manager): Manager {
    if m.mode == Overview then m.(mode := Sync) else m
  }

  /** Keys 'a' and 'n'. */
  function SelectAll(m: Manager, b: bool): Manager {
    if Selecting(m) then SetAll(m, b) else m
  }

  /** Key 's': save the level being edited and return to the overview. */
  function SaveKey(m: Manager, t: Targets): (Manager, Targets)
    requires m.mode == EditProject ==> t.project.Some?
  {
    if m.mode == EditUser then
      var (r, t2) := SaveChangesAsWritten(m, t, General);
      (r.(mode := Overview), t2)
    else if m.mode == EditProject then
      var (r, t2) := SaveChangesAsWritten(m, t, Project);
      (r.(mode := Overview), t2)
    else (m, t)
  }

  /** Key 'q' ends the program from the overview only. */
  predicate Quits(m: Manager) {
    m.mode == Overview
  }

  /** An edit-project mode is only entered with a project root. */
  predicate ModeFits(m: Manager, t: Targets) {
    m.mode == EditProject ==> t.project.Some?
  }

  /** The keys that only move the cursor or change the mode or the
      selection keep the invariant and leave the list as loaded. */
  lemma MovesKeepInv(m: Manager, t: Targets)
    requires Inv(m)
    ensures Inv(Up(m)) && Inv(Down(m)) && Inv(KeyFour(m))
    ensures Inv(SelectAll(m, true)) && Inv(SelectAll(m, false))
    ensures UpToDate(m, t) ==>
              && UpToDate(Up(m), t) && UpToDate(Down(m), t) && UpToDate(KeyFour(m), t)
              && UpToDate(SelectAll(m, true), t) && UpToDate(SelectAll(m, false), t)
              && (Space(m).Some? ==> UpToDate(Space(m).value, t))
  {
    if Space(m).Some? {
      SameList(m, Space(m).value, t);
    }
    SameList(m, Up(m), t);
    SameList(m, Down(m), t);
    SameList(m, KeyFour(m), t);
    SameList(m, SelectAll(m, true), t);
    SameList(m, SelectAll(m, false), t);
  }

  /** A manager with the same list, collection and categories is as up to
      date. */
  lemma SameList(m: Manager, m2: Manager, t: Targets)
    requires m2.agents == m.agents && m2.col == m.col && m2.cats == m.cats
    ensures UpToDate(m, t) ==> UpToDate(m2, t)
  {
  }

  /** Escape goes back to the overview with nothing selected and reloads
      the list; from a valid, up-to-date manager the cursor stays on it. */
  lemma EscapeSpec(m: Manager, t: Targets)
    ensures m.mode != Overview ==> Escape(m, t).mode == Overview && UpToDate(Escape(m, t), t)
    ensures m.mode != Overview ==> forall n | n in Escape(m, t).selected :: !Escape(m, t).selected[n]
    ensures m.mode != Overview && Inv(m) && UpToDate(m, t) ==> Inv(Escape(m, t))
    ensures m.mode == Overview ==> Escape(m, t) == m
  {
    var m1 := SetAll(m, false).(mode := Overview);
    LoadAsWrittenSpec(m1, t);
    if Inv(m) && UpToDate(m, t) {
      GrowKeepsInv(m1, t, t);
    }
  }

  /** What the keys that act keep: a valid manager whose list is the one
      the directories give, in a mode its targets allow. */
  ghost predicate Sound(m: Manager, t: Targets) {
    Inv(m) && UpToDate(m, t) && ModeFits(m, t)
  }

  /** Key '1' keeps the manager sound. */
  lemma KeyOneKeepsInv(m: Manager, t: Targets)
    requires Sound(m, t)
    ensures Sound(KeyOne(m, t).0, KeyOne(m, t).1)
  {
    if m.mode == Install {
      KeyOneInstall(m, t);
    } else if m.mode == Sync {
      KeyOneSync(m, t);
    }
  }

  lemma KeyOneInstall(m: Manager, t: Targets)
    requires Sound(m, t) && m.mode == Install
    ensures Sound(KeyOne(m, t).0, KeyOne(m, t).1)
  {
    InstallSelectedSpec(m, t, General);
    GrowToOverview(m, t, InstallSelected(m, t, General).1, KeyOne(m, t));
  }

  /** Reloading a valid, up-to-date manager after the levels only gained
      files and going back to the overview leaves it sound. */
  lemma GrowToOverview(m: Manager, t: Targets, t2: Targets, k: (Manager, Targets))
    requires Inv(m) && UpToDate(m, t) && Grows(t, t2)
    requires k == (LoadAsWritten(m, t2).(mode := Overview), t2)
    ensures Sound(k.0, k.1)
  {
    GrowKeepsInv(m, t, t2);
    BackToOverview(LoadAsWritten(m, t2), t2, k);
  }

  /** A loaded manager put back to the overview stays sound. */
  lemma BackToOverview(r: Manager, t2: Targets, k: (Manager, Targets))
    requires Inv(r) && UpToDate(r, t2) && k == (r.(mode := Overview), t2)
    ensures Sound(k.0, k.1)
  {
  }

  lemma KeyOneSync(m: Manager, t: Targets)
    requires Sound(m, t) && m.mode == Sync
    ensures Sound(KeyOne(m, t).0, KeyOne(m, t).1)
  {
    ProjectToUserGrows(t);
    GrowToOverview(m, t, ProjectToUser(t), KeyOne(m, t));
  }

  /** Key '2' keeps the manager sound. */
  lemma KeyTwoKeepsInv(m: Manager, t: Targets)
    requires Sound(m, t)
    ensures Sound(KeyTwo(m, t).0, KeyTwo(m, t).1)
  {
    if m.mode == Install && t.project.Some? {
      KeyTwoInstall(m, t);
    } else if m.mode == Sync {
      UserToProjectGrows(t);
      GrowToOverview(m, t, UserToProject(t), KeyTwo(m, t));
    }
  }

  lemma KeyTwoInstall(m: Manager, t: Targets)
    requires Sound(m, t) && m.mode == Install && t.project.Some?
    ensures Sound(KeyTwo(m, t).0, KeyTwo(m, t).1)
  {
    InstallSelectedSpec(m, t, Project);
    GrowToOverview(m, t, InstallSelected(m, t, Project).1, KeyTwo(m, t));
  }

  /** Key '3' keeps the manager sound. */
  lemma KeyThreeKeepsInv(m: Manager, t: Targets)
    requires Sound(m, t)
    ensures Sound(KeyThree(m, t).0, KeyThree(m, t).1)
  {
    if m.mode == Sync {
      SyncGrows(t);
      GrowToOverview(m, t, Bidirectional(t), KeyThree(m, t));
    }
  }

  /** Key 's' in an edit mode saves, reloads the list and returns to the
      overview, with the list sorted and fully selectable but the cursor
      left where it was: the manager stays valid exactly when the cursor is
      still on the shortened list. Any other mode ignores the key. */
  lemma SaveKeySpec(m: Manager, t: Targets)
    requires Sound(m, t)
    ensures var (r, t2) := SaveKey(m, t);
      && (m.mode == EditUser || m.mode == EditProject ==>
            && r.mode == Overview && r.index == m.index && UpToDate(r, t2)
            && StrictlySorted(NamesOf(r.agents))
            && (forall i | 0 <= i < |r.agents| :: r.agents[i].name in r.selected)
            && (Inv(r) <==> m.index < |r.agents| || m.index == 0))
      && (m.mode != EditUser && m.mode != EditProject ==> (r, t2) == (m, t))
  {
    if m.mode == EditUser {
      var (r, t2) := SaveChangesAsWritten(m, t, General);
      LoadAsWrittenSpec(m, t2);
    } else if m.mode == EditProject {
      var (r, t2) := SaveChangesAsWritten(m, t, Project);
      LoadAsWrittenSpec(m, t2);
    }
  }

  // ---------------------------------------------------------------------
  // The cursor after a save that shortens the list
  // ---------------------------------------------------------------------

  /** A directory holding one agent file has that agent's stem only. */
  lemma StemsOfOne(f: string, c: Content)
    requires HasMdSuffix(f)
    ensures Stems(Some(map[f := c])) == {MdStem(f)}
  {
  }

  /** The collection of the example: one agent `a` in `platform`. */
  lemma ExampleCollection()
    ensures CollectionStems(map["platform" := map["a.md" := "A"]], Categories) == {"a"}
  {
    var col := map["platform" := map["a.md" := "A"]];
    StemsOfOne("a.md", "A");
    assert MdStem("a.md") == "a";
    assert CollectionStems(col, Categories[3..]) == {};
    assert CollectionStems(col, Categories[2..]) == {};
    assert CollectionStems(col, Categories[1..]) == {};
  }

  /** The listing when the collection has only `a` and the user level
      only `zz`: `a` is available and `zz` is a user agent. */
  lemma ExampleAgents(col: Collection, cats: seq<string>, t: Targets)
    requires CollectionStems(col, cats) == {"a"}
    requires Stems(t.user) == {"zz"} && ProjectStems(t) == {}
    ensures Agents(col, cats, t) == [AgentInfo("a", Available), AgentInfo("zz", InUser)]
  {
    ExampleOrder(Agents(col, cats, t), CollectionStems(col, cats), Stems(t.user), ProjectStems(t));
  }

  /** The only sorted list of the example's agents: `a` in the collection
      only, `zz` at the user level only. */
  lemma ExampleOrder(agents: seq<AgentInfo>, cs: set<string>, us: set<string>, ps: set<string>)
    requires cs == {"a"} && us == {"zz"} && ps == {}
    requires StrictlySorted(NamesOf(agents))
    requires forall n :: n in NamesOf(agents) <==> n in cs || n in us || n in ps
    requires forall i | 0 <= i < |agents| :: agents[i].location == PlaceOf(agents[i].name in us, agents[i].name in ps)
    ensures agents == [AgentInfo("a", Available), AgentInfo("zz", InUser)]
  {
    var ns := NamesOf(agents);
    assert "a" in ns && "zz" in ns;
    forall i | 0 <= i < |ns|
      ensures ns[i] in {"a", "zz"}
    {
      assert ns[i] in ns;
    }
    DistinctWithin(ns, {"a", "zz"});
    assert ns[0] in ns && ns[1] in ns;
    assert LessEq(ns[0], ns[1]) && ns[0] != ns[1];
    assert !LessEq("zz", "a");
  }

  /** A list without repeats drawn from `s` is no longer than `s` is large. */
  lemma {:induction false} DistinctWithin(ns: seq<string>, s: set<string>)
    requires forall i, j | 0 <= i < j < |ns| :: ns[i] != ns[j]
    requires forall i | 0 <= i < |ns| :: ns[i] in s
    ensures |ns| <= |s|
    decreases |ns|
  {
    if |ns| > 0 {
      var rest := ns[1..];
      forall i | 0 <= i < |rest|
        ensures rest[i] in s - {ns[0]}
      {
        assert rest[i] == ns[i + 1];
      }
      forall i, j | 0 <= i < j < |rest|
        ensures rest[i] != rest[j]
      {
        assert rest[i] == ns[i + 1] && rest[j] == ns[j + 1];
      }
      DistinctWithin(rest, s - {ns[0]});
    }
  }

  /** The manager at start-up on the example: nothing selected. */
  lemma ExampleStart(col: Collection, cats: seq<string>, t: Targets)
    requires CollectionStems(col, cats) == {"a"}
    requires Stems(t.user) == {"zz"} && ProjectStems(t) == {}
    ensures var m := LoadAsWritten(Manager(cats, col, Overview, 0, [], map[]), t);
            m.agents == [AgentInfo("a", Available), AgentInfo("zz", InUser)] && m.index == 0 &&
            (forall n :: n in m.selected <==> n == "a" || n == "zz") &&
            (forall n | n in m.selected :: !m.selected[n])
  {
    ExampleAgents(col, cats, t);
    var agents := [AgentInfo("a", Available), AgentInfo("zz", InUser)];
    var m := LoadAsWritten(Manager(cats, col, Overview, 0, [], map[]), t);
    assert m.agents == agents && m.selected == Defaults(agents, map[]);
    ExampleDefaults(m.selected);
  }

  /** The selection a first load gives the example list. */
  lemma ExampleDefaults(sel: map<string, bool>)
    requires sel == Defaults([AgentInfo("a", Available), AgentInfo("zz", InUser)], map[])
    ensures forall n :: n in sel <==> n == "a" || n == "zz"
    ensures forall n | n in sel :: !sel[n]
  {
    assert NamesOf([AgentInfo("a", Available), AgentInfo("zz", InUser)]) == ["a", "zz"];
  }

  /** Once the user level is empty only `a` is listed. */
  lemma ExampleAfterSave(col: Collection, t: Targets)
    requires CollectionStems(col, Categories) == {"a"}
    requires Stems(t.user) == {} && ProjectStems(t) == {}
    ensures |Agents(col, Categories, t)| == 1
  {
    OnlyOneAgent(Agents(col, Categories, t), CollectionStems(col, Categories), Stems(t.user), ProjectStems(t));
  }

  /** A sorted list whose names are just `a` has one entry. */
  lemma OnlyOneAgent(agents: seq<AgentInfo>, cs: set<string>, us: set<string>, ps: set<string>)
    requires cs == {"a"} && us == {} && ps == {}
    requires StrictlySorted(NamesOf(agents))
    requires forall n :: n in NamesOf(agents) <==> n in cs || n in us || n in ps
    ensures |agents| == 1
  {
    var ns := NamesOf(agents);
    assert "a" in ns;
    forall i | 0 <= i < |ns|
      ensures ns[i] in {"a"}
    {
      assert ns[i] in ns;
    }
    DistinctWithin(ns, {"a"});
  }

  /** Key '1', Down and Space on the example list: the user edit mode
      with the cursor on `zz` and nothing selected. */
  lemma ExampleEdit(m: Manager, t: Targets)
    requires m.agents == [AgentInfo("a", Available), AgentInfo("zz", InUser)] && m.index == 0
    requires m.mode == Overview && (forall n :: n in m.selected <==> n == "a" || n == "zz")
    ensures var m2 := Down(KeyOne(m, t).0);
            Space(m2).Some? && m2.agents == m.agents && m2.index == 1 &&
            var m3 := Space(m2).value;
            m3.agents == m.agents && m3.index == 1 && m3.mode == EditUser &&
            m3.cats == m.cats && m3.col == m.col &&
            "a" in m3.selected && "zz" in m3.selected && !m3.selected["a"] && !m3.selected["zz"]
  {
    var m1 := KeyOne(m, t).0;
    assert m1.selected == EditFold(m.agents, General, m.selected);
    assert m1.selected["zz"] && !m1.selected["a"];
  }

  /** Saving with nothing selected empties a user level whose only file
      is `zz.md`. */
  lemma ExampleSave(m: Manager, t: Targets, c: Content)
    requires m.agents == [AgentInfo("a", Available), AgentInfo("zz", InUser)]
    requires "a" in m.selected && "zz" in m.selected && !m.selected["a"] && !m.selected["zz"]
    requires t.user == Some(map["zz.md" := c])
    ensures SavedDir(m, t, General) == map[]
  {
    var own := SaveFile(m.col, m.cats, m.selected);
    var d := map["zz.md" := c];
    assert Ensure(TargetOf(t, General).value) == d;
    assert FileOf("a") == "a.md" && FileOf("zz") == "zz.md";
    var d1 := Put(d, "a.md", own(m.agents[0], Get(d, "a.md")));
    assert d1 == d;
    var d2 := Put(d1, "zz.md", own(m.agents[1], Get(d1, "zz.md")));
    assert d2 == map[];
    assert m.agents[1..][1..] == [];
    assert ForEach(m.agents[1..][1..], d2, own) == d2;
    assert ForEach(m.agents[1..], d1, own) == d2;
  }

  /** The scenario of `CursorPastEnd` for any collection whose only agent
      is `a` and a user level whose only file is `zz.md`. */
  lemma CursorPastEndFor(col: Collection, c: Content)
    requires CollectionStems(col, Categories) == {"a"}
    ensures var t := Targets(Some(map["zz.md" := c]), None);
            var m := Down(KeyOne(Start(col, t), t).0);
            Space(m).Some? &&
            |m.agents| == 2 && m.index == 1 &&
            var written := SaveChangesAsWritten(Space(m).value, t, General).0;
            var fixed := SaveChanges(Space(m).value, t, General).0;
            |written.agents| == 1 && written.index == |written.agents| &&
            0 <= fixed.index < |fixed.agents|
  {
    var t := Targets(Some(map["zz.md" := c]), None);
    ScenarioEdit(col, c);
    var m := Down(KeyOne(Start(col, t), t).0);
    ScenarioSave(col, Space(m).value, t, c);
  }

  /** The steps before the save: key '1', Down and Space. */
  lemma ScenarioEdit(col: Collection, c: Content)
    requires CollectionStems(col, Categories) == {"a"}
    ensures var t := Targets(Some(map["zz.md" := c]), None);
            var m := Down(KeyOne(Start(col, t), t).0);
            Space(m).Some? && |m.agents| == 2 && m.index == 1 &&
            var m3 := Space(m).value;
            m3.col == col && m3.cats == Categories && m3.index == 1 &&
            SavedDir(m3, t, General) == map[]
  {
    var t := Targets(Some(map["zz.md" := c]), None);
    StemsOfOne("zz.md", c);
    assert MdStem("zz.md") == "zz";
    ExampleStart(col, Categories, t);
    var m0 := Start(col, t);
    ExampleEdit(m0, t);
    var m3 := Space(Down(KeyOne(m0, t).0)).value;
    ExampleSave(m3, t, c);
  }

  /** The save: the user level ends up empty, so only `a` is listed. */
  lemma ScenarioSave(col: Collection, m3: Manager, t: Targets, c: Content)
    requires CollectionStems(col, Categories) == {"a"}
    requires t == Targets(Some(map["zz.md" := c]), None)
    requires m3.col == col && m3.cats == Categories && m3.index == 1
    requires SavedDir(m3, t, General) == map[]
    ensures var written := SaveChangesAsWritten(m3, t, General).0;
            var fixed := SaveChanges(m3, t, General).0;
            |written.agents| == 1 && written.index == |written.agents| &&
            0 <= fixed.index < |fixed.agents|
  {
    var t2 := WithTarget(t, General, map[]);
    assert Stems(t2.user) == {};
    ExampleAfterSave(col, t2);
  }

  /** As written, saving in the user edit mode after deselecting the last
      agent, which only the user level had, leaves the cursor one past the
      end of the shortened list, where `draw_details` then indexes
      `self.agents`; the corrected load puts it on the last entry. */
  lemma CursorPastEnd()
    ensures var col := map["platform" := map["a.md" := "A"]];
            var t := Targets(Some(map["zz.md" := "Z"]), None);
            var m := Down(KeyOne(Start(col, t), t).0);
            Space(m).Some? &&
            |m.agents| == 2 && m.index == 1 &&
            var written := SaveChangesAsWritten(Space(m).value, t, General).0;
            var fixed := SaveChanges(Space(m).value, t, General).0;
            |written.agents| == 1 && written.index == |written.agents| &&
            0 <= fixed.index < |fixed.agents|
  {
    ExampleCollection();
    CursorPastEndFor(map["platform" := map["a.md" := "A"]], "Z");
  }
}
