/** The agents collection that all three programs install from: a fixed
    list of category directories under `agents-collection`, each holding
    `*.md` agent files. */
module Sources {
  import opened Text
  import opened Files

  /** The categories of the collection, in the order they are listed and
      searched. */
  const Categories: seq<string> := ["platform", "frontend", "backend", "infrastructure"]

  /** The agents collection: one directory per category; a category whose
      directory does not exist is absent. */
  type Collection = map<string, Dir>

  /** File names never contain the path separator. */
  predicate Plain(col: Collection) {
    forall c, f | c in col && f in col[c] :: '/' !in f
  }

  /** No category name contains the separator. */
  predicate PlainCats(cats: seq<string>) {
    forall i | 0 <= i < |cats| :: '/' !in cats[i]
  }

  lemma CategoriesPlain()
    ensures PlainCats(Categories)
  {
  }

  /** `sorted(category_path.glob("*.md"))`: a category's agent files in name
      order, none when its directory does not exist. */
  function AgentFiles(col: Collection, cat: string): (fs: seq<string>)
    ensures StrictlySorted(fs)
    ensures forall f :: f in fs <==> cat in col && f in col[cat] && Globbed(f)
  {
    if cat in col then SortedSet(set f | f in col[cat] && Globbed(f)) else []
  }

  /** The stem of a plain file name is plain: it is a prefix of the name. */
  lemma StemPlain(f: string)
    requires Globbed(f) && '/' !in f
    ensures '/' !in MdStem(f)
  {
    if HasMdSuffix(f) {
      assert forall i | 0 <= i < |MdStem(f)| :: MdStem(f)[i] == f[i];
    }
  }

  /** The category `c` exists and holds `name.md`. */
  predicate Holds(col: Collection, c: string, name: string) {
    c in col && FileOf(name) in col[c]
  }

  /** The search loop of `save_changes` and `install_selected`: the content
      of `name.md` in the first category of `cats` that holds it. */
  function SourceIn(col: Collection, cats: seq<string>, name: string): (r: Option<Content>)
    ensures r.None? <==> forall i | 0 <= i < |cats| :: !Holds(col, cats[i], name)
    decreases |cats|
  {
    if |cats| == 0 then None
    else if Holds(col, cats[0], name) then Some(col[cats[0]][FileOf(name)])
    else SourceIn(col, cats[1..], name)
  }

  /** The source found is the file of the first category holding it. */
  lemma {:induction false} SourceInFirst(col: Collection, cats: seq<string>, name: string, i: nat)
    requires i < |cats| && Holds(col, cats[i], name)
    requires forall j | 0 <= j < i :: !Holds(col, cats[j], name)
    ensures SourceIn(col, cats, name) == Some(col[cats[i]][FileOf(name)])
    decreases i
  {
    if i > 0 {
      assert !Holds(col, cats[0], name);
      SourceInFirst(col, cats[1..], name, i - 1);
    }
  }

  /** The collection's copy of agent `name`, if any category has one. */
  function Source(col: Collection, name: string): Option<Content> {
    SourceIn(col, Categories, name)
  }
}
