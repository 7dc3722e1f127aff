/** The file system as the agent manager sees it: flat install directories
    that may be absent, the `*.md` glob and `Path.stem` rules, and the two
    mutations it performs (`shutil.copy2` and `Path.unlink`), folded over a
    sequence of operations. */
module Files {

  datatype Option<T> = None | Some(value: T)

  /** File content; copies move content only (metadata is not modelled). */
  type Content = string

  /** A flat directory: file name -> content. */
  type Dir = map<string, Content>

  /** A directory that may not exist: `None` when `path.exists()` is false. */
  type Location = Option<Dir>

  const MdExt: string := ".md"

  /** The name matches the glob pattern `*.md`. pathlib's glob lets `*`
      match a leading dot, so the bare name ".md" matches as well. */
  predicate Globbed(name: string) {
    |name| >= 3 && name[|name| - 3..] == MdExt
  }

  /** `Path(name).suffix == ".md"`: the last dot must not be the first
      character of the name, so ".md" itself has no suffix. */
  predicate HasMdSuffix(name: string) {
    |name| > 3 && name[|name| - 3..] == MdExt
  }

  /** `f"{stem}.md"`: the file an agent called `stem` is installed as. */
  function FileOf(stem: string): string {
    stem + MdExt
  }

  /** `Path(name).stem` for a name matched by `*.md`. */
  function MdStem(name: string): (s: string)
    requires Globbed(name)
    ensures HasMdSuffix(name) ==> FileOf(s) == name && s != ""
    ensures !HasMdSuffix(name) ==> name == MdExt && s == MdExt
  {
    if HasMdSuffix(name) then name[..|name| - 3] else name
  }

  /** The file of a non-empty stem has the `.md` suffix and gives the stem back. */
  lemma StemOfFile(stem: string)
    requires stem != ""
    ensures Globbed(FileOf(stem)) && HasMdSuffix(FileOf(stem))
    ensures MdStem(FileOf(stem)) == stem
  {
    assert FileOf(stem)[|FileOf(stem)| - 3..] == MdExt;
    assert FileOf(stem)[..|FileOf(stem)| - 3] == stem;
  }

  /** Different stems are installed as different files. */
  lemma FileOfInjective(a: string, b: string)
    requires FileOf(a) == FileOf(b)
    ensures a == b
  {
    assert a == FileOf(a)[..|a|];
    assert b == FileOf(b)[..|b|];
  }

  function Get(d: Dir, name: string): Option<Content> {
    if name in d then Some(d[name]) else None
  }

  lemma DirExt(a: Dir, b: Dir)
    requires forall n :: Get(a, n) == Get(b, n)
    ensures a == b
  {
    assert forall n :: n in a <==> n in b by {
      forall n ensures n in a <==> n in b {
        assert Get(a, n) == Get(b, n);
      }
    }
    forall n | n in a
      ensures a[n] == b[n]
    {
      assert Get(a, n) == Get(b, n);
    }
  }

  /** `path.mkdir(parents=True, exist_ok=True)`: an absent directory is
      created empty, an existing one is kept as it is. */
  function Ensure(loc: Location): (d: Dir)
    ensures loc.Some? ==> d == loc.value
    ensures loc.None? ==> d == map[]
  {
    match loc
    case None => map[]
    case Some(d) => d
  }

  /** The files `dir.glob("*.md")` yields, with their content. */
  function MdFiles(d: Dir): (r: Dir)
    ensures forall n :: n in r <==> n in d && Globbed(n)
    ensures forall n | n in r :: r[n] == d[n]
  {
    map n | n in d && Globbed(n) :: d[n]
  }

  /** The glob keeps only `*.md` files, so globbing what it returned gives
      the same files, and it sees every stem the directory installs. */
  lemma MdFilesSpec(d: Dir)
    ensures MdFiles(MdFiles(d)) == MdFiles(d)
    ensures Stems(Some(MdFiles(d))) == Stems(Some(d))
  {
  }

  /** `{f.stem for f in dir.glob("*.md")}`, empty when the directory is absent. */
  function Stems(loc: Location): set<string>
  {
    match loc
    case None => {}
    case Some(d) => set n | n in d && Globbed(n) :: MdStem(n)
  }

  /** `mkdir(parents=True, exist_ok=True)` installs nothing: the stems seen
      are the same before and after, and creating the directory again
      changes nothing. */
  lemma EnsureSpec(loc: Location)
    ensures Stems(Some(Ensure(loc))) == Stems(loc)
    ensures Ensure(Some(Ensure(loc))) == Ensure(loc)
  {
  }

  /** A non-empty stem counts as installed exactly when `stem.md` is present,
      except for the stem ".md", which a bare file called ".md" also provides. */
  lemma StemsIff(loc: Location, stem: string)
    requires stem != ""
    ensures stem in Stems(loc) <==>
              loc.Some? && (FileOf(stem) in loc.value || (stem == MdExt && MdExt in loc.value))
  {
    if loc.Some? {
      var d := loc.value;
      StemOfFile(stem);
      if FileOf(stem) in d {
        assert MdStem(FileOf(stem)) in Stems(loc);
      } else if stem == MdExt && MdExt in d {
        assert MdStem(MdExt) in Stems(loc);
      }
      if stem in Stems(loc) {
        var n :| n in d && Globbed(n) && MdStem(n) == stem;
        if HasMdSuffix(n) {
          assert FileOf(stem) == n;
        }
      }
    }
  }

  // ---------------------------------------------------------------------
  // Copy and delete, and sequences of them.
  // ---------------------------------------------------------------------

  datatype Op =
    | Write(name: string, content: Content)  // shutil.copy2(source, dir / name)
    | Delete(name: string)                   // (dir / name).unlink() when it exists

  /** Performs one operation; every other file of the directory is untouched. */
  function Apply(d: Dir, op: Op): (r: Dir)
    ensures op.Write? ==> r.Keys == d.Keys + {op.name} && r[op.name] == op.content
    ensures op.Delete? ==> r.Keys == d.Keys - {op.name}
    ensures forall n | n in d && n != op.name :: n in r && r[n] == d[n]
  {
    match op
    case Write(n, c) => d[n := c]
    case Delete(n) => d - {n}
  }

  /** Performs the operations in order, the first one first. */
  function Run(ops: seq<Op>, d: Dir): Dir
    decreases |ops|
  {
    if |ops| == 0 then d else Apply(Run(ops[..|ops| - 1], d), ops[|ops| - 1])
  }

  /** The last operation of `ops` on the file `name`, if any. */
  function LastOn(ops: seq<Op>, name: string): (r: Option<Op>)
    ensures r.Some? ==> r.value in ops && r.value.name == name
    ensures r.None? ==> forall i | 0 <= i < |ops| :: ops[i].name != name
    decreases |ops|
  {
    if |ops| == 0 then None
    else if ops[|ops| - 1].name == name then Some(ops[|ops| - 1])
    else LastOn(ops[..|ops| - 1], name)
  }

  /** What the file `name` holds after an operation sequence whose last
      operation on it is `last`, given what it held before. */
  function Outcome(last: Option<Op>, before: Option<Content>): Option<Content>
  {
    match last
    case None => before
    case Some(Write(_, c)) => Some(c)
    case Some(Delete(_)) => None
  }

  /** Each file ends up as the last operation on it says, and files no
      operation names keep their content. */
  lemma {:induction false} RunEffect(ops: seq<Op>, d: Dir, name: string)
    ensures Get(Run(ops, d), name) == Outcome(LastOn(ops, name), Get(d, name))
    decreases |ops|
  {
    if |ops| > 0 {
      RunEffect(ops[..|ops| - 1], d, name);
    }
  }

  /** Running the same operations twice leaves the directory as running them once. */
  lemma RunIdempotent(ops: seq<Op>, d: Dir)
    ensures Run(ops, Run(ops, d)) == Run(ops, d)
  {
    forall n
      ensures Get(Run(ops, Run(ops, d)), n) == Get(Run(ops, d), n)
    {
      RunEffect(ops, Run(ops, d), n);
      RunEffect(ops, d, n);
    }
    DirExt(Run(ops, Run(ops, d)), Run(ops, d));
  }

  /** A file no operation names is untouched. */
  lemma RunUntouched(ops: seq<Op>, d: Dir, name: string)
    requires forall i | 0 <= i < |ops| :: ops[i].name != name
    ensures Get(Run(ops, d), name) == Get(d, name)
  {
    RunEffect(ops, d, name);
  }

  /** The last operation on a file in `a + b` is its last one in `b`, or
      failing that its last one in `a`. */
  lemma {:induction false} LastOnAppend(a: seq<Op>, b: seq<Op>, name: string)
    ensures LastOn(a + b, name) == if LastOn(b, name).Some? then LastOn(b, name) else LastOn(a, name)
    decreases |b|
  {
    if |b| == 0 {
      assert a + b == a;
    } else {
      assert (a + b)[..|a + b| - 1] == a + b[..|b| - 1];
      assert (a + b)[|a + b| - 1] == b[|b| - 1];
      LastOnAppend(a, b[..|b| - 1], name);
    }
  }

  /** The operations of a loop that performs each item's operations in
      turn, the first item first. */
  function OpsOf<K>(items: seq<K>, ops: K -> seq<Op>): seq<Op>
    decreases |items|
  {
    if |items| == 0 then [] else ops(items[0]) + OpsOf(items[1..], ops)
  }

  /** No operation of any item names the file `f`. */
  predicate Spares<K>(items: seq<K>, ops: K -> seq<Op>, f: string) {
    forall j, i | 0 <= j < |items| && 0 <= i < |ops(items[j])| :: ops(items[j])[i].name != f
  }

  /** A file no item's operations name is not touched by the loop. */
  lemma {:induction false} OpsOfSpares<K>(items: seq<K>, ops: K -> seq<Op>, f: string)
    requires Spares(items, ops, f)
    ensures LastOn(OpsOf(items, ops), f) == None
    decreases |items|
  {
    if |items| > 0 {
      assert forall j | 0 <= j < |items[1..]| :: items[1..][j] == items[j + 1];
      OpsOfSpares(items[1..], ops, f);
      LastOnAppend(ops(items[0]), OpsOf(items[1..], ops), f);
      assert forall i | 0 <= i < |ops(items[0])| :: ops(items[0])[i].name != f;
    }
  }

  /** When only the item `k` names the file `f`, the last operation on `f`
      is the last one `k` asks for, however often `k` occurs. */
  lemma {:induction false} OpsOfLast<K>(items: seq<K>, ops: K -> seq<Op>, k: K, f: string)
    requires k in items
    requires forall j, i | 0 <= j < |items| && items[j] != k && 0 <= i < |ops(items[j])| :: ops(items[j])[i].name != f
    ensures LastOn(OpsOf(items, ops), f) == LastOn(ops(k), f)
    decreases |items|
  {
    var rest := items[1..];
    assert forall j | 0 <= j < |rest| :: rest[j] == items[j + 1];
    LastOnAppend(ops(items[0]), OpsOf(rest, ops), f);
    if k in rest {
      OpsOfLast(rest, ops, k, f);
      if items[0] != k {
        assert forall i | 0 <= i < |ops(items[0])| :: ops(items[0])[i].name != f;
      }
    } else {
      assert items[0] == k;
      assert Spares(rest, ops, f);
      OpsOfSpares(rest, ops, f);
    }
  }
}
