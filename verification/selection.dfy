/** The selection bookkeeping that agent-manager-tree.py and
    agent-manager-v2.py share: the two views, the install directories they
    read and write, and the three maps `original_state`, `current_state`
    and `changes`, here merged into one record per key. */
module Selection {
  import opened Files

  datatype View = General | Project

  /** The pending change of one agent: `None`, `'add'` or `'remove'`. */
  datatype Change = NoChange | Add | Remove

  /** The entries of `original_state`, `current_state` and `changes` for one
      key. A leaf's `selected` flag always equals `current`. */
  datatype LeafState = LeafState(original: bool, current: bool, change: Change)

  /** The two install directories: the user's, and the project's when a
      project root was detected. */
  datatype Targets = Targets(user: Location, project: Option<Location>)

  /** The directory a view installs into (`check_dir`, `target_dir`). */
  function TargetOf(t: Targets, v: View): Option<Location> {
    if v == General then Some(t.user) else t.project
  }

  /** The installed directory of a view replaced by `d`. */
  function WithTarget(t: Targets, v: View, d: Dir): (r: Targets)
    requires TargetOf(t, v).Some?
    ensures TargetOf(r, v) == Some(Some(d))
    ensures forall w: View | w != v :: TargetOf(r, w) == TargetOf(t, w)
  {
    if v == General then t.(user := Some(d)) else t.(project := Some(Some(d)))
  }

  /** The change a leaf shows for its current selection and its original
      installation: none when they agree, an addition when it is selected
      but was not installed, a removal otherwise. */
  function Classify(current: bool, original: bool): (c: Change)
    ensures c == NoChange <==> current == original
    ensures c == Add <==> current && !original
    ensures c == Remove <==> !current && original
  {
    if current == original then NoChange else if current then Add else Remove
  }

  predicate Consistent<K>(st: map<K, LeafState>) {
    forall k | k in st :: st[k].change == Classify(st[k].current, st[k].original)
  }

  /** No pending change: the state a load leaves behind. */
  predicate Settled(x: LeafState) {
    x.original == x.current && x.change == NoChange
  }

  /** The record of a key whose selection was flipped (`toggle_selection`,
      `toggle_agent`): the original installation stays, the selection flips
      and the change is worked out again with the branches of the program. */
  function Toggled(x: LeafState): (y: LeafState)
    ensures y.original == x.original && y.current == !x.current
    ensures y.change == Classify(y.current, y.original)
  {
    var selected := !x.current;
    LeafState(x.original, selected,
      if selected == x.original then NoChange else if selected then Add else Remove)
  }

  /** Flipping twice gives back a record whose change was classified. */
  lemma ToggledTwice(x: LeafState)
    requires x.change == Classify(x.current, x.original)
    ensures Toggled(Toggled(x)) == x
  {
  }

  /** Some key of `keys` with change `c` is called `x`. */
  predicate NamedWith<K>(keys: seq<K>, st: map<K, LeafState>, nameOf: K -> string, c: Change, x: string)
    requires forall i | 0 <= i < |keys| :: keys[i] in st
  {
    exists j | 0 <= j < |keys| :: st[keys[j]].change == c && nameOf(keys[j]) == x
  }

  /** The list comprehension of `get_changes_summary()`: the names of the
      keys whose change is `c`, in key order. Every name listed belongs to
      such a key, and every such key is listed. */
  function Names<K>(keys: seq<K>, st: map<K, LeafState>, nameOf: K -> string, c: Change): (ns: seq<string>)
    requires forall i | 0 <= i < |keys| :: keys[i] in st
    ensures forall i | 0 <= i < |ns| :: NamedWith(keys, st, nameOf, c, ns[i])
    ensures forall j | 0 <= j < |keys| && st[keys[j]].change == c :: nameOf(keys[j]) in ns
    decreases |keys|
  {
    if |keys| == 0 then []
    else
      var k := keys[0];
      assert forall j | 0 <= j < |keys[1..]| :: keys[1..][j] == keys[j + 1];
      var tail := Names(keys[1..], st, nameOf, c);
      var head := if st[k].change == c then [nameOf(k)] else [];
      assert forall i | 0 <= i < |tail| :: NamedWith(keys, st, nameOf, c, tail[i]) by {
        forall i | 0 <= i < |tail|
          ensures NamedWith(keys, st, nameOf, c, tail[i])
        {
          var j :| 0 <= j < |keys[1..]| && st[keys[1..][j]].change == c && nameOf(keys[1..][j]) == tail[i];
          assert keys[1..][j] == keys[j + 1];
        }
      }
      head + tail
  }

  /** Some name is listed for an addition or a removal exactly when some
      key has a pending change, that is, when some selection differs from
      the installation. */
  lemma PendingIff<K>(keys: seq<K>, st: map<K, LeafState>, nameOf: K -> string)
    requires forall k :: k in keys <==> k in st
    requires Consistent(st)
    ensures (Names(keys, st, nameOf, Add) != [] || Names(keys, st, nameOf, Remove) != []) <==>
              exists k | k in st :: st[k].change != NoChange
    ensures (exists k | k in st :: st[k].change != NoChange) <==>
              exists k | k in st :: st[k].current != st[k].original
  {
    assert forall i | 0 <= i < |keys| :: keys[i] in st by {
      forall i | 0 <= i < |keys| ensures keys[i] in st {
        assert keys[i] in keys;
      }
    }
    PendingListed(keys, st, nameOf);
    ListedPending(keys, st, nameOf);
    ChangedIff(st);
  }

  lemma PendingListed<K>(keys: seq<K>, st: map<K, LeafState>, nameOf: K -> string)
    requires forall i | 0 <= i < |keys| :: keys[i] in st
    requires forall k | k in st :: k in keys
    ensures (exists k | k in st :: st[k].change != NoChange) ==>
              Names(keys, st, nameOf, Add) != [] || Names(keys, st, nameOf, Remove) != []
  {
    if exists k | k in st :: st[k].change != NoChange {
      var k :| k in st && st[k].change != NoChange;
      var j :| 0 <= j < |keys| && keys[j] == k;
      assert nameOf(keys[j]) in (if st[k].change == Add then Names(keys, st, nameOf, Add) else Names(keys, st, nameOf, Remove));
    }
  }

  lemma ListedPending<K>(keys: seq<K>, st: map<K, LeafState>, nameOf: K -> string)
    requires forall i | 0 <= i < |keys| :: keys[i] in st
    ensures Names(keys, st, nameOf, Add) != [] || Names(keys, st, nameOf, Remove) != [] ==>
              exists k | k in st :: st[k].change != NoChange
  {
    var adds := Names(keys, st, nameOf, Add);
    var removes := Names(keys, st, nameOf, Remove);
    if |adds| > 0 {
      assert NamedWith(keys, st, nameOf, Add, adds[0]);
      var j :| 0 <= j < |keys| && st[keys[j]].change == Add && nameOf(keys[j]) == adds[0];
      assert keys[j] in st;
    }
    if |removes| > 0 {
      assert NamedWith(keys, st, nameOf, Remove, removes[0]);
      var j :| 0 <= j < |keys| && st[keys[j]].change == Remove && nameOf(keys[j]) == removes[0];
      assert keys[j] in st;
    }
  }

  /** With every change classified, a pending change is a flipped selection. */
  lemma ChangedIff<K>(st: map<K, LeafState>)
    requires Consistent(st)
    ensures (exists k | k in st :: st[k].change != NoChange) <==>
              exists k | k in st :: st[k].current != st[k].original
  {
  }
}
