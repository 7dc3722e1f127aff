/** String helpers the agent manager relies on implicitly through Python's
    built-ins: substring tests (`a in b`), path joining, code-point ordering of
    names (`sorted`), decimal rendering of counters and ASCII upper-casing. */
module Text {

  /** `a` is a prefix of `b`. */
  predicate IsPrefix(a: string, b: string) {
    |a| <= |b| && b[..|a|] == a
  }

  /** Python's `a in b` on strings: `a` occurs somewhere inside `b`. */
  predicate IsSubstring(a: string, b: string)
    decreases |b|
  {
    IsPrefix(a, b) || (|b| > 0 && IsSubstring(a, b[1..]))
  }

  /** A string occurs inside any string that surrounds it. */
  lemma {:induction false} SubstringOfSurrounded(x: string, a: string, y: string)
    ensures IsSubstring(a, x + a + y)
    decreases |x|
  {
    if |x| == 0 {
      assert x + a + y == a + y;
      assert (a + y)[..|a|] == a;
    } else {
      assert (x + a + y)[1..] == x[1..] + a + y;
      SubstringOfSurrounded(x[1..], a, y);
    }
  }

  /** `sep.join(parts)`: how a relative path prints with `/` separators. */
  function Join(parts: seq<string>, sep: string): string
  {
    if |parts| == 0 then ""
    else if |parts| == 1 then parts[0]
    else parts[0] + sep + Join(parts[1..], sep)
  }

  /** Everything `Join` prints before the last part. */
  function JoinInit(parts: seq<string>, sep: string): string
    requires |parts| > 0
  {
    if |parts| == 1 then "" else parts[0] + sep + JoinInit(parts[1..], sep)
  }

  /** The joined text ends with the last part. */
  lemma {:induction false} JoinEndsWithLast(parts: seq<string>, sep: string)
    requires |parts| > 0
    ensures Join(parts, sep) == JoinInit(parts, sep) + parts[|parts| - 1]
    decreases |parts|
  {
    if |parts| > 1 {
      JoinEndsWithLast(parts[1..], sep);
    }
  }

  // ---------------------------------------------------------------------
  // Code-point ordering of strings, as Python's `<=` on `str`.
  // ---------------------------------------------------------------------

  /** `a <= b` for Python strings: lexicographic by code point, a proper
      prefix coming first. */
  predicate LessEq(a: string, b: string)
    decreases |a|
  {
    |a| == 0 || (|b| > 0 && (a[0] < b[0] || (a[0] == b[0] && LessEq(a[1..], b[1..]))))
  }

  lemma {:induction false} LessEqRefl(a: string)
    ensures LessEq(a, a)
    decreases |a|
  {
    if |a| > 0 {
      LessEqRefl(a[1..]);
    }
  }

  lemma {:induction false} LessEqTotal(a: string, b: string)
    ensures LessEq(a, b) || LessEq(b, a)
    decreases |a|
  {
    if |a| > 0 && |b| > 0 && a[0] == b[0] {
      LessEqTotal(a[1..], b[1..]);
    }
  }

  lemma {:induction false} LessEqAntisym(a: string, b: string)
    requires LessEq(a, b) && LessEq(b, a)
    ensures a == b
    decreases |a|
  {
    if |a| > 0 {
      LessEqAntisym(a[1..], b[1..]);
      assert a == [a[0]] + a[1..];
      assert b == [b[0]] + b[1..];
    }
  }

  lemma {:induction false} LessEqTrans(a: string, b: string, c: string)
    requires LessEq(a, b) && LessEq(b, c)
    ensures LessEq(a, c)
    decreases |a|
  {
    if |a| > 0 && a[0] == b[0] && b[0] == c[0] {
      LessEqTrans(a[1..], b[1..], c[1..]);
    }
  }

  // ---------------------------------------------------------------------
  // Sorting a listing by name (`sorted(path.iterdir())`).
  // ---------------------------------------------------------------------

  predicate SortedBy<T>(xs: seq<T>, key: T -> string) {
    forall i, j | 0 <= i < j < |xs| :: LessEq(key(xs[i]), key(xs[j]))
  }

  /** Inserts `x` into a listing before the first element not below it. */
  function InsertBy<T>(x: T, xs: seq<T>, key: T -> string): (r: seq<T>)
    ensures multiset(r) == multiset(xs) + multiset{x}
    ensures forall y | y in r :: y == x || y in xs
    decreases |xs|
  {
    if |xs| == 0 then [x]
    else if LessEq(key(x), key(xs[0])) then [x] + xs
    else
      assert xs == [xs[0]] + xs[1..];
      [xs[0]] + InsertBy(x, xs[1..], key)
  }

  /** A head below every element of a sorted tail gives a sorted listing. */
  lemma SortedCons<T>(h: T, rest: seq<T>, key: T -> string)
    requires SortedBy(rest, key)
    requires forall y | y in rest :: LessEq(key(h), key(y))
    ensures SortedBy([h] + rest, key)
  {
    var r := [h] + rest;
    forall i, j | 0 <= i < j < |r|
      ensures LessEq(key(r[i]), key(r[j]))
    {
      if i == 0 {
        assert r[j] == rest[j - 1];
      } else {
        assert r[i] == rest[i - 1] && r[j] == rest[j - 1];
      }
    }
  }

  /** Inserting into a sorted listing keeps it sorted. */
  lemma {:induction false} InsertBySorted<T>(x: T, xs: seq<T>, key: T -> string)
    requires SortedBy(xs, key)
    ensures SortedBy(InsertBy(x, xs, key), key)
    decreases |xs|
  {
    if |xs| == 0 {
    } else if LessEq(key(x), key(xs[0])) {
      forall y | y in xs
        ensures LessEq(key(x), key(y))
      {
        var j :| 0 <= j < |xs| && xs[j] == y;
        if j > 0 {
          LessEqTrans(key(x), key(xs[0]), key(xs[j]));
        }
      }
      SortedCons(x, xs, key);
    } else {
      LessEqTotal(key(x), key(xs[0]));
      var tail := xs[1..];
      InsertBySorted(x, tail, key);
      forall y | y in InsertBy(x, tail, key)
        ensures LessEq(key(xs[0]), key(y))
      {
        if y != x {
          var j :| 0 <= j < |tail| && tail[j] == y;
          assert xs[j + 1] == y;
        }
      }
      SortedCons(xs[0], InsertBy(x, tail, key), key);
    }
  }

  /** Insertion sort of a listing by a string key. */
  function SortBy<T>(xs: seq<T>, key: T -> string): (r: seq<T>)
    ensures multiset(r) == multiset(xs)
    ensures SortedBy(r, key)
    decreases |xs|
  {
    if |xs| == 0 then []
    else
      assert xs == [xs[0]] + xs[1..];
      InsertBySorted(xs[0], SortBy(xs[1..], key), key);
      InsertBy(xs[0], SortBy(xs[1..], key), key)
  }

  // ---------------------------------------------------------------------
  // Sorting a set of names (`sorted(dict.values(), key=name)`).
  // ---------------------------------------------------------------------

  /** Strictly increasing, hence free of duplicates. */
  predicate StrictlySorted(xs: seq<string>) {
    forall i, j | 0 <= i < j < |xs| :: LessEq(xs[i], xs[j]) && xs[i] != xs[j]
  }

  lemma {:induction false} LeastExists(s: set<string>)
    requires s != {}
    ensures exists m :: m in s && forall y | y in s :: LessEq(m, y)
    decreases |s|
  {
    var x :| x in s;
    if s == {x} {
      LessEqRefl(x);
      assert forall y | y in s :: y == x;
    } else {
      LeastExists(s - {x});
      var m :| m in s - {x} && forall y | y in s - {x} :: LessEq(m, y);
      LessEqTotal(m, x);
      if LessEq(m, x) {
        assert m in s && forall y | y in s :: LessEq(m, y);
      } else {
        forall y | y in s
          ensures LessEq(x, y)
        {
          if y == x {
            LessEqRefl(x);
          } else {
            LessEqTrans(x, m, y);
          }
        }
      }
    }
  }

  /** The least name of a non-empty set. */
  function Least(s: set<string>): (m: string)
    requires s != {}
    ensures m in s && forall y | y in s :: LessEq(m, y)
  {
    LeastExists(s);
    assert forall a, b | LessEq(a, b) && LessEq(b, a) :: a == b by {
      forall a, b | LessEq(a, b) && LessEq(b, a)
        ensures a == b
      {
        LessEqAntisym(a, b);
      }
    }
    var m :| m in s && forall y | y in s :: LessEq(m, y);
    m
  }

  /** The names of a set in increasing order. */
  function SortedSet(s: set<string>): (r: seq<string>)
    ensures StrictlySorted(r)
    ensures forall x :: x in r <==> x in s
    ensures |r| == |s|
    decreases |s|
  {
    if s == {} then []
    else
      var m := Least(s);
      var rest := SortedSet(s - {m});
      assert forall y | y in rest :: LessEq(m, y) && m != y;
      [m] + rest
  }

  // ---------------------------------------------------------------------
  // Decimal numerals, as Python's `f"{n}"` for a non-negative int.
  // ---------------------------------------------------------------------

  predicate IsDigit(c: char) {
    '0' <= c <= '9'
  }

  function DigitValue(c: char): (d: nat)
    requires IsDigit(c)
    ensures d < 10
  {
    (c as int) - ('0' as int)
  }

  function DigitChar(d: nat): (c: char)
    requires d < 10
    ensures IsDigit(c) && DigitValue(c) == d
  {
    ((('0' as int) + d) as char)
  }

  /** `str(n)` for a non-negative integer. */
  function NatToString(n: nat): (s: string)
    ensures |s| > 0
    ensures forall i | 0 <= i < |s| :: IsDigit(s[i])
    decreases n
  {
    if n < 10 then [DigitChar(n)] else NatToString(n / 10) + [DigitChar(n % 10)]
  }

  /** Reads a run of decimal digits back as a number. */
  function ParseNat(s: string): nat
    requires forall i | 0 <= i < |s| :: IsDigit(s[i])
    decreases |s|
  {
    if |s| == 0 then 0
    else 10 * ParseNat(s[..|s| - 1]) + DigitValue(s[|s| - 1])
  }

  /** Reading a rendered number gives the number back. */
  lemma {:induction false} ParseNatToString(n: nat)
    ensures ParseNat(NatToString(n)) == n
    decreases n
  {
    if n >= 10 {
      var s := NatToString(n);
      assert s[..|s| - 1] == NatToString(n / 10);
      ParseNatToString(n / 10);
    }
  }

  // ---------------------------------------------------------------------
  // Upper-casing (ASCII letters only).
  // ---------------------------------------------------------------------

  function UpperChar(c: char): char {
    if 'a' <= c <= 'z' then ((c as int) - 32) as char else c
  }

  /** `s.upper()` restricted to ASCII letters. */
  function Upper(s: string): (r: string)
    ensures |r| == |s|
    ensures forall i | 0 <= i < |s| :: r[i] == UpperChar(s[i])
  {
    seq(|s|, i requires 0 <= i < |s| => UpperChar(s[i]))
  }

  /** Upper-casing leaves no lower-case letter behind, so doing it twice is
      doing it once, and it changes a string exactly when the string holds
      a lower-case letter. */
  lemma UpperSpec(s: string)
    ensures forall i | 0 <= i < |Upper(s)| :: !('a' <= Upper(s)[i] <= 'z')
    ensures Upper(Upper(s)) == Upper(s)
    ensures Upper(s) == s <==> forall i | 0 <= i < |s| :: !('a' <= s[i] <= 'z')
  {
    assert forall i | 0 <= i < |s| :: Upper(Upper(s))[i] == Upper(s)[i];
    if forall i | 0 <= i < |s| :: !('a' <= s[i] <= 'z') {
      assert forall i | 0 <= i < |s| :: Upper(s)[i] == s[i];
    }
  }
  // ---------------------------------------------------------------------
  // Dictionary key order and `str.split`.
  // ---------------------------------------------------------------------

  predicate Distinct<T(==)>(xs: seq<T>) {
    forall i, j | 0 <= i < j < |xs| :: xs[i] != xs[j]
  }

  /** The keys of a dict after assigning `ks` in turn to one whose keys were
      `seen`: a new key goes to the end, an existing one keeps its place. */
  function InsertionOrder<T(==,!new)>(ks: seq<T>, seen: seq<T>): (r: seq<T>)
    requires Distinct(seen)
    ensures Distinct(r)
    ensures forall k :: k in r <==> k in seen || k in ks
    decreases |ks|
  {
    if |ks| == 0 then seen
    else InsertionOrder(ks[1..], if ks[0] in seen then seen else seen + [ks[0]])
  }

  lemma InsertionOrderOf<T(!new)>(ks: seq<T>)
    ensures Distinct(InsertionOrder(ks, []))
    ensures forall k :: k in InsertionOrder(ks, []) <==> k in ks
  {
  }

  /** Assigning keys that are all present already leaves the key order alone. */
  lemma {:induction false} InsertionOrderPresent<T(!new)>(ks: seq<T>, seen: seq<T>)
    requires Distinct(seen)
    requires forall i | 0 <= i < |ks| :: ks[i] in seen
    ensures InsertionOrder(ks, seen) == seen
    decreases |ks|
  {
    if |ks| > 0 {
      assert ks[0] in seen;
      assert forall i | 0 <= i < |ks[1..]| :: ks[1..][i] == ks[i + 1];
      InsertionOrderPresent(ks[1..], seen);
    }
  }

  /** `s.split(sep)` for a one-character separator: the pieces between the
      separators, an empty piece where two are adjacent or at either end. */
  function Split(s: string, sep: char): (parts: seq<string>)
    ensures |parts| >= 1
    decreases |s|
  {
    if |s| == 0 then [""]
    else if s[0] == sep then [""] + Split(s[1..], sep)
    else
      var rest := Split(s[1..], sep);
      [[s[0]] + rest[0]] + rest[1..]
  }

  /** Without a separator there is one piece, the whole text. */
  lemma {:induction false} SplitNone(s: string, sep: char)
    requires sep !in s
    ensures Split(s, sep) == [s]
    decreases |s|
  {
    if |s| > 0 {
      SplitNone(s[1..], sep);
      assert [s[0]] + s[1..] == s;
    }
  }

  /** A separator after a first piece free of separators splits it off. */
  lemma {:induction false} SplitFirst(a: string, b: string, sep: char)
    requires sep !in a
    ensures Split(a + [sep] + b, sep) == [a] + Split(b, sep)
    decreases |a|
  {
    if |a| == 0 {
      assert a + [sep] + b == [sep] + b;
      assert ([sep] + b)[1..] == b;
    } else {
      assert (a + [sep] + b)[1..] == a[1..] + [sep] + b;
      SplitFirst(a[1..], b, sep);
      assert [a[0]] + a[1..] == a;
    }
  }

  /** Joining the pieces with the separator gives the text back. */
  lemma {:induction false} SplitJoin(s: string, sep: char)
    ensures Join(Split(s, sep), [sep]) == s
    decreases |s|
  {
    if |s| > 0 {
      var rest := Split(s[1..], sep);
      SplitJoin(s[1..], sep);
      if s[0] == sep {
        assert Split(s, sep) == [""] + rest;
        JoinCons("", rest, [sep]);
        assert [sep] + s[1..] == s;
      } else {
        var parts := [[s[0]] + rest[0]] + rest[1..];
        assert rest == [rest[0]] + rest[1..];
        JoinCons(rest[0], rest[1..], [sep]);
        JoinCons([s[0]] + rest[0], rest[1..], [sep]);
        assert [s[0]] + s[1..] == s;
      }
    }
  }

  /** Joining a first part in front of the rest. */
  lemma JoinCons(a: string, rest: seq<string>, sep: string)
    ensures Join([a] + rest, sep) == if |rest| == 0 then a else a + sep + Join(rest, sep)
  {
    assert ([a] + rest)[1..] == rest;
  }

  /** The pieces split from joined separator-free parts are the parts. */
  lemma {:induction false} JoinSplit(parts: seq<string>, sep: char)
    requires |parts| >= 1
    requires forall i | 0 <= i < |parts| :: sep !in parts[i]
    ensures Split(Join(parts, [sep]), sep) == parts
    decreases |parts|
  {
    if |parts| == 1 {
      SplitNone(parts[0], sep);
    } else {
      assert forall i | 0 <= i < |parts[1..]| :: parts[1..][i] == parts[i + 1];
      JoinSplit(parts[1..], sep);
      SplitFirst(parts[0], Join(parts[1..], [sep]), sep);
      assert [parts[0]] + parts[1..] == parts;
    }
  }
}
