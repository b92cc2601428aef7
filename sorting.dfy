/** Ordering of table rows (pandas `sort_values` over up to three columns),
    `Series.unique()` and the boolean-mask selection `df[df[col] == c]`
    that the per-chromosome drivers use. */
module Sorting {
  import opened Strings

  // ---------------------------------------------------------------------
  // Sort keys.
  // ---------------------------------------------------------------------

  /** A sort key: a string column, then two integer columns, compared in
      that order (a key over two columns leaves `minor` at 0). */
  datatype Key = Key(text: string, major: int, minor: int)

  /** Ascending order on keys, as `sort_values(by=[...], ascending=True)`. */
  predicate KeyLe(x: Key, y: Key)
  {
    StrLess(x.text, y.text)
    || (x.text == y.text && (x.major < y.major || (x.major == y.major && x.minor <= y.minor)))
  }

  lemma {:induction false} KeyLeTotal(x: Key, y: Key)
    ensures KeyLe(x, y) || KeyLe(y, x)
  {
    StrLessTrichotomy(x.text, y.text);
  }

  lemma {:induction false} KeyLeTransitive(x: Key, y: Key, z: Key)
    requires KeyLe(x, y) && KeyLe(y, z)
    ensures KeyLe(x, z)
  {
    if StrLess(x.text, y.text) && StrLess(y.text, z.text) {
      StrLessTransitive(x.text, y.text, z.text);
    }
  }

  /** Every pair of rows is in key order. */
  predicate SortedBy<T>(s: seq<T>, key: T -> Key)
  {
    forall i, j :: 0 <= i < j < |s| ==> KeyLe(key(s[i]), key(s[j]))
  }

  // ---------------------------------------------------------------------
  // A stable sort.
  // ---------------------------------------------------------------------

  /** Inserts `x` in front of the first row it does not follow. */
  function Insert<T>(x: T, s: seq<T>, key: T -> Key): seq<T>
  {
    if |s| == 0 then [x]
    else if KeyLe(key(x), key(s[0])) then [x] + s
    else [s[0]] + Insert(x, s[1..], key)
  }

  /** `sort_values` by `key`; rows with equal keys keep their input order. */
  function SortBy<T>(s: seq<T>, key: T -> Key): seq<T>
  {
    if |s| == 0 then [] else Insert(s[0], SortBy(s[1..], key), key)
  }

  lemma {:induction false} InsertPermutes<T>(x: T, s: seq<T>, key: T -> Key)
    ensures multiset(Insert(x, s, key)) == multiset(s) + multiset{x}
    decreases |s|
  {
    if |s| > 0 && !KeyLe(key(x), key(s[0])) {
      InsertPermutes(x, s[1..], key);
      assert s == [s[0]] + s[1..];
    }
  }

  lemma {:induction false} InsertSorted<T>(x: T, s: seq<T>, key: T -> Key)
    requires SortedBy(s, key)
    ensures SortedBy(Insert(x, s, key), key)
    decreases |s|
  {
    if |s| == 0 {
    } else if KeyLe(key(x), key(s[0])) {
      var r := [x] + s;
      forall i, j | 0 <= i < j < |r| ensures KeyLe(key(r[i]), key(r[j])) {
        if i == 0 && j > 1 {
          KeyLeTransitive(key(x), key(s[0]), key(s[j - 1]));
        }
      }
    } else {
      KeyLeTotal(key(x), key(s[0]));
      var t := Insert(x, s[1..], key);
      InsertSorted(x, s[1..], key);
      InsertPermutes(x, s[1..], key);
      var r := [s[0]] + t;
      forall j | 0 <= j < |t| ensures KeyLe(key(s[0]), key(t[j])) {
        assert t[j] in multiset(t);
        if t[j] != x {
          assert t[j] in multiset(s[1..]);
          var k :| 0 <= k < |s[1..]| && s[1..][k] == t[j];
          assert s[k + 1] == t[j];
        }
      }
      assert Insert(x, s, key) == r;
      forall i, j | 0 <= i < j < |r| ensures KeyLe(key(r[i]), key(r[j])) {
        if i > 0 {
          assert r[i] == t[i - 1] && r[j] == t[j - 1];
        } else {
          assert r[j] == t[j - 1];
        }
      }
    }
  }

  /** The sorted table is in key order and holds exactly the input rows. */
  lemma {:induction false} SortBySpec<T>(s: seq<T>, key: T -> Key)
    ensures SortedBy(SortBy(s, key), key)
    ensures multiset(SortBy(s, key)) == multiset(s)
    decreases |s|
  {
    if |s| > 0 {
      var t := SortBy(s[1..], key);
      assert SortBy(s, key) == Insert(s[0], t, key);
      SortBySpec(s[1..], key);
      InsertSorted(s[0], t, key);
      InsertPermutes(s[0], t, key);
      assert s == [s[0]] + s[1..];
    }
  }

  // ---------------------------------------------------------------------
  // Series.unique(): distinct values in order of first appearance.
  // ---------------------------------------------------------------------

  /** The first position of `x` in `s`. */
  function FirstIndex<T(==)>(s: seq<T>, x: T): (i: nat)
    requires x in s
    ensures i < |s| && s[i] == x
    ensures forall j :: 0 <= j < i ==> s[j] != x
  {
    if s[0] == x then 0 else 1 + FirstIndex(s[1..], x)
  }

  lemma {:induction false} FirstIndexExtend<T>(p: seq<T>, y: T, z: T)
    requires z in p
    ensures FirstIndex(p + [y], z) == FirstIndex(p, z)
  {
    var i1 := FirstIndex(p + [y], z);
    var i2 := FirstIndex(p, z);
    assert (p + [y])[i2] == z;
  }

  /** The distinct values of `s`, each once, in order of first appearance. */
  function Unique<T(==)>(s: seq<T>): seq<T>
    decreases |s|
  {
    if |s| == 0 then []
    else
      var u := Unique(s[..|s| - 1]);
      if s[|s| - 1] in u then u else u + [s[|s| - 1]]
  }

  /** No value repeats, every value of `s` is there, and values are listed
      in the order in which they first appear in `s`. */
  lemma {:induction false} UniqueSpec<T>(s: seq<T>)
    ensures var u := Unique(s);
      (forall i, j :: 0 <= i < j < |u| ==> u[i] != u[j])
      && (forall x :: x in u <==> x in s)
      && (forall i, j :: 0 <= i < j < |u| ==> FirstIndex(s, u[i]) < FirstIndex(s, u[j]))
    decreases |s|
  {
    if |s| > 0 {
      var p, y := s[..|s| - 1], s[|s| - 1];
      assert s == p + [y];
      UniqueSpec(p);
      var u := Unique(p);
      assert forall x :: x in u <==> x in p;
      forall x | x in p ensures FirstIndex(s, x) == FirstIndex(p, x) {
        FirstIndexExtend(p, y, x);
      }
      if y !in u {
        var v := u + [y];
        assert FirstIndex(s, y) == |p| by {
          assert forall j :: 0 <= j < |p| ==> s[j] == p[j];
        }
        forall i, j | 0 <= i < j < |v| ensures FirstIndex(s, v[i]) < FirstIndex(s, v[j]) {
          if j == |u| {
            assert v[i] == u[i] && v[i] in u;
          } else {
            assert v[i] == u[i] && v[j] == u[j] && v[i] in u && v[j] in u;
          }
        }
      }
    }
  }

  // ---------------------------------------------------------------------
  // Boolean-mask selection and the per-field grouping built from it.
  // ---------------------------------------------------------------------

  /** `df[df[field] == c]`: the rows whose field is `c`, in table order. */
  function Select<T>(s: seq<T>, field: T -> string, c: string): (r: seq<T>)
    ensures forall k :: 0 <= k < |r| ==> field(r[k]) == c
    ensures multiset(r) <= multiset(s)
    ensures forall x :: x in s && field(x) == c ==> x in r
    decreases |s|
  {
    if |s| == 0 then []
    else
      var p, x := s[..|s| - 1], s[|s| - 1];
      assert s == p + [x];
      Select(p, field, c) + (if field(x) == c then [x] else [])
  }

  /** How often a row occurs in a selection: as often as in the table if
      its field matches, never otherwise. */
  lemma {:induction false} SelectCount<T>(s: seq<T>, field: T -> string, c: string, x: T)
    ensures multiset(Select(s, field, c))[x] == if field(x) == c then multiset(s)[x] else 0
    decreases |s|
  {
    if |s| > 0 {
      var p, y := s[..|s| - 1], s[|s| - 1];
      assert s == p + [y];
      SelectCount(p, field, c, x);
    }
  }

  /** Selecting from a union of two tables, of which only the first has
      field `c` throughout, gives back the first. */
  lemma {:induction false} SelectOfUnion<T>(s: seq<T>, a: seq<T>, b: seq<T>, field: T -> string, c: string)
    requires multiset(s) == multiset(a) + multiset(b)
    requires forall k :: 0 <= k < |a| ==> field(a[k]) == c
    requires forall k :: 0 <= k < |b| ==> field(b[k]) != c
    ensures multiset(Select(s, field, c)) == multiset(a)
  {
    forall x ensures multiset(Select(s, field, c))[x] == multiset(a)[x] {
      SelectCount(s, field, c, x);
      if x in b {
        var k :| 0 <= k < |b| && b[k] == x;
      }
      if x in a {
        var k :| 0 <= k < |a| && a[k] == x;
      }
    }
  }

  /** Selecting from a concatenation selects from each part. */
  lemma {:induction false} SelectAppend<T>(a: seq<T>, b: seq<T>, field: T -> string, c: string)
    ensures Select(a + b, field, c) == Select(a, field, c) + Select(b, field, c)
    decreases |b|
  {
    if |b| == 0 {
      assert a + b == a;
    } else {
      var p, y := b[..|b| - 1], b[|b| - 1];
      assert a + b == (a + p) + [y];
      assert (a + b)[..|a + b| - 1] == a + p;
      SelectAppend(a, p, field, c);
    }
  }

  /** A table whose field is `c` throughout is its own selection. */
  lemma {:induction false} SelectAll<T>(s: seq<T>, field: T -> string, c: string)
    requires forall k :: 0 <= k < |s| ==> field(s[k]) == c
    ensures Select(s, field, c) == s
    decreases |s|
  {
    if |s| > 0 {
      var p := s[..|s| - 1];
      SelectAll(p, field, c);
      assert s == p + [s[|s| - 1]];
    }
  }

  /** The selection is empty exactly when no row has field `c`. */
  lemma {:induction false} SelectEmpty<T>(s: seq<T>, field: T -> string, c: string)
    ensures Select(s, field, c) == [] <==> forall k :: 0 <= k < |s| ==> field(s[k]) != c
  {
    if exists k :: 0 <= k < |s| && field(s[k]) == c {
      var k :| 0 <= k < |s| && field(s[k]) == c;
      assert s[k] in Select(s, field, c);
    } else {
      var r := Select(s, field, c);
      assert forall x :: x in multiset(r) ==> x in s;
    }
  }

  /** The field column of a table. */
  function Column<T>(s: seq<T>, field: T -> string): (ls: seq<string>)
    ensures |ls| == |s|
    ensures forall k :: 0 <= k < |s| ==> ls[k] == field(s[k])
  {
    seq(|s|, k requires 0 <= k < |s| => field(s[k]))
  }

  /** The per-field selections, concatenated in the order of `cs`. */
  function Grouped<T>(s: seq<T>, field: T -> string, cs: seq<string>): seq<T>
    decreases |cs|
  {
    if |cs| == 0 then [] else Select(s, field, cs[0]) + Grouped(s, field, cs[1..])
  }

  predicate Distinct(cs: seq<string>)
  {
    forall i, j :: 0 <= i < j < |cs| ==> cs[i] != cs[j]
  }

  lemma {:induction false} GroupedEmpty<T>(field: T -> string, cs: seq<string>)
    ensures Grouped([], field, cs) == []
    decreases |cs|
  {
    if |cs| > 0 {
      GroupedEmpty(field, cs[1..]);
    }
  }

  lemma {:induction false} GroupedExtend<T>(p: seq<T>, x: T, field: T -> string, cs: seq<string>)
    requires Distinct(cs)
    ensures multiset(Grouped(p + [x], field, cs))
         == multiset(Grouped(p, field, cs)) + (if field(x) in cs then multiset{x} else multiset{})
    decreases |cs|
  {
    if |cs| > 0 {
      assert (p + [x])[..|p|] == p;
      GroupedExtend(p, x, field, cs[1..]);
      if field(x) == cs[0] {
        assert field(x) !in cs[1..] by {
          forall k | 0 <= k < |cs[1..]| ensures cs[1..][k] != field(x) {
            assert cs[1..][k] == cs[k + 1];
          }
        }
      }
    }
  }

  lemma {:induction false} GroupedCovering<T>(s: seq<T>, field: T -> string, cs: seq<string>)
    requires Distinct(cs)
    requires forall k :: 0 <= k < |s| ==> field(s[k]) in cs
    ensures multiset(Grouped(s, field, cs)) == multiset(s)
    decreases |s|
  {
    if |s| == 0 {
      GroupedEmpty(field, cs);
    } else {
      var p, x := s[..|s| - 1], s[|s| - 1];
      assert s == p + [x];
      GroupedCovering(p, field, cs);
      GroupedExtend(p, x, field, cs);
    }
  }

  /** The groups for one more value follow the groups already taken. */
  lemma {:induction false} GroupedSnoc<T>(s: seq<T>, field: T -> string, cs: seq<string>, c: string)
    ensures Grouped(s, field, cs + [c]) == Grouped(s, field, cs) + Select(s, field, c)
    decreases |cs|
  {
    if |cs| == 0 {
      assert [c][1..] == [];
    } else {
      assert (cs + [c])[1..] == cs[1..] + [c];
      GroupedSnoc(s, field, cs[1..], c);
    }
  }

  /** Splitting a table by the unique values of a column and concatenating
      the pieces is a permutation of the table. */
  lemma {:induction false} GroupedByUniqueValues<T>(s: seq<T>, field: T -> string)
    ensures multiset(Grouped(s, field, Unique(Column(s, field)))) == multiset(s)
  {
    var ls := Column(s, field);
    UniqueSpec(ls);
    assert Distinct(Unique(ls));
    forall k | 0 <= k < |s| ensures field(s[k]) in Unique(ls) {
      assert ls[k] in ls;
    }
    GroupedCovering(s, field, Unique(ls));
  }

  /** A selection from a key-sorted table by the key's own field is itself
      sorted. */
  lemma {:induction false} SelectKeepsOrder<T>(s: seq<T>, key: T -> Key, field: T -> string, c: string)
    requires SortedBy(s, key)
    ensures SortedBy(Select(s, field, c), key)
    decreases |s|
  {
    if |s| > 0 {
      var p, x := s[..|s| - 1], s[|s| - 1];
      assert s == p + [x];
      SelectKeepsOrder(p, key, field, c);
      var q := Select(p, field, c);
      if field(x) == c {
        forall k | 0 <= k < |q| ensures KeyLe(key(q[k]), key(x)) {
          assert q[k] in multiset(q);
          assert q[k] in multiset(p);
          var m :| 0 <= m < |p| && p[m] == q[k];
          assert s[m] == q[k];
        }
        var r := q + [x];
        forall i, j | 0 <= i < j < |r| ensures KeyLe(key(r[i]), key(r[j])) {
          if j < |q| {
            assert r[i] == q[i] && r[j] == q[j];
          } else {
            assert r[i] == q[i];
          }
        }
      }
    }
  }
}
