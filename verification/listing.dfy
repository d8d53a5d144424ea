/** Result sets: `ORDER BY nome` listings and id lists.

    Collation is modelled as code-point lexicographic order (`LexLe`), a
    total order on names. Rows with equal names come out in id order, one of
    the orders the database may choose. */
module Listing {
  import opened Schema

  /** `a` sorts no later than `b`. */
  predicate LexLe(a: string, b: string) {
    |a| == 0 || (|b| > 0 && (a[0] < b[0] || (a[0] == b[0] && LexLe(a[1..], b[1..]))))
  }

  lemma {:induction false} LexLeReflexive(a: string)
    ensures LexLe(a, a)
  {
    if |a| > 0 {
      LexLeReflexive(a[1..]);
    }
  }

  lemma {:induction false} LexLeTotal(a: string, b: string)
    ensures LexLe(a, b) || LexLe(b, a)
  {
    if |a| > 0 && |b| > 0 && a[0] == b[0] {
      LexLeTotal(a[1..], b[1..]);
    }
  }

  lemma {:induction false} LexLeAntisymmetric(a: string, b: string)
    requires LexLe(a, b) && LexLe(b, a)
    ensures a == b
  {
    if |a| > 0 && |b| > 0 {
      LexLeAntisymmetric(a[1..], b[1..]);
      assert a == [a[0]] + a[1..];
      assert b == [b[0]] + b[1..];
    }
  }

  lemma {:induction false} LexLeTransitive(a: string, b: string, c: string)
    requires LexLe(a, b) && LexLe(b, c)
    ensures LexLe(a, c)
  {
    if |a| > 0 && a[0] == b[0] && b[0] == c[0] {
      LexLeTransitive(a[1..], b[1..], c[1..]);
    }
  }

  /** Row `a` named `na` comes no later than row `b` named `nb`. */
  predicate Precedes(na: string, a: int, nb: string, b: int) {
    LexLe(na, nb) && (na == nb ==> a <= b)
  }

  /** `k` is the key among `keys` whose row comes first. */
  predicate IsFirst<R>(m: map<int, R>, name: R -> string, keys: set<int>, k: int)
    requires keys <= m.Keys
  {
    k in keys && forall j :: j in keys ==> Precedes(name(m[k]), k, name(m[j]), j)
  }

  /** Some element of a non-empty set. */
  lemma Pick<T>(s: set<T>) returns (y: T)
    requires s != {}
    ensures y in s
  {
    y :| y in s;
  }

  lemma {:induction false} FirstExists<R>(m: map<int, R>, name: R -> string, keys: set<int>)
    requires keys <= m.Keys && keys != {}
    ensures exists k :: IsFirst(m, name, keys, k)
    decreases keys
  {
    var y := Pick(keys);
    var rest := keys - {y};
    LexLeReflexive(name(m[y]));
    if rest == {} {
      assert keys == {y};
      assert IsFirst(m, name, keys, y);
    } else {
      FirstExists(m, name, rest);
      var k :| IsFirst(m, name, rest, k);
      var ny, nk := name(m[y]), name(m[k]);
      LexLeTotal(ny, nk);
      if Precedes(ny, y, nk, k) {
        forall j | j in keys
          ensures Precedes(ny, y, name(m[j]), j)
        {
          if j != y {
            var nj := name(m[j]);
            LexLeTransitive(ny, nk, nj);
            if ny == nj {
              LexLeAntisymmetric(ny, nk);
            }
          }
        }
        assert IsFirst(m, name, keys, y);
      } else {
        assert Precedes(nk, k, ny, y) by {
          if nk == ny {
            assert y > k;
          }
        }
        assert IsFirst(m, name, keys, k);
      }
    }
  }

  lemma FirstUnique<R>(m: map<int, R>, name: R -> string, keys: set<int>)
    requires keys <= m.Keys
    ensures forall a, b :: IsFirst(m, name, keys, a) && IsFirst(m, name, keys, b) ==> a == b
  {
    forall a, b | IsFirst(m, name, keys, a) && IsFirst(m, name, keys, b)
      ensures a == b
    {
      LexLeAntisymmetric(name(m[a]), name(m[b]));
    }
  }

  /** The key among `keys` whose row comes first. */
  function First<R>(m: map<int, R>, name: R -> string, keys: set<int>): (k: int)
    requires keys <= m.Keys && keys != {}
    ensures IsFirst(m, name, keys, k)
  {
    FirstExists(m, name, keys);
    FirstUnique(m, name, keys);
    var k :| IsFirst(m, name, keys, k);
    k
  }

  /** `rows` holds the rows of `m` with ids in `keys`, each exactly once. */
  ghost predicate ListsKeys<R>(rows: seq<Row<R>>, m: map<int, R>, keys: set<int>) {
    && (forall i :: 0 <= i < |rows| ==> rows[i].id in keys && rows[i].id in m && rows[i].fields == m[rows[i].id])
    && (forall k :: k in keys ==> exists i :: 0 <= i < |rows| && rows[i].id == k)
    && (forall i, j :: 0 <= i < j < |rows| ==> rows[i].id != rows[j].id)
  }

  /** `rows` holds every row of `m` exactly once. */
  ghost predicate ListsExactly<R>(rows: seq<Row<R>>, m: map<int, R>) {
    ListsKeys(rows, m, m.Keys)
  }

  /** Rows ordered by the `name` column. */
  predicate SortedByName<R>(rows: seq<Row<R>>, name: R -> string) {
    forall i, j :: 0 <= i < j < |rows| ==> LexLe(name(rows[i].fields), name(rows[j].fields))
  }

  /** Putting the first row in front of a listing of the other rows lists them all, in order. */
  lemma ConsFirst<R>(m: map<int, R>, name: R -> string, keys: set<int>, k: int, tail: seq<Row<R>>)
    requires keys <= m.Keys && IsFirst(m, name, keys, k)
    requires ListsKeys(tail, m, keys - {k}) && SortedByName(tail, name)
    ensures ListsKeys([Row(k, m[k])] + tail, m, keys)
    ensures SortedByName([Row(k, m[k])] + tail, name)
  {
    var rows := [Row(k, m[k])] + tail;
    forall x | x in keys
      ensures exists i :: 0 <= i < |rows| && rows[i].id == x
    {
      if x == k {
        assert rows[0].id == x;
      } else {
        assert x in keys - {k};
        var i :| 0 <= i < |tail| && tail[i].id == x;
        assert rows[i + 1].id == x;
      }
    }
    forall i, j | 0 <= i < j < |rows|
      ensures rows[i].id != rows[j].id
      ensures LexLe(name(rows[i].fields), name(rows[j].fields))
    {
      if i == 0 {
        assert rows[j] == tail[j - 1];
        assert Precedes(name(m[k]), k, name(m[rows[j].id]), rows[j].id);
      } else {
        assert rows[i] == tail[i - 1] && rows[j] == tail[j - 1];
      }
    }
  }

  /** The rows of `m` whose ids are in `keys`, ordered by name. */
  function ByName<R>(m: map<int, R>, name: R -> string, keys: set<int>): (rows: seq<Row<R>>)
    requires keys <= m.Keys
    ensures ListsKeys(rows, m, keys)
    ensures SortedByName(rows, name)
    decreases keys
  {
    if keys == {} then []
    else
      var k := First(m, name, keys);
      var tail := ByName(m, name, keys - {k});
      ConsFirst(m, name, keys, k, tail);
      [Row(k, m[k])] + tail
  }

  /** `SELECT * FROM … ORDER BY nome`. */
  function OrderByName<R>(m: map<int, R>, name: R -> string): (rows: seq<Row<R>>)
    ensures ListsExactly(rows, m)
    ensures SortedByName(rows, name)
  {
    ByName(m, name, m.Keys)
  }

  lemma {:induction false} MinExists(s: set<int>)
    requires s != {}
    ensures exists m :: m in s && forall x :: x in s ==> m <= x
    decreases s
  {
    var y := Pick(s);
    var rest := s - {y};
    if rest == {} {
      assert s == {y};
      assert forall x :: x in s ==> y <= x;
    } else {
      MinExists(rest);
      var m :| m in rest && forall x :: x in rest ==> m <= x;
      var w := if y < m then y else m;
      forall x | x in s
        ensures w <= x
      {
        if x != y {
          assert x in rest;
        }
      }
      assert w in s;
    }
  }

  /** The least element of a non-empty set. */
  function Min(s: set<int>): (m: int)
    requires s != {}
    ensures m in s && forall x :: x in s ==> m <= x
  {
    MinExists(s);
    var m :| m in s && forall x :: x in s ==> m <= x;
    m
  }

  /** The elements of `s` in increasing order: an `int[]` built from a set. */
  function Ascending(s: set<int>): (xs: seq<int>)
    ensures |xs| == |s|
    ensures forall x :: x in xs <==> x in s
    ensures forall i, j :: 0 <= i < j < |xs| ==> xs[i] < xs[j]
    decreases |s|
  {
    if s == {} then []
    else
      var m := Min(s);
      [m] + Ascending(s - {m})
  }

  /** The elements of `s` in decreasing order. */
  function Descending(s: set<int>): (xs: seq<int>)
    ensures |xs| == |s|
    ensures forall x :: x in xs <==> x in s
    ensures forall i, j :: 0 <= i < j < |xs| ==> xs[i] > xs[j]
    decreases |s|
  {
    if s == {} then []
    else
      var m := Min(s);
      Descending(s - {m}) + [m]
  }

  /** Every row of `m`, highest id first. Ids are handed out in creation
      order, so this is newest first. */
  function NewestFirst<R>(m: map<int, R>): (rows: seq<Row<R>>)
    ensures ListsExactly(rows, m)
    ensures forall i, j :: 0 <= i < j < |rows| ==> rows[i].id > rows[j].id
  {
    var ids := Descending(m.Keys);
    var rows := RowsOf(m, ids);
    NewestFirstLists(m, ids, rows);
    rows
  }

  /** The rows of `m` with the given ids, in that order. */
  function RowsOf<R>(m: map<int, R>, ids: seq<int>): (rows: seq<Row<R>>)
    requires forall i :: 0 <= i < |ids| ==> ids[i] in m
    ensures |rows| == |ids|
    ensures forall i :: 0 <= i < |ids| ==> rows[i] == Row(ids[i], m[ids[i]])
  {
    seq(|ids|, i requires 0 <= i < |ids| => Row(ids[i], m[ids[i]]))
  }

  lemma NewestFirstLists<R>(m: map<int, R>, ids: seq<int>, rows: seq<Row<R>>)
    requires forall x :: x in ids <==> x in m
    requires forall i, j :: 0 <= i < j < |ids| ==> ids[i] > ids[j]
    requires |rows| == |ids| && forall i :: 0 <= i < |ids| ==> ids[i] in m && rows[i] == Row(ids[i], m[ids[i]])
    ensures ListsExactly(rows, m)
    ensures forall i, j :: 0 <= i < j < |rows| ==> rows[i].id > rows[j].id
  {
  }
}
