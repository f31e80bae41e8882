/** `SELECT key, COUNT(*) ... GROUP BY key ORDER BY COUNT(*) DESC` over a
    sequence of row keys, independent of what the key is. The order among
    groups with equal counts is unspecified in SQL, so the properties below
    are stated for every answer satisfying `GroupedBy` and `CountDescending`,
    and `GroupAndSort` computes one such answer. */
module Grouping {

  /** One result row: a group key and the number of input rows in it. */
  datatype Group<K> = Group(key: K, count: nat)

  function Occurrences<K(==)>(xs: seq<K>, k: K): nat {
    multiset(xs)[k]
  }

  predicate HasKey<K(==)>(g: seq<Group<K>>, k: K) {
    exists i :: 0 <= i < |g| && g[i].key == k
  }

  predicate KeysDistinct<K(==)>(g: seq<Group<K>>) {
    forall i, j :: 0 <= i < j < |g| ==> g[i].key != g[j].key
  }

  /** `g` is a GROUP BY of the rows `xs`: one row per distinct key present,
      each carrying the number of rows with that key. */
  predicate GroupedBy<K(==)>(xs: seq<K>, g: seq<Group<K>>) {
    && KeysDistinct(g)
    && (forall i :: 0 <= i < |g| ==> g[i].key in xs && g[i].count == Occurrences(xs, g[i].key))
    && (forall x :: x in xs ==> HasKey(g, x))
  }

  /** ORDER BY count DESC. */
  predicate CountDescending<K>(g: seq<Group<K>>) {
    forall i, j :: 0 <= i < j < |g| ==> g[i].count >= g[j].count
  }

  function SumCounts<K>(g: seq<Group<K>>): nat {
    if g == [] then 0 else g[0].count + SumCounts(g[1..])
  }

  // ---------------------------------------------------------------------
  // Computing a grouping
  // ---------------------------------------------------------------------

  /** Counts one more row with key `x`. */
  function Bump<K(==)>(g: seq<Group<K>>, x: K): (r: seq<Group<K>>)
    requires KeysDistinct(g)
    ensures KeysDistinct(r)
    ensures HasKey(g, x) ==> |r| == |g|
    ensures !HasKey(g, x) ==> r == g + [Group(x, 1)]
    ensures forall i :: 0 <= i < |g| ==>
              r[i].key == g[i].key && r[i].count == g[i].count + (if g[i].key == x then 1 else 0)
  {
    if g == [] then [Group(x, 1)]
    else if g[0].key == x then [Group(x, g[0].count + 1)] + g[1..]
    else
      var rest := Bump(g[1..], x);
      HasKeyTail(g, x);
      [g[0]] + rest
  }

  /** A key other than the head's is in the groups exactly when it is in
      their tail. */
  lemma HasKeyTail<K>(g: seq<Group<K>>, x: K)
    requires g != [] && g[0].key != x
    ensures HasKey(g, x) <==> HasKey(g[1..], x)
  {
    if HasKey(g, x) {
      var i :| 0 <= i < |g| && g[i].key == x;
      assert g[1..][i - 1].key == x;
    }
    if HasKey(g[1..], x) {
      var i :| 0 <= i < |g| - 1 && g[1..][i].key == x;
      assert g[i + 1].key == x;
    }
  }

  lemma BumpGroups<K>(xs: seq<K>, g: seq<Group<K>>, x: K)
    requires GroupedBy(xs, g)
    ensures GroupedBy(xs + [x], Bump(g, x))
  {
    var ys, r := xs + [x], Bump(g, x);
    assert multiset(ys) == multiset(xs) + multiset{x};
    forall i | 0 <= i < |r|
      ensures r[i].key in ys && r[i].count == Occurrences(ys, r[i].key)
    {
      if i >= |g| {
        assert r[i] == Group(x, 1);
        assert !(x in xs);
      }
    }
    forall y | y in ys
      ensures HasKey(r, y)
    {
      if y in xs {
        var i :| 0 <= i < |g| && g[i].key == y;
        assert r[i].key == y;
      } else {
        assert y == x;
        assert !HasKey(g, x) by {
          forall i | 0 <= i < |g| ensures g[i].key != x {
            assert g[i].key in xs;
          }
        }
        assert r[|g|].key == x;
      }
    }
  }

  /** Groups the rows in order of first appearance. */
  function Tally<K(==)>(xs: seq<K>): (g: seq<Group<K>>)
    ensures GroupedBy(xs, g)
  {
    if xs == [] then []
    else
      var init := xs[..|xs| - 1];
      assert xs == init + [xs[|xs| - 1]];
      BumpGroups(init, Tally(init), xs[|xs| - 1]);
      Bump(Tally(init), xs[|xs| - 1])
  }

  lemma ConsDescending<K>(x: Group<K>, s: seq<Group<K>>)
    requires CountDescending(s)
    requires forall i :: 0 <= i < |s| ==> s[i].count <= x.count
    ensures CountDescending([x] + s)
  {
    forall i, j | 0 <= i < j < |s| + 1 ensures ([x] + s)[i].count >= ([x] + s)[j].count {
      assert ([x] + s)[j] == s[j - 1];
      if i > 0 {
        assert ([x] + s)[i] == s[i - 1];
      }
    }
  }

  lemma ConsDistinct<K>(x: Group<K>, s: seq<Group<K>>)
    requires KeysDistinct(s)
    requires !HasKey(s, x.key)
    ensures KeysDistinct([x] + s)
  {
    forall i, j | 0 <= i < j < |s| + 1 ensures ([x] + s)[i].key != ([x] + s)[j].key {
      assert ([x] + s)[j] == s[j - 1];
      if i > 0 {
        assert ([x] + s)[i] == s[i - 1];
      }
    }
  }

  /** Places `x` before the first row whose count it reaches. */
  function Insert<K(==)>(x: Group<K>, s: seq<Group<K>>): (r: seq<Group<K>>)
    ensures multiset(r) == multiset(s) + multiset{x}
    ensures CountDescending(s) ==> CountDescending(r)
    ensures KeysDistinct(s) && !HasKey(s, x.key) ==> KeysDistinct(r)
  {
    if s == [] || x.count >= s[0].count then
      InsertFront(x, s);
      [x] + s
    else
      var rest := Insert(x, s[1..]);
      InsertBehind(x, s, rest);
      [s[0]] + rest
  }

  lemma InsertFront<K>(x: Group<K>, s: seq<Group<K>>)
    requires s == [] || x.count >= s[0].count
    ensures CountDescending(s) ==> CountDescending([x] + s)
    ensures KeysDistinct(s) && !HasKey(s, x.key) ==> KeysDistinct([x] + s)
  {
    if CountDescending(s) {
      ConsDescending(x, s);
    }
    if KeysDistinct(s) && !HasKey(s, x.key) {
      ConsDistinct(x, s);
    }
  }

  lemma InsertBehind<K>(x: Group<K>, s: seq<Group<K>>, rest: seq<Group<K>>)
    requires s != [] && x.count < s[0].count
    requires multiset(rest) == multiset(s[1..]) + multiset{x}
    requires CountDescending(s[1..]) ==> CountDescending(rest)
    requires KeysDistinct(s[1..]) && !HasKey(s[1..], x.key) ==> KeysDistinct(rest)
    ensures multiset([s[0]] + rest) == multiset(s) + multiset{x}
    ensures CountDescending(s) ==> CountDescending([s[0]] + rest)
    ensures KeysDistinct(s) && !HasKey(s, x.key) ==> KeysDistinct([s[0]] + rest)
  {
    assert s == [s[0]] + s[1..];
    forall i | 0 <= i < |rest| ensures rest[i] == x || rest[i] in s[1..] {
      assert rest[i] in multiset(rest);
    }
    if CountDescending(s) {
      assert CountDescending(s[1..]);
      forall i | 0 <= i < |rest| ensures rest[i].count <= s[0].count {
        if rest[i] != x {
          var j :| 0 <= j < |s| - 1 && s[1..][j] == rest[i];
          assert s[1..][j] == s[j + 1];
        }
      }
      ConsDescending(s[0], rest);
    }
    if KeysDistinct(s) && !HasKey(s, x.key) {
      assert KeysDistinct(s[1..]);
      assert !HasKey(s[1..], x.key) by {
        forall i | 0 <= i < |s| - 1 ensures s[1..][i].key != x.key {
          assert s[1..][i] == s[i + 1];
        }
      }
      assert !HasKey(rest, s[0].key) by {
        forall i | 0 <= i < |rest| ensures rest[i].key != s[0].key {
          if rest[i] != x {
            var j :| 0 <= j < |s| - 1 && s[1..][j] == rest[i];
            assert s[1..][j] == s[j + 1];
          }
        }
      }
      ConsDistinct(s[0], rest);
    }
  }

  /** Insertion sort by count, descending; equal counts keep their order. */
  function SortByCountDesc<K(==)>(g: seq<Group<K>>): (r: seq<Group<K>>)
    ensures multiset(r) == multiset(g)
    ensures CountDescending(r)
    ensures KeysDistinct(g) ==> KeysDistinct(r)
  {
    if g == [] then []
    else
      var rest := SortByCountDesc(g[1..]);
      HeadKeyNotInTail(g, rest);
      assert g == [g[0]] + g[1..];
      Insert(g[0], rest)
  }

  /** With distinct keys, the head's key is absent from any reordering of
      the tail. */
  lemma HeadKeyNotInTail<K>(g: seq<Group<K>>, rest: seq<Group<K>>)
    requires g != [] && multiset(rest) == multiset(g[1..])
    ensures KeysDistinct(g) ==> !HasKey(rest, g[0].key)
  {
    if KeysDistinct(g) {
      forall i | 0 <= i < |rest| ensures rest[i].key != g[0].key {
        assert rest[i] in multiset(g[1..]);
        var j :| 0 <= j < |g| - 1 && g[1..][j] == rest[i];
        assert g[1..][j] == g[j + 1];
      }
    }
  }

  /** Reordering the rows of a grouping leaves it a grouping. */
  lemma GroupedByPermutation<K>(xs: seq<K>, a: seq<Group<K>>, b: seq<Group<K>>)
    requires GroupedBy(xs, a)
    requires multiset(a) == multiset(b) && KeysDistinct(b)
    ensures GroupedBy(xs, b)
  {
    forall i | 0 <= i < |b|
      ensures b[i].key in xs && b[i].count == Occurrences(xs, b[i].key)
    {
      assert b[i] in multiset(a);
    }
    forall x | x in xs
      ensures HasKey(b, x)
    {
      var i :| 0 <= i < |a| && a[i].key == x;
      assert a[i] in multiset(b);
      var j :| 0 <= j < |b| && b[j] == a[i];
    }
  }

  /** The full `GROUP BY ... ORDER BY COUNT(*) DESC`. */
  function GroupAndSort<K(==)>(xs: seq<K>): (g: seq<Group<K>>)
    ensures GroupedBy(xs, g)
    ensures CountDescending(g)
  {
    var t := Tally(xs);
    var s := SortByCountDesc(t);
    GroupedByPermutation(xs, t, s);
    s
  }

  // ---------------------------------------------------------------------
  // Properties of every grouping
  // ---------------------------------------------------------------------

  /** The rows other than those with key `k`. */
  function Without<K(==)>(xs: seq<K>, k: K): (r: seq<K>)
    ensures multiset(r) == multiset(xs)[k := 0]
    ensures |r| + Occurrences(xs, k) == |xs|
  {
    if xs == [] then []
    else
      assert xs == [xs[0]] + xs[1..];
      (if xs[0] == k then [] else [xs[0]]) + Without(xs[1..], k)
  }

  /** Group counts add up to the number of rows, whatever the row order. */
  lemma {:induction false} SumOfGroupCounts<K>(xs: seq<K>, g: seq<Group<K>>)
    requires GroupedBy(xs, g)
    ensures SumCounts(g) == |xs|
    decreases |g|
  {
    if g == [] {
      forall y ensures multiset(xs)[y] == 0 {
        assert !HasKey(g, y);
      }
      assert multiset(xs) == multiset{};
    } else {
      var k := g[0].key;
      var ys := Without(xs, k);
      var rest := g[1..];
      forall i | 0 <= i < |rest|
        ensures rest[i].key in ys && rest[i].count == Occurrences(ys, rest[i].key)
      {
        assert rest[i] == g[i + 1];
        assert Occurrences(ys, rest[i].key) == Occurrences(xs, rest[i].key);
        assert rest[i].key in multiset(ys);
      }
      forall y | y in ys
        ensures HasKey(rest, y)
      {
        assert y in multiset(ys);
        assert y != k && y in multiset(xs);
        assert y in xs;
        var i :| 0 <= i < |g| && g[i].key == y;
        assert rest[i - 1].key == y;
      }
      SumOfGroupCounts(ys, rest);
    }
  }

  /** Two groupings of the same rows hold the same rows: SQL's answer and
      the model's differ at most in the order of equal counts. */
  lemma GroupingsAgree<K>(xs: seq<K>, a: seq<Group<K>>, b: seq<Group<K>>)
    requires GroupedBy(xs, a) && GroupedBy(xs, b)
    ensures forall e :: e in a <==> e in b
  {
    forall e | e in a ensures e in b {
      var i :| 0 <= i < |a| && a[i] == e;
      var j :| 0 <= j < |b| && b[j].key == e.key;
    }
    forall e | e in b ensures e in a {
      var i :| 0 <= i < |b| && b[i] == e;
      var j :| 0 <= j < |a| && a[j].key == e.key;
    }
  }

  /** Every group is non-empty and no group holds more rows than there are. */
  lemma GroupCountBounds<K>(xs: seq<K>, g: seq<Group<K>>)
    requires GroupedBy(xs, g)
    ensures forall i :: 0 <= i < |g| ==> 1 <= g[i].count <= |xs|
  {
    forall i | 0 <= i < |g| ensures 1 <= g[i].count <= |xs| {
      assert g[i].key in multiset(xs);
    }
  }

  lemma {:induction false} SumAtLeastLength<K>(g: seq<Group<K>>)
    requires forall i :: 0 <= i < |g| ==> 1 <= g[i].count
    ensures |g| <= SumCounts(g)
  {
    if g != [] {
      SumAtLeastLength(g[1..]);
    }
  }

  /** A grouping never has more groups than there are rows. */
  lemma GroupsAtMostRows<K>(xs: seq<K>, g: seq<Group<K>>)
    requires GroupedBy(xs, g)
    ensures |g| <= |xs|
  {
    GroupCountBounds(xs, g);
    SumAtLeastLength(g);
    SumOfGroupCounts(xs, g);
  }

  /** Two different rows form two groups of one row each. */
  lemma TwoDistinctRows<K>(a: K, b: K, g: seq<Group<K>>)
    requires a != b && GroupedBy([a, b], g)
    ensures |g| == 2
    ensures forall i :: 0 <= i < |g| ==> g[i].count == 1 && (g[i].key == a || g[i].key == b)
  {
    var xs := [a, b];
    assert multiset(xs)[a] == 1 && multiset(xs)[b] == 1;
    assert a in xs && b in xs;
    assert HasKey(g, a) && HasKey(g, b);
    var i0 :| 0 <= i0 < |g| && g[i0].key == a;
    var i1 :| 0 <= i1 < |g| && g[i1].key == b;
    assert i0 != i1;
    GroupsAtMostRows(xs, g);
  }

  /** The facts every grouping satisfies, together. */
  lemma GroupingFacts<K>(xs: seq<K>, g: seq<Group<K>>)
    requires GroupedBy(xs, g)
    ensures SumCounts(g) == |xs|
    ensures |g| <= |xs|
    ensures forall i :: 0 <= i < |g| ==> 1 <= g[i].count <= |xs|
  {
    SumOfGroupCounts(xs, g);
    GroupsAtMostRows(xs, g);
    GroupCountBounds(xs, g);
  }
}
