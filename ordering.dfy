/** The two orders the data frame sorts by: group keys in Python's string
    order (groupby sorts its keys), and values descending with missing values
    last (sort_values(ascending=False), na_position='last'). */
module Ordering {
  import opened Tables

  /** Python's `a < b` on strings: code point by code point, a proper prefix first. */
  predicate LexLess(a: string, b: string) {
    if b == [] then false
    else if a == [] then true
    else if a[0] != b[0] then a[0] < b[0]
    else LexLess(a[1..], b[1..])
  }

  lemma {:induction false} LexLessIrreflexive(a: string)
    ensures !LexLess(a, a)
  {
    if a != [] {
      LexLessIrreflexive(a[1..]);
    }
  }

  lemma {:induction false} LexLessTrichotomy(a: string, b: string)
    ensures a == b || LexLess(a, b) || LexLess(b, a)
  {
    if a != [] && b != [] && a[0] == b[0] {
      LexLessTrichotomy(a[1..], b[1..]);
      if a[1..] == b[1..] {
        assert a == [a[0]] + a[1..] && b == [b[0]] + b[1..];
      }
    }
  }

  lemma {:induction false} LexLessTransitive(a: string, b: string, c: string)
    requires LexLess(a, b) && LexLess(b, c)
    ensures LexLess(a, c)
  {
    if a != [] && a[0] == b[0] && b[0] == c[0] {
      LexLessTransitive(a[1..], b[1..], c[1..]);
    }
  }

  predicate StrictlyIncreasing(s: seq<string>) {
    forall i, j :: 0 <= i < j < |s| ==> LexLess(s[i], s[j])
  }

  lemma StrictlyIncreasingIsDistinct(s: seq<string>)
    requires StrictlyIncreasing(s)
    ensures NoDuplicates(s)
  {
    forall i, j | 0 <= i < j < |s|
      ensures s[i] != s[j]
    {
      LexLessIrreflexive(s[i]);
    }
  }

  /** Adds key x to the strictly increasing keys s, unless it is there already. */
  function InsertKey(x: string, s: seq<string>): (r: seq<string>)
    requires StrictlyIncreasing(s)
    ensures StrictlyIncreasing(r)
    ensures forall y :: y in r <==> y == x || y in s
  {
    if s == [] then [x]
    else if x == s[0] then s
    else if LexLess(x, s[0]) then
      assert StrictlyIncreasing([x] + s) by {
        forall j | 0 <= j < |s|
          ensures LexLess(x, s[j])
        {
          if j > 0 {
            LexLessTransitive(x, s[0], s[j]);
          }
        }
      }
      [x] + s
    else
      LexLessTrichotomy(x, s[0]);
      var rest := InsertKey(x, s[1..]);
      assert forall y :: y in s[1..] ==> LexLess(s[0], y);
      assert StrictlyIncreasing([s[0]] + rest);
      assert forall y :: y in s <==> y == s[0] || y in s[1..] by {
        assert s == [s[0]] + s[1..];
      }
      [s[0]] + rest
  }

  /** a may stand before b when sorting descending with missing values last. */
  predicate DescLe(a: Cell, b: Cell) {
    b.None? || (a.Some? && a.value >= b.value)
  }

  /** a stands strictly before b in that order. */
  predicate DescLess(a: Cell, b: Cell) {
    !DescLe(b, a)
  }

  predicate NonIncreasing<T>(s: seq<T>, key: T -> Cell) {
    forall i, j :: 0 <= i < j < |s| ==> DescLe(key(s[i]), key(s[j]))
  }

  /** x may stand before a non-increasing s whose first key it does not exceed. */
  lemma ConsNonIncreasing<T>(x: T, s: seq<T>, key: T -> Cell)
    requires NonIncreasing(s, key) && (s == [] || DescLe(key(x), key(s[0])))
    ensures NonIncreasing([x] + s, key)
  {
    forall i, j | 0 <= i < j < |s| + 1
      ensures DescLe(key(([x] + s)[i]), key(([x] + s)[j]))
    {
      if i > 0 {
        assert ([x] + s)[i] == s[i - 1];
      }
      assert ([x] + s)[j] == s[j - 1];
    }
  }

  /** The head of a non-increasing s may stand before s's tail with x inserted,
      when x ranks below the head. */
  lemma HeadBeforeRest<T>(x: T, s: seq<T>, rest: seq<T>, key: T -> Cell)
    requires s != [] && NonIncreasing(s, key) && !DescLe(key(x), key(s[0]))
    requires NonIncreasing(rest, key) && multiset(rest) == multiset(s[1..]) + multiset{x}
    ensures NonIncreasing([s[0]] + rest, key)
  {
    forall j | 0 <= j < |rest|
      ensures DescLe(key(s[0]), key(rest[j]))
    {
      assert rest[j] in multiset(rest);
      if rest[j] != x {
        assert rest[j] in multiset(s[1..]);
        var q :| 0 <= q < |s[1..]| && s[1..][q] == rest[j];
        assert s[q + 1] == rest[j];
      }
    }
    ConsNonIncreasing(s[0], rest, key);
  }

  function InsertDesc<T>(x: T, s: seq<T>, key: T -> Cell): (r: seq<T>)
    requires NonIncreasing(s, key)
    ensures |r| == |s| + 1
    ensures NonIncreasing(r, key)
    ensures multiset(r) == multiset(s) + multiset{x}
  {
    if s == [] || DescLe(key(x), key(s[0])) then
      ConsNonIncreasing(x, s, key);
      [x] + s
    else
      var rest := InsertDesc(x, s[1..], key);
      assert s == [s[0]] + s[1..];
      HeadBeforeRest(x, s, rest, key);
      [s[0]] + rest
  }

  /** `sort_values(ascending=False)`: a permutation of s whose keys do not
      increase, missing keys last. Equal keys may come in either order. */
  function SortDesc<T>(s: seq<T>, key: T -> Cell): (r: seq<T>)
    ensures |r| == |s|
    ensures NonIncreasing(r, key)
    ensures multiset(r) == multiset(s)
  {
    if s == [] then []
    else
      assert s == [s[0]] + s[1..];
      InsertDesc(s[0], SortDesc(s[1..], key), key)
  }

  /** A slice of a non-increasing sequence is non-increasing and holds some
      of its entries. */
  lemma SliceOrdered<T>(s: seq<T>, i: nat, j: nat, key: T -> Cell)
    requires NonIncreasing(s, key) && i <= j <= |s|
    ensures NonIncreasing(s[i..j], key)
    ensures multiset(s[i..j]) <= multiset(s)
  {
    assert s == s[..i] + s[i..j] + s[j..];
  }

  /** Two cells that may each stand before the other are equal. */
  lemma DescLeAntisymmetric(a: Cell, b: Cell)
    requires DescLe(a, b) && DescLe(b, a)
    ensures a == b
  {
  }

  /** Keys that differ at any two places of s. */
  predicate DistinctKeys<T>(s: seq<T>, key: T -> Cell) {
    forall i, j :: 0 <= i < j < |s| ==> key(s[i]) != key(s[j])
  }

  /** Two non-increasing arrangements of the same entries without equal keys
      begin with the same entry. */
  lemma SameHead<T>(a: seq<T>, b: seq<T>, key: T -> Cell)
    requires NonIncreasing(a, key) && NonIncreasing(b, key)
    requires multiset(a) == multiset(b) && DistinctKeys(a, key) && a != [] && b != []
    ensures a[0] == b[0]
  {
    assert b[0] in multiset(a) && a[0] in multiset(b);
    var p :| 0 <= p < |a| && a[p] == b[0];
    var q :| 0 <= q < |b| && b[q] == a[0];
    assert DescLe(key(a[0]), key(a[p]));
    assert DescLe(key(b[0]), key(b[q]));
    DescLeAntisymmetric(key(a[0]), key(b[0]));
  }

  lemma SameTail<T>(a: seq<T>, b: seq<T>)
    requires multiset(a) == multiset(b) && a != [] && b != [] && a[0] == b[0]
    ensures multiset(a[1..]) == multiset(b[1..])
  {
    assert a == [a[0]] + a[1..] && b == [b[0]] + b[1..];
    assert multiset(a[1..]) == multiset(a) - multiset{a[0]};
    assert multiset(b[1..]) == multiset(b) - multiset{b[0]};
  }

  lemma TailOrdered<T>(a: seq<T>, key: T -> Cell)
    requires NonIncreasing(a, key) && DistinctKeys(a, key) && a != []
    ensures NonIncreasing(a[1..], key) && DistinctKeys(a[1..], key)
  {
  }

  /** When no two keys are equal, the descending order is unique: two
      non-increasing arrangements of the same entries are the same sequence. */
  lemma {:induction false} SortedUnique<T>(a: seq<T>, b: seq<T>, key: T -> Cell)
    requires NonIncreasing(a, key) && NonIncreasing(b, key)
    requires multiset(a) == multiset(b) && DistinctKeys(a, key)
    ensures a == b
  {
    assert |a| == |b| by {
      assert |multiset(a)| == |multiset(b)|;
    }
    if a != [] {
      SameHead(a, b, key);
      SameTail(a, b);
      TailOrdered(a, key);
      assert NonIncreasing(b[1..], key);
      SortedUnique(a[1..], b[1..], key);
      assert a == [a[0]] + a[1..] && b == [b[0]] + b[1..];
    }
  }

  /** A value that occurs at two places of s counts at least twice. */
  lemma TwoPlaces<T>(s: seq<T>, i: nat, j: nat)
    requires i < j < |s| && s[i] == s[j]
    ensures multiset(s)[s[i]] >= 2
  {
    assert s == s[..j] + [s[j]] + s[j + 1..];
    assert s[i] in s[..j];
  }

  /** A value found at no two places of s counts at most once. */
  lemma {:induction false} AtMostOnce<T>(s: seq<T>, x: T)
    requires forall i, j :: 0 <= i < j < |s| && s[i] == x ==> s[j] != x
    ensures multiset(s)[x] <= 1
  {
    if s != [] {
      var n := |s| - 1;
      assert s == s[..n] + [s[n]];
      AtMostOnce(s[..n], x);
      if s[n] == x {
        assert x !in s[..n];
      }
    }
  }

  /** Rows whose groups are pairwise different. */
  predicate DistinctGroups(rows: seq<Row>) {
    forall i, j :: 0 <= i < j < |rows| ==> rows[i].group != rows[j].group
  }

  /** Reordering rows keeps their groups pairwise different. */
  lemma PermutationKeepsDistinctGroups(a: seq<Row>, b: seq<Row>)
    requires multiset(a) == multiset(b) && DistinctGroups(a)
    ensures DistinctGroups(b)
  {
    forall i, j | 0 <= i < j < |b|
      ensures b[i].group != b[j].group
    {
      if b[i] == b[j] {
        TwoPlaces(b, i, j);
        AtMostOnce(a, b[i]);
      } else {
        assert b[i] in multiset(a) && b[j] in multiset(a);
        var p :| 0 <= p < |a| && a[p] == b[i];
        var q :| 0 <= q < |a| && a[q] == b[j];
        assert p != q;
      }
    }
  }

  /** Reordering rows keeps the same rows and the same groups. */
  lemma PermutationKeepsRows(a: seq<Row>, b: seq<Row>)
    requires multiset(a) == multiset(b)
    ensures forall x :: x in a <==> x in b
    ensures forall g :: HasGroup(a, g) <==> HasGroup(b, g)
  {
    forall x
      ensures x in a <==> x in b
    {
      assert x in a <==> x in multiset(a);
      assert x in b <==> x in multiset(b);
    }
    forall g | HasGroup(a, g)
      ensures HasGroup(b, g)
    {
      var i :| 0 <= i < |a| && a[i].group == g;
      assert a[i] in b;
      var j :| 0 <= j < |b| && b[j] == a[i];
    }
    forall g | HasGroup(b, g)
      ensures HasGroup(a, g)
    {
      var j :| 0 <= j < |b| && b[j].group == g;
      assert b[j] in a;
      var i :| 0 <= i < |a| && a[i] == b[j];
    }
  }
}
