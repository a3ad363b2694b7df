/** The "Top N Energy Impacting Nutritions" chart: the column of correlation
    coefficients against Energy_kcal, sorted from the highest down, with the
    first entry (Energy_kcal's correlation with itself) skipped and the next
    n kept. */
module Correlation {
  import opened Tables
  import opened Ordering

  /** One entry of `corr()[['Energy_kcal']]`: a column name and its
      coefficient against Energy_kcal (missing where the coefficient is NaN). */
  datatype Coefficient = Coefficient(nutrient: string, r: Cell)

  function CoefficientKey(): Coefficient -> Cell {
    (c: Coefficient) => c.r
  }

  /** `sort_values(by='Energy_kcal', ascending=False)[1:n+1]`: the coefficients
      ranked from the highest down (missing ones last), without the first, and
      at most n of the rest. */
  function TopCorrelated(column: seq<Coefficient>, n: nat): (top: seq<Coefficient>)
    ensures |top| == if column == [] then 0 else Min(n, |column| - 1)
    ensures NonIncreasing(top, CoefficientKey())
    ensures multiset(top) <= multiset(column)
  {
    var ranked := SortDesc(column, CoefficientKey());
    if ranked == [] then []
    else
      SliceOrdered(ranked, 1, Min(n + 1, |ranked|), CoefficientKey());
      ranked[1..Min(n + 1, |ranked|)]
  }

  /** c ranks at least as high as every coefficient of the column. */
  predicate IsHighest(column: seq<Coefficient>, c: Coefficient) {
    forall k :: 0 <= k < |column| ==> DescLe(c.r, column[k].r)
  }

  /** The ranked column is the first (highest) entry, the kept ones, and the
      ones after them. */
  lemma RankedParts(column: seq<Coefficient>, n: nat)
    requires column != []
    ensures
      var ranked := SortDesc(column, CoefficientKey());
      && TopCorrelated(column, n) == ranked[1..Min(n + 1, |ranked|)]
      && IsHighest(column, ranked[0])
  {
    var ranked := SortDesc(column, CoefficientKey());
    forall k | 0 <= k < |column|
      ensures DescLe(ranked[0].r, column[k].r)
    {
      assert column[k] in multiset(ranked);
      var q :| 0 <= q < |ranked| && ranked[q] == column[k];
      if q > 0 {
        assert DescLe(CoefficientKey()(ranked[0]), CoefficientKey()(ranked[q]));
      }
    }
  }

  /** An entry of the ranking after position 0 that is not among positions
      1 to end - 1 ranks no higher than any of them. */
  lemma AfterKept(ranked: seq<Coefficient>, end: nat, q: nat)
    requires NonIncreasing(ranked, CoefficientKey())
    requires 1 <= end <= |ranked| && 1 <= q < |ranked| && ranked[q] !in ranked[1..end]
    ensures forall k :: 0 <= k < end - 1 ==> DescLe(ranked[1..end][k].r, ranked[q].r)
  {
    forall k | 0 <= k < end - 1
      ensures DescLe(ranked[1..end][k].r, ranked[q].r)
    {
      assert DescLe(CoefficientKey()(ranked[k + 1]), CoefficientKey()(ranked[q]));
    }
  }

  /** Every coefficient left out, apart from the highest one skipped at the
      front, ranks no higher than every coefficient kept. */
  lemma TopCorrelatedRanking(column: seq<Coefficient>, n: nat, x: Coefficient)
    requires x in column && x !in TopCorrelated(column, n)
    ensures IsHighest(column, x) || forall k :: 0 <= k < |TopCorrelated(column, n)| ==> DescLe(TopCorrelated(column, n)[k].r, x.r)
  {
    var ranked := SortDesc(column, CoefficientKey());
    RankedParts(column, n);
    assert x in multiset(ranked);
    var q :| 0 <= q < |ranked| && ranked[q] == x;
    if q > 0 {
      AfterKept(ranked, Min(n + 1, |ranked|), q);
    }
  }

  /** A coefficient that ranks strictly above every other comes first. */
  lemma StrictlyHighestFirst(column: seq<Coefficient>, e: Coefficient)
    requires e in column
    requires forall k :: 0 <= k < |column| && column[k] != e ==> DescLess(e.r, column[k].r)
    ensures SortDesc(column, CoefficientKey())[0] == e
  {
    var ranked := SortDesc(column, CoefficientKey());
    RankedParts(column, 0);
    assert ranked[0] in multiset(column);
    var p :| 0 <= p < |column| && column[p] == ranked[0];
    var q :| 0 <= q < |column| && column[q] == e;
    assert DescLe(ranked[0].r, column[q].r);
  }

  /** Reordering a column without repeats leaves its first entry nowhere else. */
  lemma FirstNotRepeated(column: seq<Coefficient>, ranked: seq<Coefficient>)
    requires NoDuplicates(column) && multiset(ranked) == multiset(column) && ranked != []
    ensures ranked[0] !in ranked[1..]
  {
    if ranked[0] in ranked[1..] {
      var i :| 1 <= i < |ranked| && ranked[i] == ranked[0];
      TwoPlaces(ranked, 0, i);
      AtMostOnce(column, ranked[0]);
    }
  }

  /** A coefficient that ranks strictly above every other, as Energy_kcal's
      correlation with itself does, is the one skipped: it is never kept. */
  lemma StrictlyHighestSkipped(column: seq<Coefficient>, n: nat, e: Coefficient)
    requires NoDuplicates(column) && e in column
    requires forall k :: 0 <= k < |column| && column[k] != e ==> DescLess(e.r, column[k].r)
    ensures e !in TopCorrelated(column, n)
  {
    var ranked := SortDesc(column, CoefficientKey());
    StrictlyHighestFirst(column, e);
    RankedParts(column, n);
    FirstNotRepeated(column, ranked);
    assert ranked[1..Min(n + 1, |ranked|)] <= ranked[1..];
  }

  lemma InTail(s: seq<Coefficient>, c: Coefficient)
    requires c in s && c != s[0]
    ensures c in s[1..]
  {
    assert s == [s[0]] + s[1..];
  }

  /** When n leaves room for them, every coefficient but the highest is kept. */
  lemma AllButHighestKept(column: seq<Coefficient>, n: nat, e: Coefficient)
    requires e in column
    requires forall k :: 0 <= k < |column| && column[k] != e ==> DescLess(e.r, column[k].r)
    requires n + 1 >= |column|
    ensures forall c :: c in column && c != e ==> c in TopCorrelated(column, n)
  {
    var ranked := SortDesc(column, CoefficientKey());
    StrictlyHighestFirst(column, e);
    OthersInTail(column, ranked);
    KeepsAllButFirst(column, n);
    forall c | c in column && c != e
      ensures c in TopCorrelated(column, n)
    {
      var q :| 1 <= q < |ranked| && ranked[q] == c;
    }
  }

  /** When n leaves room for them, every entry after the first of the ranking is kept. */
  lemma KeepsAllButFirst(column: seq<Coefficient>, n: nat)
    requires column != [] && n + 1 >= |column|
    ensures forall q :: 1 <= q < |column| ==> SortDesc(column, CoefficientKey())[q] in TopCorrelated(column, n)
  {
    var ranked := SortDesc(column, CoefficientKey());
    var top := TopCorrelated(column, n);
    RankedParts(column, n);
    forall q | 1 <= q < |column|
      ensures ranked[q] in top
    {
      assert top[q - 1] == ranked[q];
    }
  }

  /** Every entry of a column other than the first of its reordering comes
      after that first one. */
  lemma OthersInTail(column: seq<Coefficient>, ranked: seq<Coefficient>)
    requires multiset(ranked) == multiset(column) && ranked != []
    ensures forall c :: c in column && c != ranked[0] ==> c in ranked[1..]
  {
    forall c | c in column && c != ranked[0]
      ensures c in ranked[1..]
    {
      assert c in multiset(ranked);
      InTail(ranked, c);
    }
  }

  /** Pearson coefficients lie in [-1, 1] and a column's coefficient with
      itself is 1; when no nutrient reaches 1 as well, Energy_kcal itself is
      never among the nutrients shown. */
  lemma EnergyNotShown(column: seq<Coefficient>, n: nat, e: Coefficient)
    requires NoDuplicates(column) && e in column && e == Coefficient(Energy, Some(1.0))
    requires forall k :: 0 <= k < |column| && column[k] != e ==> column[k].r.None? || column[k].r.value < 1.0
    ensures e !in TopCorrelated(column, n)
  {
    StrictlyHighestSkipped(column, n, e);
  }

  /** Four coefficients whose values strictly decrease from e to f to p to s. */
  predicate StrictlyRanked(e: Coefficient, f: Coefficient, p: Coefficient, s: Coefficient) {
    && e.r.Some? && f.r.Some? && p.r.Some? && s.r.Some?
    && e.r.value > f.r.value > p.r.value > s.r.value
  }

  /** Four coefficients listed in the order p, s, f, e whose values strictly
      decrease from e (such as Energy_kcal's 1.0 with itself) to f to p to s:
      with n = 2 the chart shows f and then p. */
  lemma TopTwoExample(p: Coefficient, s: Coefficient, f: Coefficient, e: Coefficient)
    requires StrictlyRanked(e, f, p, s)
    ensures TopCorrelated([p, s, f, e], 2) == [f, p]
  {
    var column := [p, s, f, e];
    var ranked := [e, f, p, s];
    var key := CoefficientKey();
    FourRanked(e, f, p, s);
    FourPermuted(p, s, f, e);
    SortedUnique(ranked, SortDesc(column, key), key);
    RankedParts(column, 2);
    MiddleTwo(e, f, p, s);
  }

  lemma FourRanked(e: Coefficient, f: Coefficient, p: Coefficient, s: Coefficient)
    requires StrictlyRanked(e, f, p, s)
    ensures NonIncreasing([e, f, p, s], CoefficientKey()) && DistinctKeys([e, f, p, s], CoefficientKey())
  {
  }

  lemma FourPermuted<T>(p: T, s: T, f: T, e: T)
    ensures multiset([e, f, p, s]) == multiset([p, s, f, e])
  {
    FourBag(e, f, p, s);
    FourBag(p, s, f, e);
    FourBagReordered(p, s, f, e);
  }

  lemma FourBag<T>(a: T, b: T, c: T, d: T)
    ensures multiset([a, b, c, d]) == multiset{a, b, c, d}
  {
  }

  lemma FourBagReordered<T>(p: T, s: T, f: T, e: T)
    ensures multiset{e, f, p, s} == multiset{p, s, f, e}
  {
  }

  lemma MiddleTwo<T>(a: T, b: T, c: T, d: T)
    ensures [a, b, c, d][1..Min(3, 4)] == [b, c]
  {
  }
}
