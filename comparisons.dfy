/** The pairwise-comparison list of the Home wizard: the upper triangle of
    comparisons over the ordered criteria, each starting at "equal
    importance", and the update of one comparison's value. */
module Comparisons {
  import opened Entities

  /** The value every generated comparison starts with. */
  const EqualImportance: real := 1.0

  // ---------------------------------------------------------------------
  // Specification of the generated list
  // ---------------------------------------------------------------------

  /** Row `i` of the upper triangle: `ids[i]` against every later id, in order. */
  function Row(ids: seq<Id>, i: nat): seq<Comparison>
    requires i < |ids|
  {
    seq(|ids| - i - 1, k requires 0 <= k < |ids| - i - 1 =>
      Comparison(ids[i], ids[i + 1 + k], EqualImportance))
  }

  /** Rows `0 .. m-1` of the upper triangle, concatenated. */
  function Rows(ids: seq<Id>, m: nat): seq<Comparison>
    requires m <= |ids|
    decreases m
  {
    if m == 0 then [] else Rows(ids, m - 1) + Row(ids, m - 1)
  }

  /** The whole upper triangle over `ids` in row-major order. */
  function Pairs(ids: seq<Id>): seq<Comparison>
  {
    Rows(ids, |ids|)
  }

  /** Number of comparisons in the first `i` rows of an `n`-item triangle. */
  function Offset(n: nat, i: nat): nat
    requires i <= n
  {
    if i == 0 then 0 else Offset(n, i - 1) + (n - i)
  }

  /** Where the comparison of item `i` with item `j` sits in the list. */
  function Position(n: nat, i: nat, j: nat): nat
    requires i < j < n
  {
    Offset(n, i) + (j - i - 1)
  }

  /** `(i1, j1)` comes strictly before `(i2, j2)` in lexicographic order. */
  predicate LexBefore(i1: nat, j1: nat, i2: nat, j2: nat)
  {
    i1 < i2 || (i1 == i2 && j1 < j2)
  }

  // ---------------------------------------------------------------------
  // Properties of the specification
  // ---------------------------------------------------------------------

  lemma {:induction false} RowsLength(ids: seq<Id>, m: nat)
    requires m <= |ids|
    ensures |Rows(ids, m)| == Offset(|ids|, m)
  {
    if m > 0 {
      RowsLength(ids, m - 1);
    }
  }

  lemma {:induction false} OffsetClosedForm(n: nat, i: nat)
    requires i <= n
    ensures 2 * Offset(n, i) == i * (2 * n - i - 1)
  {
    if i > 0 {
      OffsetClosedForm(n, i - 1);
      var w := 2 * n - i;
      assert 2 * Offset(n, i - 1) == (i - 1) * w;
      assert (i - 1) * w == i * w - w;
      assert i * w == i * (w - 1) + i;
    }
  }

  /** With n criteria the list holds exactly n(n-1)/2 comparisons. */
  lemma PairsLength(ids: seq<Id>)
    ensures |Pairs(ids)| == |ids| * (|ids| - 1) / 2
  {
    var n := |ids|;
    RowsLength(ids, n);
    OffsetClosedForm(n, n);
    assert n * (2 * n - n - 1) == n * (n - 1);
  }

  /** With zero or one criterion there is nothing to compare. */
  lemma PairsOfShortList(ids: seq<Id>)
    requires |ids| <= 1
    ensures Pairs(ids) == []
  {
    PairsLength(ids);
  }

  lemma {:induction false} RowsPrefix(ids: seq<Id>, i: nat, m: nat)
    requires i <= m <= |ids|
    ensures |Rows(ids, i)| <= |Rows(ids, m)|
    ensures Rows(ids, m)[..|Rows(ids, i)|] == Rows(ids, i)
  {
    if i < m {
      RowsPrefix(ids, i, m - 1);
      var a, r := Rows(ids, m - 1), Row(ids, m - 1);
      assert Rows(ids, m) == a + r;
      assert (a + r)[..|Rows(ids, i)|] == a[..|Rows(ids, i)|];
    }
  }

  /** The comparison of `ids[i]` with `ids[j]` (i < j) sits at `Position(n, i, j)`. */
  lemma PairsAt(ids: seq<Id>, i: nat, j: nat)
    requires i < j < |ids|
    ensures Position(|ids|, i, j) < |Pairs(ids)|
    ensures Pairs(ids)[Position(|ids|, i, j)] == Comparison(ids[i], ids[j], EqualImportance)
  {
    var n := |ids|;
    RowsPrefix(ids, i + 1, n);
    RowsLength(ids, i);
    var p := Position(n, i, j);
    assert Rows(ids, i + 1) == Rows(ids, i) + Row(ids, i);
    assert Rows(ids, i + 1)[p] == Row(ids, i)[j - i - 1];
    assert Pairs(ids)[p] == Pairs(ids)[..|Rows(ids, i + 1)|][p];
  }

  lemma {:induction false} RowsDecode(ids: seq<Id>, m: nat, k: nat) returns (i: nat, j: nat)
    requires m <= |ids| && k < |Rows(ids, m)|
    ensures i < j < |ids| && i < m
    ensures Position(|ids|, i, j) == k
    ensures Rows(ids, m)[k] == Comparison(ids[i], ids[j], EqualImportance)
  {
    var n := |ids|;
    RowsLength(ids, m - 1);
    if k < |Rows(ids, m - 1)| {
      i, j := RowsDecode(ids, m - 1, k);
    } else {
      i := m - 1;
      j := m + (k - Offset(n, m - 1));
      assert Rows(ids, m)[k] == Row(ids, m - 1)[k - Offset(n, m - 1)];
    }
  }

  /** Every entry of the list is the comparison of some `ids[i]` with a later `ids[j]`. */
  lemma PairsDecode(ids: seq<Id>, k: nat) returns (i: nat, j: nat)
    requires k < |Pairs(ids)|
    ensures i < j < |ids| && Position(|ids|, i, j) == k
    ensures Pairs(ids)[k] == Comparison(ids[i], ids[j], EqualImportance)
  {
    i, j := RowsDecode(ids, |ids|, k);
  }

  lemma {:induction false} OffsetMonotone(n: nat, i: nat, m: nat)
    requires i <= m <= n
    ensures Offset(n, i) <= Offset(n, m)
  {
    if i < m {
      OffsetMonotone(n, i, m - 1);
    }
  }

  /** Positions increase strictly with the lexicographic order of `(i, j)`. */
  lemma PositionOrder(n: nat, i1: nat, j1: nat, i2: nat, j2: nat)
    requires i1 < j1 < n && i2 < j2 < n
    ensures Position(n, i1, j1) < Position(n, i2, j2) <==> LexBefore(i1, j1, i2, j2)
  {
    if i1 < i2 {
      OffsetMonotone(n, i1 + 1, i2);
    } else if i2 < i1 {
      OffsetMonotone(n, i2 + 1, i1);
    }
  }

  /** An entry is in the list exactly when it pairs an id with a later one at value 1. */
  lemma PairsMembership(ids: seq<Id>, c: Comparison)
    ensures c in Pairs(ids) <==>
      exists i, j :: 0 <= i < j < |ids| && c == Comparison(ids[i], ids[j], EqualImportance)
  {
    if c in Pairs(ids) {
      var k :| 0 <= k < |Pairs(ids)| && Pairs(ids)[k] == c;
      var i, j := PairsDecode(ids, k);
    }
    if exists i, j :: 0 <= i < j < |ids| && c == Comparison(ids[i], ids[j], EqualImportance) {
      var i, j :| 0 <= i < j < |ids| && c == Comparison(ids[i], ids[j], EqualImportance);
      PairsAt(ids, i, j);
    }
  }

  /** Every generated comparison has the default value and names two of the given ids. */
  lemma PairsEntries(ids: seq<Id>)
    ensures forall c :: c in Pairs(ids) ==>
      c.value == EqualImportance && c.criterionA in ids && c.criterionB in ids
  {
    forall c | c in Pairs(ids)
      ensures c.value == EqualImportance && c.criterionA in ids && c.criterionB in ids
    {
      PairsMembership(ids, c);
    }
  }

  /** With distinct ids, the unordered pair `{ids[i], ids[j]}` appears at exactly one index. */
  lemma PairsEachUnorderedPairOnce(ids: seq<Id>, i: nat, j: nat, k: nat)
    requires Distinct(ids)
    requires i < j < |ids| && k < |Pairs(ids)|
    ensures {Pairs(ids)[k].criterionA, Pairs(ids)[k].criterionB} == {ids[i], ids[j]}
            <==> k == Position(|ids|, i, j)
  {
    PairsAt(ids, i, j);
    var i', j' := PairsDecode(ids, k);
    if {Pairs(ids)[k].criterionA, Pairs(ids)[k].criterionB} == {ids[i], ids[j]} {
      assert ids[i'] in {ids[i], ids[j]} && ids[j'] in {ids[i], ids[j]};
      assert ids[i] in {ids[i'], ids[j']} && ids[j] in {ids[i'], ids[j']};
      assert i' == i && j' == j;
    }
  }

  /** With distinct ids, no criterion is ever compared with itself. */
  lemma PairsNoSelfComparison(ids: seq<Id>, k: nat)
    requires Distinct(ids) && k < |Pairs(ids)|
    ensures Pairs(ids)[k].criterionA != Pairs(ids)[k].criterionB
  {
    var i, j := PairsDecode(ids, k);
  }

  // ---------------------------------------------------------------------
  // Operations
  // ---------------------------------------------------------------------

  /** The nested loops of the criteria effect: push `{a: criteria[i], b: criteria[j], value: 1}`
      for every i < j, row by row. */
  method GenerateComparisons(criteria: seq<Criterion>) returns (cs: seq<Comparison>)
    ensures cs == Pairs(Ids(criteria))
  {
    ghost var ids := Ids(criteria);
    cs := [];
    var i := 0;
    while i < |criteria|
      invariant 0 <= i <= |criteria|
      invariant cs == Rows(ids, i)
    {
      var j := i + 1;
      while j < |criteria|
        invariant i + 1 <= j <= |criteria|
        invariant cs == Rows(ids, i) + Row(ids, i)[..j - i - 1]
      {
        assert Row(ids, i)[..j - i] == Row(ids, i)[..j - i - 1] + [Row(ids, i)[j - i - 1]];
        cs := cs + [Comparison(criteria[i].id, criteria[j].id, EqualImportance)];
        j := j + 1;
      }
      assert Row(ids, i)[..|criteria| - i - 1] == Row(ids, i);
      i := i + 1;
    }
  }

  /** The criteria effect as written: the list is rebuilt only when there are at least two
      criteria, otherwise the previous list is kept as it is. */
  method RefreshComparisonsAsWritten(criteria: seq<Criterion>, comparisons: seq<Comparison>)
    returns (next: seq<Comparison>)
    ensures |criteria| > 1 ==> next == Pairs(Ids(criteria))
    ensures |criteria| <= 1 ==> next == comparisons
  {
    next := comparisons;
    if |criteria| > 1 {
      next := GenerateComparisons(criteria);
    }
  }

  /** The slider handler: copy the list and set the value of entry `index`. The slider is
      rendered from the list itself, so `index` is always one of its positions. */
  method ChangeComparison(comparisons: seq<Comparison>, index: nat, value: real)
    returns (r: seq<Comparison>)
    requires index < |comparisons|
    ensures |r| == |comparisons|
    ensures r[index] == Comparison(comparisons[index].criterionA, comparisons[index].criterionB, value)
    ensures forall k :: 0 <= k < |r| && k != index ==> r[k] == comparisons[k]
  {
    var copy := new Comparison[|comparisons|](k requires 0 <= k < |comparisons| => comparisons[k]);
    copy[index] := copy[index].(value := value);
    r := copy[..];
  }
}
