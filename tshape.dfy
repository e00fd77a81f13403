/** What the two `calcTShape` sheet functions share: each cell of a row of competence
    values is paired with its column, and a column is shown as the first twelve
    characters of the category name read above it. */
module TShapeCells {
  import opened Values
  import opened ArrayOps

  /** A cell value paired with its column, `[e, i]`. */
  datatype Scored = Scored(value: real, column: nat)

  /** `r.map((e, i) => [e, i])`. */
  function Indexed(row: seq<real>): (r: seq<Scored>)
    ensures |r| == |row|
    ensures forall i :: 0 <= i < |row| ==> r[i] == Scored(row[i], i)
  {
    seq(|row|, i requires 0 <= i < |row| => Scored(row[i], i))
  }

  /** `categories[e[1]].substr(0, 12)`: past the last category cell the read gives
      `undefined`, and `substr` on it throws. */
  function ColumnName(categories: seq<string>, e: Scored): Result<string>
  {
    if e.column < |categories| then Ok(Prefix(categories[e.column], 12))
    else Err(TypeError("Cannot read properties of undefined (reading 'substr')"))
  }

  /** `.map((e) => categories[e[1]].substr(0, 12))`: it fails exactly when a column has
      no category, and otherwise names every cell, in order. */
  lemma {:induction false} ColumnNamesShape(categories: seq<string>, es: seq<Scored>)
    ensures var r := MapAll(es, e => ColumnName(categories, e));
      && (r.Ok? <==> forall k :: 0 <= k < |es| ==> es[k].column < |categories|)
      && (r.Ok? ==> |r.value| == |es| && forall k :: 0 <= k < |es| ==> r.value[k] == Prefix(categories[es[k].column], 12))
  {
    var f := e => ColumnName(categories, e);
    var r := MapAll(es, f);
    assert forall k :: 0 <= k < |es| ==> (f(es[k]).Ok? <==> es[k].column < |categories|);
  }

  /** `a` comes after `b` in column order, or is `b`'s column. */
  predicate ColumnNotBefore(a: Scored, b: Scored)
  {
    a.column >= b.column
  }

  /** The paired cells are in strictly increasing column order. */
  lemma {:induction false} IndexedByColumn(row: seq<real>)
    ensures Sorted(Indexed(row), ColumnNotBefore)
  {
    var ix := Indexed(row);
    forall i, j | 0 <= i < j < |ix| ensures !ColumnNotBefore(ix[i], ix[j]) {
      assert ix[i].column == i && ix[j].column == j;
    }
  }
}

/** `calcTShape` of the 2022 sheet: the cells of value at least 1.0, highest first, as
    at most three category names. */
module TShape2022 {
  import opened Values
  import opened ArrayOps
  import opened TShapeCells

  /** `.filter((e) => e[0] >= 1.0)`. */
  predicate Qualifies(e: Scored)
  {
    e.value >= 1.0
  }

  /** `(a, b) => b[0] - a[0]`: `a` goes after `b` when `b` holds the larger value. */
  predicate ValueBelow(a: Scored, b: Scored)
  {
    b.value - a.value > 0.0
  }

  /** The qualifying cells after the sort. */
  function Ranking(row: seq<real>): seq<Scored>
  {
    SortBy(Filter(Indexed(row), Qualifies), ValueBelow)
  }

  /** One row of the output: the names of the first three ranked cells. */
  function TopCategories(categories: seq<string>, row: seq<real>): Result<seq<string>>
  {
    match MapAll(Ranking(row), e => ColumnName(categories, e))
    case Err(e) => Err(e)
    case Ok(names) => Ok(Prefix(names, 3))
  }

  /** `data.map(...)`: one output row per input row, the first failing row throwing. */
  function CalcTShape(categories: seq<string>, data: seq<seq<real>>): Result<seq<seq<string>>>
  {
    MapAll(data, row => TopCategories(categories, row))
  }

  /** `ranked` is the selection the 2022 sheet wants: exactly the cells of value at least
      1.0, each with its own column, the higher value first and equal values in column
      order. */
  ghost predicate RankedSelection(ranked: seq<Scored>, row: seq<real>)
  {
    && (forall k :: 0 <= k < |ranked| ==>
          ranked[k].column < |row| && ranked[k].value == row[ranked[k].column] && ranked[k].value >= 1.0)
    && (forall c :: 0 <= c < |row| && row[c] >= 1.0 ==> Scored(row[c], c) in ranked)
    && (forall i, j :: 0 <= i < j < |ranked| ==>
          || ranked[i].value > ranked[j].value
          || (ranked[i].value == ranked[j].value && ranked[i].column < ranked[j].column))
  }

  lemma {:induction false} RankingIsRankedSelection(row: seq<real>)
    ensures RankedSelection(Ranking(row), row)
  {
    var ix := Indexed(row);
    var kept := Filter(ix, Qualifies);
    var ranked := Ranking(row);
    FilterSortByMembers(ix, Qualifies, kept, ValueBelow);
    forall k | 0 <= k < |ranked|
      ensures ranked[k].column < |row| && ranked[k].value == row[ranked[k].column] && ranked[k].value >= 1.0
    {
      var i :| 0 <= i < |ix| && ix[i] == ranked[k];
    }
    forall c | 0 <= c < |row| && row[c] >= 1.0 ensures Scored(row[c], c) in ranked {
      assert ix[c] == Scored(row[c], c);
    }
    assert SortedThenBy(ranked, ValueBelow, ColumnNotBefore) by {
      IndexedByColumn(row);
      FilterSorted(ix, Qualifies, ColumnNotBefore);
      SortByIsStable(kept, ValueBelow, ColumnNotBefore);
    }
  }

  /** A row fails exactly when a cell of value at least 1.0 lies past the last category;
      otherwise it names the first three ranked cells, so at most three names, each the
      category of a cell of value at least 1.0. */
  lemma {:induction false} TopCategoriesNamesRanking(categories: seq<string>, row: seq<real>)
    ensures var r := TopCategories(categories, row);
            var ranked := Ranking(row);
      && (r.Ok? <==> forall c :: 0 <= c < |row| && row[c] >= 1.0 ==> c < |categories|)
      && (r.Ok? ==>
            && |r.value| == (if |ranked| < 3 then |ranked| else 3)
            && forall k :: 0 <= k < |r.value| ==> r.value[k] == Prefix(categories[ranked[k].column], 12))
  {
    var ranked := Ranking(row);
    RankingIsRankedSelection(row);
    ColumnNamesShape(categories, ranked);
    if forall c :: 0 <= c < |row| && row[c] >= 1.0 ==> c < |categories| {
      assert forall k :: 0 <= k < |ranked| ==> ranked[k].column < |categories|;
    } else {
      var c :| 0 <= c < |row| && row[c] >= 1.0 && c >= |categories|;
      var k :| 0 <= k < |ranked| && ranked[k] == Scored(row[c], c);
    }
  }

  /** One output row per input row; the sheet function fails exactly when a row does. */
  lemma {:induction false} CalcTShapeRows(categories: seq<string>, data: seq<seq<real>>)
    ensures var r := CalcTShape(categories, data);
      && (r.Ok? <==> forall k :: 0 <= k < |data| ==> TopCategories(categories, data[k]).Ok?)
      && (r.Ok? ==> |r.value| == |data| && forall k :: 0 <= k < |data| ==> TopCategories(categories, data[k]) == Ok(r.value[k]))
  {
    var f := row => TopCategories(categories, row);
    assert forall k :: 0 <= k < |data| ==> f(data[k]) == TopCategories(categories, data[k]);
  }
}

/** `calcTShape` of the 2021 sheet: every cell, highest first, as three category names. */
module TShape2021 {
  import opened Values
  import opened ArrayOps
  import opened TShapeCells

  /** `(a, b) => (a[0] < b[0] ? 1 : -1)`: `a` goes after `b` when its value is smaller.
      The comparator never answers 0, so equal values are not kept in column order by
      every engine; the insertion sort is one engine's outcome. */
  predicate Smaller(a: Scored, b: Scored)
  {
    a.value < b.value
  }

  function Ranking(row: seq<real>): seq<Scored>
  {
    SortBy(Indexed(row), Smaller)
  }

  /** One row of the output: the names of the first three ranked cells. Every cell is
      named, so a row longer than the category list throws. */
  function TopCategories(categories: seq<string>, row: seq<real>): Result<seq<string>>
  {
    match MapAll(Ranking(row), e => ColumnName(categories, e))
    case Err(e) => Err(e)
    case Ok(names) => Ok(Prefix(names, 3))
  }

  function CalcTShape(categories: seq<string>, data: seq<seq<real>>): Result<seq<seq<string>>>
  {
    MapAll(data, row => TopCategories(categories, row))
  }

  /** `ranked` holds every cell of `row` once, with its column, in non-increasing order
      of value. */
  ghost predicate RankedCells(ranked: seq<Scored>, row: seq<real>)
  {
    && multiset(ranked) == multiset(Indexed(row))
    && forall i, j :: 0 <= i < j < |ranked| ==> ranked[i].value >= ranked[j].value
  }

  lemma {:induction false} RankingIsRankedCells(row: seq<real>)
    ensures RankedCells(Ranking(row), row)
  {
    assert Sorted(Ranking(row), Smaller) by {
      SortBySorted(Indexed(row), Smaller);
    }
  }

  /** A row fails exactly when it is longer than the category list; otherwise it holds
      min(3, |row|) names, those of the first three ranked cells. */
  lemma {:induction false} TopCategoriesNamesRanking(categories: seq<string>, row: seq<real>)
    ensures var r := TopCategories(categories, row);
            var ranked := Ranking(row);
      && (r.Ok? <==> |row| <= |categories|)
      && (r.Ok? ==>
            && |r.value| == (if |row| < 3 then |row| else 3)
            && forall k :: 0 <= k < |r.value| ==> r.value[k] == Prefix(categories[ranked[k].column], 12))
  {
    var ranked := Ranking(row);
    var ix := Indexed(row);
    RankingIsRankedCells(row);
    ColumnNamesShape(categories, ranked);
    if |row| <= |categories| {
      forall k | 0 <= k < |ranked| ensures ranked[k].column < |categories| {
        assert ranked[k] in multiset(ix);
        var i :| 0 <= i < |ix| && ix[i] == ranked[k];
      }
    } else {
      assert ix[|row| - 1] in multiset(ranked);
      var k :| 0 <= k < |ranked| && ranked[k] == ix[|row| - 1];
    }
  }

  /** One output row per input row; the sheet function fails exactly when a row does. */
  lemma {:induction false} CalcTShapeRows(categories: seq<string>, data: seq<seq<real>>)
    ensures var r := CalcTShape(categories, data);
      && (r.Ok? <==> forall k :: 0 <= k < |data| ==> |data[k]| <= |categories|)
      && (r.Ok? ==> |r.value| == |data| && forall k :: 0 <= k < |data| ==> TopCategories(categories, data[k]) == Ok(r.value[k]))
  {
    var f := row => TopCategories(categories, row);
    forall k | 0 <= k < |data| ensures f(data[k]).Ok? <==> |data[k]| <= |categories| {
      TopCategoriesNamesRanking(categories, data[k]);
    }
  }
}
