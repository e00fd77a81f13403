/** The category sheet of the report script: `getCategories` collects under each
    column title the non-empty strings of that column, `getKompVsMotTitlePosArray`
    computes the row of each title in the competence column, and
    `populateKompVsMotCompetencyColumn` lays the titles and their competences out in
    that column. */
module ReportCategories {
  import opened Values
  import opened ArrayOps
  import opened Objects

  /** The `categories` object: each title key with its list of competences. */
  type Buckets = seq<(string, seq<string>)>

  /** `categories[key]`, or an empty list when it is undefined. */
  function GetOr(cats: Buckets, key: string): seq<string>
  {
    match Get(cats, key)
    case Some(list) => list
    case None => []
  }

  /** One pass of the inner loop: the key is given an empty list when it is undefined,
      then a non-empty string cell is pushed onto it. */
  function Visit(cats: Buckets, key: string, cell: Cell): Buckets
  {
    var touched := if Get(cats, key).None? then Assign(cats, key, []) else cats;
    if IsNonEmptyText(cell) then Assign(touched, key, GetOr(touched, key) + [cell.s]) else touched
  }

  /** The inner loop over the first `n` cells of `row`. */
  function RowFold(cats: Buckets, titles: seq<Cell>, row: seq<Cell>, n: nat): Buckets
    requires n <= |row|
  {
    if n == 0 then cats
    else Visit(RowFold(cats, titles, row, n - 1), KeyOf(At(titles, n - 1)), row[n - 1])
  }

  /** The `forEach` over the rows below the titles. */
  function AllFold(titles: seq<Cell>, rows: seq<seq<Cell>>): Buckets
  {
    if rows == [] then []
    else
      var last := rows[|rows| - 1];
      RowFold(AllFold(titles, rows[..|rows| - 1]), titles, last, |last|)
  }

  /** `getCategories` on the values of the category sheet: the first row holds the
      titles. Past the last title a column's key is "undefined". */
  function CategoriesOf(data: seq<seq<Cell>>): Buckets
  {
    if data == [] then [] else AllFold(data[0], data[1..])
  }

  method GetCategories(data: seq<seq<Cell>>) returns (categories: Buckets)
    ensures categories == CategoriesOf(data)
  {
    categories := [];
    if data == [] {
      return;
    }
    var titles := data[0];
    var rows := data[1..];
    for r := 0 to |rows|
      invariant categories == AllFold(titles, rows[..r])
    {
      var row := rows[r];
      ghost var base := categories;
      for i := 0 to |row|
        invariant categories == RowFold(base, titles, row, i)
      {
        var key := KeyOf(At(titles, i));
        if Get(categories, key).None? {
          GetAssign(categories, key, [], key);
          categories := Assign(categories, key, []);
        }
        if IsNonEmptyText(row[i]) {
          categories := Assign(categories, key, Get(categories, key).value + [row[i].s]);
        }
      }
      assert rows[..r + 1][..r] == rows[..r];
    }
    assert rows[..|rows|] == rows;
  }

  /** A reference for the keys: some of the first `n` columns has a title giving `key`. */
  predicate Touches(titles: seq<Cell>, n: nat, key: string)
  {
    n > 0 && (KeyOf(At(titles, n - 1)) == key || Touches(titles, n - 1, key))
  }

  /** ... and some row is long enough to reach such a column. */
  predicate Used(titles: seq<Cell>, rows: seq<seq<Cell>>, key: string)
  {
    rows != [] && (Used(titles, rows[..|rows| - 1], key) || Touches(titles, |rows[|rows| - 1]|, key))
  }

  /** A reference for the values: the non-empty strings of the first `n` cells of `row`
      whose column's title gives `key`, left to right. */
  function CellsInRow(titles: seq<Cell>, row: seq<Cell>, key: string, n: nat): seq<string>
    requires n <= |row|
  {
    if n == 0 then []
    else
      CellsInRow(titles, row, key, n - 1)
      + (if KeyOf(At(titles, n - 1)) == key && IsNonEmptyText(row[n - 1]) then [row[n - 1].s] else [])
  }

  /** ... and those of all rows, top to bottom. */
  function CellsUnder(titles: seq<Cell>, rows: seq<seq<Cell>>, key: string): seq<string>
  {
    if rows == [] then []
    else
      var last := rows[|rows| - 1];
      CellsUnder(titles, rows[..|rows| - 1], key) + CellsInRow(titles, last, key, |last|)
  }

  lemma {:induction false} TouchesWitness(titles: seq<Cell>, n: nat, key: string)
    ensures Touches(titles, n, key) <==> exists i :: 0 <= i < n && KeyOf(At(titles, i)) == key
  {
    if n > 0 {
      TouchesWitness(titles, n - 1, key);
      if KeyOf(At(titles, n - 1)) == key {
        assert 0 <= n - 1 < n && KeyOf(At(titles, n - 1)) == key;
      } else {
        assert Touches(titles, n, key) == Touches(titles, n - 1, key);
        if exists i :: 0 <= i < n && KeyOf(At(titles, i)) == key {
          var i :| 0 <= i < n && KeyOf(At(titles, i)) == key;
          assert i < n - 1;
        }
      }
    }
  }

  lemma {:induction false} UsedWitness(titles: seq<Cell>, rows: seq<seq<Cell>>, key: string)
    ensures Used(titles, rows, key) <==> exists r :: 0 <= r < |rows| && Touches(titles, |rows[r]|, key)
  {
    if rows != [] {
      var init := rows[..|rows| - 1];
      UsedWitness(titles, init, key);
      assert forall r :: 0 <= r < |init| ==> init[r] == rows[r];
    }
  }

  /** One visited cell: under its column's key the list is kept, or started when it
      was undefined, and the cell appended when it is a non-empty string; every other
      key is unchanged. */
  lemma {:induction false} VisitGet(cats: Buckets, k: string, cell: Cell, key: string)
    ensures Get(Visit(cats, k, cell), key) ==
              if k == key then Some(GetOr(cats, key) + (if IsNonEmptyText(cell) then [cell.s] else []))
              else Get(cats, key)
  {
    var touched := if Get(cats, k).None? then Assign(cats, k, []) else cats;
    GetAssign(cats, k, [], key);
    GetAssign(cats, k, [], k);
    assert GetOr(touched, k) == GetOr(cats, k);
    if IsNonEmptyText(cell) {
      assert Visit(cats, k, cell) == Assign(touched, k, GetOr(touched, k) + [cell.s]);
      GetAssign(touched, k, GetOr(touched, k) + [cell.s], key);
    } else {
      assert Visit(cats, k, cell) == touched;
      assert GetOr(cats, key) + [] == GetOr(cats, key);
    }
  }

  /** A visit extends what the row so far put under `key`: `reached` says whether
      some earlier column gave `key`, and `before` is what those columns appended. */
  lemma VisitExtends(prev: Buckets, cats: Buckets, k: string, cell: Cell, key: string,
                     reached: bool, before: seq<string>)
    requires Get(prev, key) == if reached then Some(GetOr(cats, key) + before) else Get(cats, key)
    requires !reached ==> before == []
    ensures var added := if k == key && IsNonEmptyText(cell) then [cell.s] else [];
      Get(Visit(prev, k, cell), key) ==
        if k == key || reached then Some(GetOr(cats, key) + (before + added)) else Get(cats, key)
  {
    var added := if k == key && IsNonEmptyText(cell) then [cell.s] else [];
    VisitGet(prev, k, cell, key);
    if k == key {
      if !reached {
        assert GetOr(cats, key) + [] == GetOr(cats, key);
      }
      assert GetOr(prev, key) == GetOr(cats, key) + before;
      assert GetOr(cats, key) + before + added == GetOr(cats, key) + (before + added);
    } else {
      assert added == [] && before + added == before;
    }
  }

  /** The inner loop over a row: a key its columns reach holds what it held before
      (nothing when it was undefined) followed by the row's cells under it; any other key
      is unchanged. */
  lemma {:induction false} RowFoldGet(cats: Buckets, titles: seq<Cell>, row: seq<Cell>, n: nat, key: string)
    requires n <= |row|
    ensures Get(RowFold(cats, titles, row, n), key) ==
              if Touches(titles, n, key) then Some(GetOr(cats, key) + CellsInRow(titles, row, key, n))
              else Get(cats, key)
    ensures !Touches(titles, n, key) ==> CellsInRow(titles, row, key, n) == []
  {
    if n > 0 {
      var prev := RowFold(cats, titles, row, n - 1);
      var k := KeyOf(At(titles, n - 1));
      RowFoldGet(cats, titles, row, n - 1, key);
      VisitExtends(prev, cats, k, row[n - 1], key, Touches(titles, n - 1, key), CellsInRow(titles, row, key, n - 1));
    }
  }

  /** The loop over all rows: a key is defined exactly when some row reaches a column
      whose title gives it, and then holds the non-empty strings under such columns in
      row-major order. */
  lemma {:induction false} AllFoldGet(titles: seq<Cell>, rows: seq<seq<Cell>>, key: string)
    ensures Get(AllFold(titles, rows), key) ==
              if Used(titles, rows, key) then Some(CellsUnder(titles, rows, key)) else None
    ensures !Used(titles, rows, key) ==> CellsUnder(titles, rows, key) == []
  {
    if rows != [] {
      var init := rows[..|rows| - 1];
      var last := rows[|rows| - 1];
      var base := AllFold(titles, init);
      var cells := CellsInRow(titles, last, key, |last|);
      AllFoldGet(titles, init, key);
      RowFoldGet(base, titles, last, |last|, key);
      assert AllFold(titles, rows) == RowFold(base, titles, last, |last|);
      assert CellsUnder(titles, rows, key) == CellsUnder(titles, init, key) + cells;
      assert Used(titles, rows, key) <==> Used(titles, init, key) || Touches(titles, |last|, key);
      if Used(titles, init, key) {
        assert GetOr(base, key) == CellsUnder(titles, init, key);
        if !Touches(titles, |last|, key) {
          assert CellsUnder(titles, init, key) + [] == CellsUnder(titles, init, key);
        }
      } else if Touches(titles, |last|, key) {
        assert GetOr(base, key) == [] && CellsUnder(titles, init, key) == [];
        assert [] + cells == cells;
      } else {
        assert cells == [] && CellsUnder(titles, init, key) == [];
        assert Get(AllFold(titles, rows), key) == None;
      }
    }
  }

  /** `getCategories` maps each key reached by a row to the non-empty strings of the
      columns with that title, in row-major order, so columns sharing a title share one
      list; other keys are undefined. */
  lemma {:induction false} CategoriesBuckets(data: seq<seq<Cell>>, key: string)
    ensures data == [] ==> CategoriesOf(data) == []
    ensures data != [] ==>
              Get(CategoriesOf(data), key) ==
                if Used(data[0], data[1..], key) then Some(CellsUnder(data[0], data[1..], key)) else None
  {
    if data != [] {
      AllFoldGet(data[0], data[1..], key);
    }
  }

  lemma {:induction false} RowFoldDistinct(cats: Buckets, titles: seq<Cell>, row: seq<Cell>, n: nat)
    requires n <= |row| && DistinctKeys(cats)
    ensures DistinctKeys(RowFold(cats, titles, row, n))
  {
    if n > 0 {
      var prev := RowFold(cats, titles, row, n - 1);
      RowFoldDistinct(cats, titles, row, n - 1);
      var k := KeyOf(At(titles, n - 1));
      AssignDistinct(prev, k, []);
      var touched := if Get(prev, k).None? then Assign(prev, k, []) else prev;
      if IsNonEmptyText(row[n - 1]) {
        AssignDistinct(touched, k, GetOr(touched, k) + [row[n - 1].s]);
      }
    }
  }

  /** The categories object has each title key once. */
  lemma {:induction false} CategoriesDistinct(titles: seq<Cell>, rows: seq<seq<Cell>>)
    ensures DistinctKeys(AllFold(titles, rows))
  {
    if rows != [] {
      var last := rows[|rows| - 1];
      CategoriesDistinct(titles, rows[..|rows| - 1]);
      RowFoldDistinct(AllFold(titles, rows[..|rows| - 1]), titles, last, |last|);
    }
  }

  /** `titlePos`: the first title sits at row 3 and each next one below the previous
      title and its competences. */
  ghost predicate TitleRecurrence(cats: Buckets, pos: seq<int>)
  {
    && |pos| == |cats|
    && (|cats| > 0 ==> pos[0] == 3)
    && forall i :: 0 <= i < |cats| - 1 ==> pos[i + 1] == pos[i] + |cats[i].1| + 1
  }

  /** `getKompVsMotTitlePosArray`: one push per key, then the position after the last
      category is popped. */
  method TitlePositions(cats: Buckets) returns (titlePos: seq<int>)
    ensures TitleRecurrence(cats, titlePos)
  {
    titlePos := [3];
    for t := 0 to |cats|
      invariant |titlePos| == t + 1 && titlePos[0] == 3
      invariant forall i :: 0 <= i < t ==> titlePos[i + 1] == titlePos[i] + |cats[i].1| + 1
    {
      titlePos := titlePos + [|cats[t].1| + titlePos[|titlePos| - 1] + 1];
    }
    titlePos := titlePos[..|titlePos| - 1];
  }

  /** `[k].concat(categories[k])`: a title and its competences. */
  function Block(e: (string, seq<string>)): seq<string>
  {
    [e.0] + e.1
  }

  /** `.map((i) => [i])`: a one-cell row. */
  function Single(x: string): seq<string>
  {
    [x]
  }

  /** The `data` written down the competence column from row `titlePos[0]`. */
  function CompetencyColumn(cats: Buckets): seq<seq<string>>
  {
    Map(Flatten(Map(cats, Block)), Single)
  }

  /** Each position is 3 plus the number of cells of the blocks above it. */
  lemma {:induction false} TitlePosIsOffset(cats: Buckets, pos: seq<int>, i: nat)
    requires TitleRecurrence(cats, pos) && i < |cats|
    ensures pos[i] == 3 + |Flatten(Map(cats[..i], Block))|
  {
    if i > 0 {
      TitlePosIsOffset(cats, pos, i - 1);
      assert Map(cats[..i], Block) == Map(cats[..i - 1], Block) + [Block(cats[i - 1])];
      FlattenAppend(Map(cats[..i - 1], Block), [Block(cats[i - 1])]);
      assert Flatten([Block(cats[i - 1])]) == Block(cats[i - 1]);
    } else {
      assert Map(cats[..0], Block) == [];
    }
  }

  /** The flattened column is the blocks above category `i`, its own block, then the
      blocks below. */
  lemma BlocksAround(cats: Buckets, i: nat)
    requires i < |cats|
    ensures Flatten(Map(cats, Block)) ==
              Flatten(Map(cats[..i], Block)) + Block(cats[i]) + Flatten(Map(cats[i + 1..], Block))
  {
    assert cats == cats[..i] + [cats[i]] + cats[i + 1..];
    MapAppend(cats[..i] + [cats[i]], cats[i + 1..], Block);
    MapAppend(cats[..i], [cats[i]], Block);
    FlattenAppend(Map(cats[..i], Block) + Map([cats[i]], Block), Map(cats[i + 1..], Block));
    FlattenAppend(Map(cats[..i], Block), Map([cats[i]], Block));
    assert Flatten(Map([cats[i]], Block)) == Block(cats[i]);
  }

  /** The positions name the rows where the titles land: row `titlePos[i]` of the sheet
      holds title `i`, and the rows below it its competences, in order. */
  lemma TitlesInColumn(cats: Buckets, pos: seq<int>, i: nat)
    requires TitleRecurrence(cats, pos) && i < |cats|
    ensures var data := CompetencyColumn(cats);
      && 3 <= pos[i] && pos[i] - 3 + 1 + |cats[i].1| <= |data|
      && data[pos[i] - 3] == [cats[i].0]
      && forall m :: 0 <= m < |cats[i].1| ==> data[pos[i] - 3 + 1 + m] == [cats[i].1[m]]
  {
    var flat := Flatten(Map(cats, Block));
    var before := Flatten(Map(cats[..i], Block));
    TitlePosIsOffset(cats, pos, i);
    BlocksAround(cats, i);
    var data := CompetencyColumn(cats);
    assert flat[|before|] == Block(cats[i])[0];
    assert data[pos[i] - 3] == [flat[|before|]];
    forall m | 0 <= m < |cats[i].1| ensures data[pos[i] - 3 + 1 + m] == [cats[i].1[m]] {
      assert flat[|before| + 1 + m] == Block(cats[i])[1 + m];
    }
  }
}
