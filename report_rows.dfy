/** The per-group tables of the report script, built from the values of the answer
    sheet: `reorderDataset` puts a row's competence answers before its motivation
    answers, `getDataForAnsatte` and `getMissingAnsatte` give every employee of a group
    one row, and `getDataForEmployeesInGroup` keys the answers by Google id. A sheet
    row holds the Google id (column 1 of the answer sheet) and then the answers, a
    competence and a motivation answer per question. */
module ReportRows {
  import opened Values
  import opened ArrayOps
  import opened Objects
  import opened ReportManagers

  /** `s.filter((e, i) => i % 2 === 0)`. */
  function Evens<T>(s: seq<T>): seq<T>
    decreases |s|
  {
    if s == [] then [] else [s[0]] + Odds(s[1..])
  }

  /** `s.filter((e, i) => i % 2 === 1)`. */
  function Odds<T>(s: seq<T>): seq<T>
    decreases |s|
  {
    if s == [] then [] else Evens(s[1..])
  }

  /** The elements of `a` and `b` alternately, starting with `a`: how the sheet lays out
      the competence and motivation answers. */
  function Interleave<T>(a: seq<T>, b: seq<T>): seq<T>
    decreases |a| + |b|
  {
    if a == [] then b else [a[0]] + Interleave(b, a[1..])
  }

  /** `Evens` keeps exactly the elements at even positions and `Odds` those at odd
      positions. */
  lemma {:induction false} EvensOddsPositions<T>(s: seq<T>)
    ensures |Evens(s)| == (|s| + 1) / 2 && |Odds(s)| == |s| / 2
    ensures forall k :: 0 <= k < |Evens(s)| ==> Evens(s)[k] == s[2 * k]
    ensures forall k :: 0 <= k < |Odds(s)| ==> Odds(s)[k] == s[2 * k + 1]
  {
    if s != [] {
      EvensOddsPositions(s[1..]);
      assert Evens(s) == [s[0]] + Odds(s[1..]);
      forall k | 0 < k < |Evens(s)| ensures Evens(s)[k] == s[2 * k] {
        assert Evens(s)[k] == Odds(s[1..])[k - 1] == s[1..][2 * (k - 1) + 1];
      }
      forall k | 0 <= k < |Odds(s)| ensures Odds(s)[k] == s[2 * k + 1] {
        assert Odds(s)[k] == Evens(s[1..])[k] == s[1..][2 * k];
      }
    }
  }

  /** Splitting into even and odd positions loses nothing: interleaving the halves gives
      the sequence back. */
  lemma {:induction false} InterleaveEvensOdds<T>(s: seq<T>)
    ensures Interleave(Evens(s), Odds(s)) == s
  {
    if s != [] {
      InterleaveEvensOdds(s[1..]);
      assert ([s[0]] + Odds(s[1..]))[1..] == Odds(s[1..]);
    }
  }

  /** Conversely, halves of matching length are recovered from their interleaving. */
  lemma {:induction false} EvensOddsInterleave<T>(a: seq<T>, b: seq<T>)
    requires |b| <= |a| <= |b| + 1
    ensures Evens(Interleave(a, b)) == a && Odds(Interleave(a, b)) == b
    decreases |a| + |b|
  {
    if a != [] {
      var rest := Interleave(b, a[1..]);
      EvensOddsInterleave(b, a[1..]);
      assert ([a[0]] + rest)[1..] == rest;
      assert [a[0]] + a[1..] == a;
    }
  }

  /** The map callback of `reorderDataset`: the Google id, then the competence answers,
      then the motivation answers. */
  function ReorderRow(r: seq<Cell>): seq<Cell>
  {
    [At(r, 1)] + Evens(Drop(r, 2)) + Odds(Drop(r, 2))
  }

  /** `reorderDataset`: the header row is dropped. */
  function ReorderDataset(data: seq<seq<Cell>>): seq<seq<Cell>>
  {
    Map(Drop(data, 1), ReorderRow)
  }

  /** A reordered row is one cell shorter than the sheet row: the Google id, then the
      cells at columns 2, 4, ..., then those at columns 3, 5, ...; the two halves
      interleave back to the answers of the row. */
  lemma {:induction false} ReorderRowLayout(r: seq<Cell>)
    ensures var out := ReorderRow(r);
            var comp := Evens(Drop(r, 2));
            var mot := Odds(Drop(r, 2));
      && |out| == (if |r| >= 2 then |r| - 1 else 1)
      && out[0] == At(r, 1)
      && (forall k :: 0 <= k < |comp| ==> 2 + 2 * k < |r| && out[1 + k] == r[2 + 2 * k])
      && (forall k :: 0 <= k < |mot| ==> 3 + 2 * k < |r| && out[1 + |comp| + k] == r[3 + 2 * k])
      && Interleave(comp, mot) == Drop(r, 2)
  {
    var answers := Drop(r, 2);
    EvensOddsPositions(answers);
    InterleaveEvensOdds(answers);
    var out := ReorderRow(r);
    var comp := Evens(answers);
    var mot := Odds(answers);
    forall k | 0 <= k < |comp| ensures 2 + 2 * k < |r| && out[1 + k] == r[2 + 2 * k] {
      assert out[1 + k] == comp[k] == answers[2 * k];
    }
    forall k | 0 <= k < |mot| ensures 3 + 2 * k < |r| && out[1 + |comp| + k] == r[3 + 2 * k] {
      assert out[1 + |comp| + k] == mot[k] == answers[2 * k + 1];
    }
  }
  /** The overview sheet heads its columns with the competence titles, then the
      motivation titles, split from the answer sheet's header row the same way: for a row
      as wide as the header, the cell under each title is the answer from the column of
      that title. */
  lemma OverviewHeadersAlign(header: seq<Cell>, r: seq<Cell>)
    requires |header| == |r| >= 2
    ensures var competencies := Evens(Drop(header, 2));
            var motivation := Odds(Drop(header, 2));
            var out := ReorderRow(r);
      && |out| == 1 + |competencies| + |motivation|
      && (forall k :: 0 <= k < |competencies| ==>
            2 + 2 * k < |r| && competencies[k] == header[2 + 2 * k] && out[1 + k] == r[2 + 2 * k])
      && (forall k :: 0 <= k < |motivation| ==>
            3 + 2 * k < |r| && motivation[k] == header[3 + 2 * k] && out[1 + |competencies| + k] == r[3 + 2 * k])
  {
    var h := Drop(header, 2);
    assert |h| == |Drop(r, 2)| == |r| - 2;
    EvensOddsPositions(h);
    EvensOddsPositions(Drop(r, 2));
    ReorderRowLayout(r);
    assert forall k :: 0 <= k < |h| ==> h[k] == header[2 + k];
  }

  /** `ansatte.find((a) => a.googleid === id)`: the first employee with the id. */
  function FindEmployee(ansatte: seq<Employee>, id: Cell): (r: Option<Employee>)
    ensures r.None? <==> forall k :: 0 <= k < |ansatte| ==> ansatte[k].googleid != id
    ensures r.Some? ==> r.value in ansatte && r.value.googleid == id
    ensures r.Some? ==> exists k :: 0 <= k < |ansatte| && ansatte[k] == r.value &&
                                    forall m :: 0 <= m < k ==> ansatte[m].googleid != id
  {
    if ansatte == [] then None
    else if ansatte[0].googleid == id then Some(ansatte[0])
    else FindEmployee(ansatte[1..], id)
  }

  /** The row's cell in column `col` is the id of one of the employees. */
  function Belongs(ansatte: seq<Employee>, col: nat): seq<Cell> -> bool
  {
    row => FindEmployee(ansatte, At(row, col)).Some?
  }

  /** `data.find((r) => r[col] === id)` finds a row. */
  predicate HasRowFor(data: seq<seq<Cell>>, col: nat, id: Cell)
  {
    data != [] && (At(data[0], col) == id || HasRowFor(data[1..], col, id))
  }

  /** The search finds a row exactly when some row carries the id in column `col`. */
  lemma {:induction false} HasRowForWitness(data: seq<seq<Cell>>, col: nat, id: Cell)
    ensures HasRowFor(data, col, id) <==> exists k :: 0 <= k < |data| && At(data[k], col) == id
  {
    if data != [] {
      HasRowForWitness(data[1..], col, id);
      if exists k :: 0 <= k < |data| && At(data[k], col) == id {
        var k :| 0 <= k < |data| && At(data[k], col) == id;
        if k > 0 {
          assert At(data[1..][k - 1], col) == id;
        }
      }
      if exists k :: 0 <= k < |data[1..]| && At(data[1..][k], col) == id {
        var k :| 0 <= k < |data[1..]| && At(data[1..][k], col) == id;
        assert data[k + 1] == data[1..][k];
      }
    }
  }

  function NoRowFor(data: seq<seq<Cell>>, col: nat): Employee -> bool
  {
    (a: Employee) => !HasRowFor(data, col, a.googleid)
  }

  /** The employees without a row, in employee order. */
  function Absent(ansatte: seq<Employee>, data: seq<seq<Cell>>, col: nat): seq<Employee>
  {
    Filter(ansatte, NoRowFor(data, col))
  }

  /** `getDataForAnsatte`: the rows whose first cell is an employee's id, in order. */
  function DataForAnsatte(ansatte: seq<Employee>, data: seq<seq<Cell>>): seq<seq<Cell>>
  {
    Filter(data, Belongs(ansatte, 0))
  }

  /** `new Array(n)`: `n` holes. */
  function Holes(n: nat): (r: seq<Cell>)
    ensures |r| == n && forall k :: 0 <= k < n ==> r[k] == Undef
  {
    seq(n, _ => Undef)
  }

  /** `new Array(n).fill('')`. */
  function Blanks(n: nat): (r: seq<Cell>)
    ensures |r| == n && forall k :: 0 <= k < n ==> r[k] == Text("")
  {
    seq(n, _ => Text(""))
  }

  /** The placeholder row of `getMissingAnsatte`, `width` cells wide. */
  function HoleRow(width: nat): Employee -> seq<Cell>
    requires width >= 1
  {
    (a: Employee) => [a.googleid] + Holes(width - 1)
  }

  /** The placeholder row of `getMissingEmployees`, `width` cells wide. */
  function BlankRow(width: nat): Employee -> seq<Cell>
    requires width >= 2
  {
    (a: Employee) => [Text(""), a.googleid] + Blanks(width - 2)
  }

  /** `getMissingAnsatte`: a placeholder row for each employee without a row. The width
      is read from `data[0]` at the first such employee, which throws when there is no
      row at all, and `new Array(-1)` throws when the first row is empty. */
  function MissingAnsatteOf(ansatte: seq<Employee>, data: seq<seq<Cell>>): Result<seq<seq<Cell>>>
  {
    var absent := Absent(ansatte, data, 0);
    if absent == [] then Ok([])
    else if data == [] then Err(TypeError("Cannot read properties of undefined (reading 'length')"))
    else if |data[0]| == 0 then Err(RangeError("Invalid array length"))
    else Ok(Map(absent, HoleRow(|data[0]|)))
  }

  /** `getMissingEmployees`: the same, matching on column 1, with `['', id, '', ...]`
      rows; `new Array(n - 2)` throws when the first row has fewer than two cells. */
  function MissingEmployeesOf(employees: seq<Employee>, data: seq<seq<Cell>>): Result<seq<seq<Cell>>>
  {
    var absent := Absent(employees, data, 1);
    if absent == [] then Ok([])
    else if data == [] then Err(TypeError("Cannot read properties of undefined (reading 'length')"))
    else if |data[0]| < 2 then Err(RangeError("Invalid array length"))
    else Ok(Map(absent, BlankRow(|data[0]|)))
  }

  /** An employee without a row in the prefix is one without a row in the whole list. */
  lemma {:induction false} AbsentPrefix(ansatte: seq<Employee>, data: seq<seq<Cell>>, col: nat, i: nat)
    requires i <= |ansatte| && Absent(ansatte[..i], data, col) != []
    ensures Absent(ansatte, data, col) != []
  {
    assert ansatte[..i] + ansatte[i..] == ansatte;
    FilterAppend(ansatte[..i], ansatte[i..], NoRowFor(data, col));
  }

  /** The `forEach` of `getMissingAnsatte`. */
  method GetMissingAnsatte(ansatte: seq<Employee>, data: seq<seq<Cell>>) returns (r: Result<seq<seq<Cell>>>)
    ensures r == MissingAnsatteOf(ansatte, data)
  {
    var missing: seq<seq<Cell>> := [];
    for i := 0 to |ansatte|
      invariant Absent(ansatte[..i], data, 0) == [] ==> missing == []
      invariant Absent(ansatte[..i], data, 0) != [] ==>
                  data != [] && |data[0]| >= 1 && missing == Map(Absent(ansatte[..i], data, 0), HoleRow(|data[0]|))
    {
      var a := ansatte[i];
      FilterStep(ansatte, i, NoRowFor(data, 0));
      if !HasRowFor(data, 0, a.googleid) {
        AbsentPrefix(ansatte, data, 0, i + 1);
        if data == [] {
          return Err(TypeError("Cannot read properties of undefined (reading 'length')"));
        }
        if |data[0]| == 0 {
          return Err(RangeError("Invalid array length"));
        }
        var row := [a.googleid] + Holes(|data[0]| - 1);
        MapAppend(Absent(ansatte[..i], data, 0), [a], HoleRow(|data[0]|));
        missing := missing + [row];
      } else {
        assert Absent(ansatte[..i + 1], data, 0) == Absent(ansatte[..i], data, 0) + [];
      }
    }
    assert ansatte[..|ansatte|] == ansatte;
    return Ok(missing);
  }

  /** The `forEach` of `getMissingEmployees`. */
  method GetMissingEmployees(employees: seq<Employee>, data: seq<seq<Cell>>) returns (r: Result<seq<seq<Cell>>>)
    ensures r == MissingEmployeesOf(employees, data)
  {
    var missing: seq<seq<Cell>> := [];
    for i := 0 to |employees|
      invariant Absent(employees[..i], data, 1) == [] ==> missing == []
      invariant Absent(employees[..i], data, 1) != [] ==>
                  data != [] && |data[0]| >= 2 && missing == Map(Absent(employees[..i], data, 1), BlankRow(|data[0]|))
    {
      var a := employees[i];
      FilterStep(employees, i, NoRowFor(data, 1));
      if !HasRowFor(data, 1, a.googleid) {
        AbsentPrefix(employees, data, 1, i + 1);
        if data == [] {
          return Err(TypeError("Cannot read properties of undefined (reading 'length')"));
        }
        if |data[0]| < 2 {
          return Err(RangeError("Invalid array length"));
        }
        var row := [Text(""), a.googleid] + Blanks(|data[0]| - 2);
        MapAppend(Absent(employees[..i], data, 1), [a], BlankRow(|data[0]|));
        missing := missing + [row];
      } else {
        assert Absent(employees[..i + 1], data, 1) == Absent(employees[..i], data, 1) + [];
      }
    }
    assert employees[..|employees|] == employees;
    return Ok(missing);
  }

  /** The employees left without a row are exactly those whose id the search finds in
      no row; there are some exactly when one of the employees has no row. */
  lemma {:induction false} AbsentMembers(ansatte: seq<Employee>, data: seq<seq<Cell>>, col: nat)
    ensures forall k :: 0 <= k < |Absent(ansatte, data, col)| ==>
              Absent(ansatte, data, col)[k] in ansatte && !HasRowFor(data, col, Absent(ansatte, data, col)[k].googleid)
    ensures forall a :: 0 <= a < |ansatte| && !HasRowFor(data, col, ansatte[a].googleid) ==>
              ansatte[a] in Absent(ansatte, data, col)
    ensures Absent(ansatte, data, col) != [] <==>
              exists a :: 0 <= a < |ansatte| && !HasRowFor(data, col, ansatte[a].googleid)
  {
    var p := NoRowFor(data, col);
    var absent := Absent(ansatte, data, col);
    FilterMembers(ansatte, p);
    forall a | 0 <= a < |ansatte| && !HasRowFor(data, col, ansatte[a].googleid)
      ensures ansatte[a] in absent
    {
      assert p(ansatte[a]);
    }
    if absent != [] {
      var a :| 0 <= a < |ansatte| && ansatte[a] == absent[0];
      assert !HasRowFor(data, col, ansatte[a].googleid);
    }
  }

  /** The employees left without a row keep the employee order, and an employee listed
      twice is left twice. */
  lemma {:induction false} AbsentInOrder(ansatte: seq<Employee>, data: seq<seq<Cell>>, col: nat)
    ensures var r := Absent(ansatte, data, col);
            var idx := PassingFrom(ansatte, NoRowFor(data, col), 0);
      && |idx| == |r|
      && (forall k :: 0 <= k < |idx| ==>
            idx[k] < |ansatte| && r[k] == ansatte[idx[k]] && !HasRowFor(data, col, ansatte[idx[k]].googleid))
      && (forall k, l :: 0 <= k < l < |idx| ==> idx[k] < idx[l])
      && (forall j :: 0 <= j < |ansatte| && !HasRowFor(data, col, ansatte[j].googleid) ==> j in idx)
  {
    var p := NoRowFor(data, col);
    FilterPicks(ansatte, p);
    forall j | 0 <= j < |ansatte| && !HasRowFor(data, col, ansatte[j].googleid)
      ensures j in PassingFrom(ansatte, p, 0)
    {
      assert p(ansatte[j]);
    }
  }

  /** `row` is a placeholder of `getMissingAnsatte`: `width` cells, the id, then holes. */
  ghost predicate IsHoleRow(row: seq<Cell>, width: nat, id: Cell)
  {
    |row| == width && At(row, 0) == id && forall c :: 1 <= c < |row| ==> row[c] == Undef
  }

  /** `row` is a placeholder of `getMissingEmployees`: `width` cells reading
      `['', id, '', ...]`. */
  ghost predicate IsBlankRow(row: seq<Cell>, width: nat, id: Cell)
  {
    && |row| == width && At(row, 0) == Text("") && At(row, 1) == id
    && forall c :: 2 <= c < |row| ==> row[c] == Text("")
  }

  /** `getMissingAnsatte` throws exactly when an employee has no row and there is no
      first row, or it is empty. Otherwise it gives, in employee order, one placeholder
      per employee without a row, as wide as the first row. */
  lemma {:induction false} MissingAnsatteRows(ansatte: seq<Employee>, data: seq<seq<Cell>>)
    ensures var r := MissingAnsatteOf(ansatte, data);
            var absent := Absent(ansatte, data, 0);
      && (r.Err? <==> absent != [] && (data == [] || |data[0]| == 0))
      && (r.Ok? ==> |r.value| == |absent| && forall k :: 0 <= k < |absent| ==>
                      IsHoleRow(r.value[k], |data[0]|, absent[k].googleid))
  {
    var absent := Absent(ansatte, data, 0);
    var r := MissingAnsatteOf(ansatte, data);
    if r.Ok? && absent != [] {
      forall k | 0 <= k < |absent| ensures IsHoleRow(r.value[k], |data[0]|, absent[k].googleid) {
        assert r.value[k] == HoleRow(|data[0]|)(absent[k]);
      }
    }
  }

  /** `getMissingEmployees` throws exactly when an employee has no row and there is no
      first row, or it has fewer than two cells. Otherwise it gives, in employee order,
      one placeholder per employee without a row, as wide as the first row. */
  lemma {:induction false} MissingEmployeesRows(employees: seq<Employee>, data: seq<seq<Cell>>)
    ensures var r := MissingEmployeesOf(employees, data);
            var absent := Absent(employees, data, 1);
      && (r.Err? <==> absent != [] && (data == [] || |data[0]| < 2))
      && (r.Ok? ==> |r.value| == |absent| && forall k :: 0 <= k < |absent| ==>
                      IsBlankRow(r.value[k], |data[0]|, absent[k].googleid))
  {
    var absent := Absent(employees, data, 1);
    var r := MissingEmployeesOf(employees, data);
    if r.Ok? && absent != [] {
      forall k | 0 <= k < |absent| ensures IsBlankRow(r.value[k], |data[0]|, absent[k].googleid) {
        assert r.value[k] == BlankRow(|data[0]|)(absent[k]);
      }
    }
  }

  /** The placeholders carry, in order, the ids of the employees without a row in
      column `col`. */
  ghost predicate PlaceholdersFor(missing: seq<seq<Cell>>, absent: seq<Employee>, col: nat)
  {
    |missing| == |absent| && forall k :: 0 <= k < |absent| ==> At(missing[k], col) == absent[k].googleid
  }

  /** With the placeholders after the matched rows, the search for an employee's row
      succeeds. */
  lemma {:induction false} RowsCoverEmployee(ansatte: seq<Employee>, data: seq<seq<Cell>>, col: nat, missing: seq<seq<Cell>>, a: nat)
    requires a < |ansatte| && PlaceholdersFor(missing, Absent(ansatte, data, col), col)
    ensures HasRowFor(Filter(data, Belongs(ansatte, col)) + missing, col, ansatte[a].googleid)
  {
    var matched := Filter(data, Belongs(ansatte, col));
    var all := matched + missing;
    var id := ansatte[a].googleid;
    HasRowForWitness(all, col, id);
    HasRowForWitness(data, col, id);
    if HasRowFor(data, col, id) {
      FilterMembers(data, Belongs(ansatte, col));
      var j :| 0 <= j < |data| && At(data[j], col) == id;
      assert Belongs(ansatte, col)(data[j]);
      var k :| 0 <= k < |matched| && matched[k] == data[j];
      assert all[k] == matched[k];
    } else {
      var absent := Absent(ansatte, data, col);
      AbsentMembers(ansatte, data, col);
      var k :| 0 <= k < |absent| && absent[k] == ansatte[a];
      assert all[|matched| + k] == missing[k];
    }
  }

  /** Every row carries in column `col` the id of one of the employees. */
  ghost predicate AllBelong(ansatte: seq<Employee>, rows: seq<seq<Cell>>, col: nat)
  {
    forall k :: 0 <= k < |rows| ==> FindEmployee(ansatte, At(rows[k], col)).Some?
  }

  /** With the placeholders after the matched rows, every row belongs to an employee. */
  lemma {:induction false} RowsBelong(ansatte: seq<Employee>, data: seq<seq<Cell>>, col: nat, missing: seq<seq<Cell>>)
    requires PlaceholdersFor(missing, Absent(ansatte, data, col), col)
    ensures AllBelong(ansatte, Filter(data, Belongs(ansatte, col)) + missing, col)
  {
    var matched := Filter(data, Belongs(ansatte, col));
    var absent := Absent(ansatte, data, col);
    var all := matched + missing;
    AbsentMembers(ansatte, data, col);
    forall k | 0 <= k < |all| ensures FindEmployee(ansatte, At(all[k], col)).Some? {
      if k < |matched| {
        assert Belongs(ansatte, col)(matched[k]);
      } else {
        var m := k - |matched|;
        var a :| 0 <= a < |ansatte| && ansatte[a] == absent[m];
        assert At(all[k], col) == ansatte[a].googleid;
      }
    }
  }

  lemma {:induction false} MissingAnsattePlaceholders(ansatte: seq<Employee>, data: seq<seq<Cell>>)
    requires MissingAnsatteOf(ansatte, data).Ok?
    ensures PlaceholdersFor(MissingAnsatteOf(ansatte, data).value, Absent(ansatte, data, 0), 0)
  {
    MissingAnsatteRows(ansatte, data);
    var absent := Absent(ansatte, data, 0);
    var missing := MissingAnsatteOf(ansatte, data).value;
    forall k | 0 <= k < |absent| ensures At(missing[k], 0) == absent[k].googleid {
      assert IsHoleRow(missing[k], |data[0]|, absent[k].googleid);
    }
  }

  /** The rows of the group overview, `ansatteRows.concat(missing)`: every employee has a
      row, and every row belongs to an employee, so the view's lookup by id never
      fails. */
  lemma {:induction false} OverviewRows(ansatte: seq<Employee>, data: seq<seq<Cell>>)
    requires MissingAnsatteOf(ansatte, data).Ok?
    ensures var all := DataForAnsatte(ansatte, data) + MissingAnsatteOf(ansatte, data).value;
      && (forall a :: 0 <= a < |ansatte| ==> HasRowFor(all, 0, ansatte[a].googleid))
      && (forall k :: 0 <= k < |all| ==> FindEmployee(ansatte, At(all[k], 0)).Some?)
  {
    var missing := MissingAnsatteOf(ansatte, data).value;
    var all := Filter(data, Belongs(ansatte, 0)) + missing;
    assert DataForAnsatte(ansatte, data) + MissingAnsatteOf(ansatte, data).value == all;
    MissingAnsattePlaceholders(ansatte, data);
    forall a | 0 <= a < |ansatte| ensures HasRowFor(all, 0, ansatte[a].googleid) {
      RowsCoverEmployee(ansatte, data, 0, missing, a);
    }
    RowsBelong(ansatte, data, 0, missing);
    assert AllBelong(ansatte, all, 0);
  }

  /** An employee object after the `map` of `getDataForEmployeesInGroup` has set its
      `competencies` and `motivations`; `employee` is `None` for the `{ googleid }`
      stand-in. */
  datatype Response = Response(employee: Option<Employee>, googleid: Cell, competencies: seq<Cell>, motivations: seq<Cell>)

  /** The map callback: the row's employee with the row's answers split in two. */
  function ResponseOf(employees: seq<Employee>): seq<Cell> -> Response
  {
    r => Response(FindEmployee(employees, At(r, 1)), At(r, 1), Evens(Drop(r, 2)), Odds(Drop(r, 2)))
  }

  /** `data[r.googleid] = r`, with the id turned into a property key. */
  function EntryOf(employees: seq<Employee>): seq<Cell> -> (string, Response)
  {
    r => (KeyOf(At(r, 1)), ResponseOf(employees)(r))
  }

  /** The rows `getDataForEmployeesInGroup` maps: those of the group's employees, then
      the placeholders. The header row is dropped first. */
  function GroupRowsOf(employees: seq<Employee>, values: seq<seq<Cell>>): Result<seq<seq<Cell>>>
  {
    var alldata := Drop(values, 1);
    match MissingEmployeesOf(employees, alldata)
    case Err(e) => Err(e)
    case Ok(missing) => Ok(Filter(alldata, Belongs(employees, 1)) + missing)
  }

  /** `getDataForEmployeesInGroup` on the values of the answer sheet. */
  function EmployeesInGroupOf(employees: seq<Employee>, values: seq<seq<Cell>>): Result<seq<(string, Response)>>
  {
    match GroupRowsOf(employees, values)
    case Err(e) => Err(e)
    case Ok(rows) => Ok(AssignAll(Map(rows, EntryOf(employees))))
  }

  method DataForEmployeesInGroup(employees: seq<Employee>, values: seq<seq<Cell>>) returns (r: Result<seq<(string, Response)>>)
    ensures r == EmployeesInGroupOf(employees, values)
  {
    var alldata := Drop(values, 1);
    var missing := GetMissingEmployees(employees, alldata);
    if missing.Err? {
      return Err(missing.error);
    }
    var rows := Filter(alldata, Belongs(employees, 1)) + missing.value;
    var responses := Map(rows, EntryOf(employees));
    var data: seq<(string, Response)> := [];
    for i := 0 to |responses|
      invariant data == AssignAll(responses[..i])
    {
      assert responses[..i + 1][..i] == responses[..i];
      data := Assign(data, responses[i].0, responses[i].1);
    }
    assert responses[..|responses|] == responses;
    return Ok(data);
  }

  lemma {:induction false} MissingEmployeesPlaceholders(employees: seq<Employee>, data: seq<seq<Cell>>)
    requires MissingEmployeesOf(employees, data).Ok?
    ensures PlaceholdersFor(MissingEmployeesOf(employees, data).value, Absent(employees, data, 1), 1)
  {
    MissingEmployeesRows(employees, data);
    var absent := Absent(employees, data, 1);
    var missing := MissingEmployeesOf(employees, data).value;
    forall k | 0 <= k < |absent| ensures At(missing[k], 1) == absent[k].googleid {
      assert IsBlankRow(missing[k], |data[0]|, absent[k].googleid);
    }
  }

  /** Every row mapped by `getDataForEmployeesInGroup` has an employee with its id, so
      the `{ googleid }` stand-in is never used, and every employee has a row. */
  lemma {:induction false} GroupRows(employees: seq<Employee>, values: seq<seq<Cell>>)
    requires GroupRowsOf(employees, values).Ok?
    ensures var rows := GroupRowsOf(employees, values).value;
      && (forall k :: 0 <= k < |rows| ==> FindEmployee(employees, At(rows[k], 1)).Some?)
      && (forall a :: 0 <= a < |employees| ==> HasRowFor(rows, 1, employees[a].googleid))
  {
    var alldata := Drop(values, 1);
    var missing := MissingEmployeesOf(employees, alldata).value;
    var rows := Filter(alldata, Belongs(employees, 1)) + missing;
    assert GroupRowsOf(employees, values).value == rows;
    MissingEmployeesPlaceholders(employees, alldata);
    forall a | 0 <= a < |employees| ensures HasRowFor(rows, 1, employees[a].googleid) {
      RowsCoverEmployee(employees, alldata, 1, missing, a);
    }
    RowsBelong(employees, alldata, 1, missing);
    assert AllBelong(employees, rows, 1);
  }

  /** The dictionary keeps each key once and has an entry under every employee's id. */
  lemma {:induction false} EmployeesInGroupKeys(employees: seq<Employee>, values: seq<seq<Cell>>, a: nat)
    requires EmployeesInGroupOf(employees, values).Ok? && a < |employees|
    ensures var dict := EmployeesInGroupOf(employees, values).value;
      DistinctKeys(dict) && Get(dict, KeyOf(employees[a].googleid)).Some?
  {
    var rows := GroupRowsOf(employees, values).value;
    var entries := Map(rows, EntryOf(employees));
    var key := KeyOf(employees[a].googleid);
    GroupRows(employees, values);
    AssignAllDistinct(entries);
    AssignAllLastWins(entries, key);
    LastValueIsLast(entries, key);
    HasRowForWitness(rows, 1, employees[a].googleid);
    var k :| 0 <= k < |rows| && At(rows[k], 1) == employees[a].googleid;
    assert entries[k].0 == key;
  }

  /** Under each key the dictionary holds the response of the last row with that key,
      and that response carries the employee whose id gave the key. */
  lemma {:induction false} EmployeesInGroupEntry(employees: seq<Employee>, values: seq<seq<Cell>>, key: string)
    requires EmployeesInGroupOf(employees, values).Ok?
    ensures var dict := EmployeesInGroupOf(employees, values).value;
            var entries := Map(GroupRowsOf(employees, values).value, EntryOf(employees));
      && Get(dict, key) == LastValue(entries, key)
      && (Get(dict, key).Some? ==>
            && Get(dict, key).value.employee.Some?
            && Get(dict, key).value.employee.value.googleid == Get(dict, key).value.googleid
            && KeyOf(Get(dict, key).value.googleid) == key)
  {
    var rows := GroupRowsOf(employees, values).value;
    var entries := Map(rows, EntryOf(employees));
    GroupRows(employees, values);
    AssignAllLastWins(entries, key);
    LastValueIsLast(entries, key);
    if LastValue(entries, key).Some? {
      var i :| 0 <= i < |entries| && entries[i] == (key, LastValue(entries, key).value);
      var row := rows[i];
      var resp := ResponseOf(employees)(row);
      assert entries[i] == EntryOf(employees)(row) == (KeyOf(At(row, 1)), resp);
      assert resp.employee == FindEmployee(employees, At(row, 1)) && resp.googleid == At(row, 1);
      assert FindEmployee(employees, At(row, 1)).Some?;
      assert Get(EmployeesInGroupOf(employees, values).value, key) == Some(resp);
    }
  }
}
