/** The leaders and their groups as the report script reads them: `getLedereList` turns
    each row of the leader sheet into an object keyed by its header row, and
    `getGroupManagers` gives every leader the employees whose leader column holds the
    leader's Google id. The sheets' values are parameters. */
module ReportManagers {
  import opened Values
  import opened ArrayOps
  import opened Strings
  import opened Objects

  /** An employee of a group, `{ googleid, lederid, navn, visningsnavn, brukernavn }`. */
  datatype Employee = Employee(googleid: Cell, lederid: Cell, navn: Cell, visningsnavn: string, brukernavn: Cell)

  /** A leader object built from a row: its properties in the order they were first
      assigned. */
  type Record = seq<(string, Cell)>

  /** A leader with the employees of its group, `item.ansatte`. */
  datatype Group = Group(leader: Record, ansatte: seq<Employee>)

  /** `navn.split(',').reverse().join(' ').trim()`. */
  function DisplayName(navn: string): string
  {
    Trim(Join(Reverse(Split(navn, ',')), " "))
  }

  /** A name written "Surname,Given" is shown "Given Surname". */
  lemma {:induction false} DisplayNameSwapsParts(surname: string, given: string)
    requires ',' !in surname && ',' !in given
    ensures DisplayName(surname + "," + given) == Trim(given + " " + surname)
  {
    SplitAfter(surname, given, ',');
    SplitNoSeparator(given, ',');
    var parts := Split(surname + "," + given, ',');
    assert parts == [surname, given];
    assert Reverse(parts) == [given, surname];
    assert Join([given, surname], " ") == given + " " + Join([surname], " ");
  }

  /** A name without a comma is only trimmed. */
  lemma {:induction false} DisplayNameWithoutComma(navn: string)
    requires ',' !in navn
    ensures DisplayName(navn) == Trim(navn)
  {
    SplitNoSeparator(navn, ',');
    assert Reverse([navn]) == [navn];
  }

  /** `headers[i].replace(/\s+/g, '').toLowerCase()`: a header cell as a property key;
      only a string has `replace`. */
  function HeaderKey(header: Cell): Result<string>
  {
    match header
    case Text(s) => Ok(Lower(RemoveSpaces(s)))
    case Num(_) => Err(TypeError("headers[i].replace is not a function"))
    case Undef => Err(TypeError("Cannot read properties of undefined (reading 'replace')"))
  }

  /** A property in a template literal, `${res.fornavn}`. */
  function Show(v: Option<Cell>): string
  {
    if v.Some? then KeyOf(v.value) else "undefined"
  }

  /** The assignments of the header loop, `res[keys[i]] = row[i]`, in order. */
  function RowEntries(keys: seq<string>, row: seq<Cell>): (r: seq<(string, Cell)>)
    ensures |r| == |keys|
    ensures forall i :: 0 <= i < |keys| ==> r[i] == (keys[i], At(row, i))
  {
    seq(|keys|, i requires 0 <= i < |keys| => (keys[i], At(row, i)))
  }

  /** The header loop assigns one more entry per header. */
  lemma {:induction false} AssignAllRowEntries(keys: seq<string>, key: string, row: seq<Cell>)
    ensures AssignAll(RowEntries(keys + [key], row)) == Assign(AssignAll(RowEntries(keys, row)), key, At(row, |keys|))
  {
    var entries := RowEntries(keys + [key], row);
    assert entries[..|keys|] == RowEntries(keys, row);
  }

  /** `res.visningsnavn = `${res.fornavn} ${res.etternavn}``. */
  function WithDisplayName(res: Record): Record
  {
    Assign(res, "visningsnavn", Text(Show(Get(res, "fornavn")) + " " + Show(Get(res, "etternavn"))))
  }

  /** The object the `map` callback of `getLedereList` builds from `row`. */
  function LeaderRecord(headers: seq<Cell>, row: seq<Cell>): Result<Record>
  {
    match MapAll(headers, HeaderKey)
    case Err(e) => Err(e)
    case Ok(keys) => Ok(WithDisplayName(AssignAll(RowEntries(keys, row))))
  }

  function RecordOf(headers: seq<Cell>): seq<Cell> -> Result<Record>
  {
    row => LeaderRecord(headers, row)
  }

  /** The `map` callback of `getLedereList`, with its loop over the headers. */
  method BuildLeaderRecord(headers: seq<Cell>, row: seq<Cell>) returns (r: Result<Record>)
    ensures r == LeaderRecord(headers, row)
  {
    var res: Record := [];
    ghost var keys: seq<string> := [];
    for i := 0 to |headers|
      invariant MapAll(headers[..i], HeaderKey) == Ok(keys)
      invariant res == AssignAll(RowEntries(keys, row))
    {
      var key := HeaderKey(headers[i]);
      MapAllStep(headers, i, HeaderKey);
      if key.Err? {
        return Err(key.error);
      }
      AssignAllRowEntries(keys, key.value, row);
      res := Assign(res, key.value, At(row, i));
      keys := keys + [key.value];
    }
    assert headers[..|headers|] == headers;
    return Ok(WithDisplayName(res));
  }

  /** `.filter((r) => r.googleid.length > 0)`: a string id is kept when it is not
      empty, a number has no `length` (and `undefined > 0` is false), and a missing or
      undefined id throws. */
  function GoogleIdKept(rec: Record): Result<bool>
  {
    var id: Option<Cell> := Get(rec, "googleid");
    if id.Some? && id.value.Text? then Ok(|id.value.s| > 0)
    else if id.Some? && id.value.Num? then Ok(false)
    else Err(TypeError("Cannot read properties of undefined (reading 'length')"))
  }

  /** `getLedereList` on the values of the leader sheet: the first row holds the headers,
      every further row is a leader. */
  function LedereListOf(values: seq<seq<Cell>>): Result<seq<Record>>
  {
    if values == [] then Ok([])
    else
      match MapAll(values[1..], RecordOf(values[0]))
      case Err(e) => Err(e)
      case Ok(records) => FilterAll(records, GoogleIdKept)
  }

  method LedereList(values: seq<seq<Cell>>) returns (r: Result<seq<Record>>)
    ensures r == LedereListOf(values)
  {
    if values == [] {
      return Ok([]);
    }
    var headers := values[0];
    var rows := values[1..];
    var records: seq<Record> := [];
    for i := 0 to |rows|
      invariant MapAll(rows[..i], RecordOf(headers)) == Ok(records)
    {
      var rec := BuildLeaderRecord(headers, rows[i]);
      MapAllStep(rows, i, RecordOf(headers));
      if rec.Err? {
        return Err(rec.error);
      }
      records := records + [rec.value];
    }
    assert rows[..|rows|] == rows;
    return FilterAll(records, GoogleIdKept);
  }

  /** A leader's object fails to build exactly when a header is not a string. Otherwise
      each key is held once; `visningsnavn` holds the first and last names joined by a
      space; and every other key holds the cell of the last column whose header gives
      that key, or is absent when no header does. */
  lemma {:induction false} LeaderRecordReads(headers: seq<Cell>, row: seq<Cell>, key: string)
    ensures LeaderRecord(headers, row).Ok? <==> forall i :: 0 <= i < |headers| ==> headers[i].Text?
    ensures LeaderRecord(headers, row).Ok? ==>
              var rec := LeaderRecord(headers, row).value;
              var keys := MapAll(headers, HeaderKey).value;
              var res := AssignAll(RowEntries(keys, row));
              && DistinctKeys(rec)
              && Get(rec, "visningsnavn") == Some(Text(Show(Get(res, "fornavn")) + " " + Show(Get(res, "etternavn"))))
              && (key != "visningsnavn" ==> Get(rec, key) == LastValue(RowEntries(keys, row), key))
  {
    assert forall i :: 0 <= i < |headers| ==> (HeaderKey(headers[i]).Ok? <==> headers[i].Text?);
    if LeaderRecord(headers, row).Ok? {
      var keys := MapAll(headers, HeaderKey).value;
      var res := AssignAll(RowEntries(keys, row));
      var v := Text(Show(Get(res, "fornavn")) + " " + Show(Get(res, "etternavn")));
      AssignAllDistinct(RowEntries(keys, row));
      AssignDistinct(res, "visningsnavn", v);
      GetAssign(res, "visningsnavn", v, "visningsnavn");
      GetAssign(res, "visningsnavn", v, key);
      AssignAllLastWins(RowEntries(keys, row), key);
    }
  }

  /** Does the leader have a Google id the filter keeps? */
  predicate HasGoogleId(rec: Record)
  {
    GoogleIdKept(rec) == Ok(true)
  }

  /** Without a header row the list is empty. Otherwise, when it succeeds, it holds the
      leader of every row whose Google id is a non-empty string and no other; it throws
      exactly when a row's leader fails to build or has no Google id. */
  lemma {:induction false} LedereListLeaders(values: seq<seq<Cell>>)
    ensures values == [] ==> LedereListOf(values) == Ok([])
    ensures values != [] ==>
              var rows := values[1..];
              var r := LedereListOf(values);
              && (r.Ok? <==> forall j :: 0 <= j < |rows| ==>
                    LeaderRecord(values[0], rows[j]).Ok? && GoogleIdKept(LeaderRecord(values[0], rows[j]).value).Ok?)
              && (r.Ok? ==>
                    && (forall k :: 0 <= k < |r.value| ==> HasGoogleId(r.value[k]))
                    && (forall k :: 0 <= k < |r.value| ==>
                          exists j :: 0 <= j < |rows| && LeaderRecord(values[0], rows[j]) == Ok(r.value[k]))
                    && (forall j :: 0 <= j < |rows| && HasGoogleId(LeaderRecord(values[0], rows[j]).value) ==>
                          LeaderRecord(values[0], rows[j]).value in r.value))
  {
    if values != [] {
      var rows := values[1..];
      var f := RecordOf(values[0]);
      var m := MapAll(rows, f);
      assert forall j :: 0 <= j < |rows| ==> f(rows[j]) == LeaderRecord(values[0], rows[j]);
      if m.Ok? {
        var records := m.value;
        assert forall j :: 0 <= j < |rows| ==> records[j] == LeaderRecord(values[0], rows[j]).value;
        var r := FilterAll(records, GoogleIdKept);
        if r.Ok? {
          FilterMembers(records, Passes(GoogleIdKept));
          forall k | 0 <= k < |r.value|
            ensures exists j :: 0 <= j < |rows| && LeaderRecord(values[0], rows[j]) == Ok(r.value[k])
          {
            var j :| 0 <= j < |records| && records[j] == r.value[k];
            assert f(rows[j]) == Ok(records[j]);
          }
          forall j | 0 <= j < |rows| && HasGoogleId(LeaderRecord(values[0], rows[j]).value)
            ensures LeaderRecord(values[0], rows[j]).value in r.value
          {
            assert Passes(GoogleIdKept)(records[j]);
          }
        }
      } else {
        MapAllFirstFailure(rows, f);
      }
    }
  }

  /** A successful list keeps the leaders in row order, one for each row whose Google id
      is a non-empty string. */
  lemma {:induction false} LedereListInRowOrder(values: seq<seq<Cell>>)
    ensures values != [] && LedereListOf(values).Ok? ==>
            var rows := values[1..];
            var r := LedereListOf(values).value;
            var idx := PassingFrom(MapAll(rows, RecordOf(values[0])).value, Passes(GoogleIdKept), 0);
          && |idx| == |r|
          && (forall k :: 0 <= k < |idx| ==>
                idx[k] < |rows| && LeaderRecord(values[0], rows[idx[k]]) == Ok(r[k]) && HasGoogleId(r[k]))
          && (forall k, l :: 0 <= k < l < |idx| ==> idx[k] < idx[l])
          && (forall j :: 0 <= j < |rows| && HasGoogleId(LeaderRecord(values[0], rows[j]).value) ==> j in idx)
  {
    if values != [] && LedereListOf(values).Ok? {
      var rows := values[1..];
      var f := RecordOf(values[0]);
      var records := MapAll(rows, f).value;
      assert forall j :: 0 <= j < |rows| ==> f(rows[j]) == LeaderRecord(values[0], rows[j]);
      assert forall j :: 0 <= j < |rows| ==> Ok(records[j]) == LeaderRecord(values[0], rows[j]);
      FilterPicks(records, Passes(GoogleIdKept));
      var idx := PassingFrom(records, Passes(GoogleIdKept), 0);
      forall j | 0 <= j < |rows| && HasGoogleId(LeaderRecord(values[0], rows[j]).value) ensures j in idx {
        assert Passes(GoogleIdKept)(records[j]);
      }
    }
  }

  /** `item.googleid`, the value the group's rows are compared with. */
  function LeaderId(leader: Record): Cell
  {
    match Get(leader, "googleid")
    case Some(c) => c
    case None => Undef
  }

  /** `row[6] === item.googleid`: the row's leader column holds the leader's id. */
  function InGroup(leader: Record): seq<Cell> -> bool
  {
    row => At(row, 6) == LeaderId(leader)
  }

  /** The employee object of a row of the employee sheet; only a string name has
      `split`. */
  function EmployeeOf(row: seq<Cell>): Result<Employee>
  {
    match At(row, 0)
    case Text(navn) => Ok(Employee(At(row, 2), At(row, 6), Text(navn), DisplayName(navn), At(row, 3)))
    case Num(_) => Err(TypeError("row[0].split is not a function"))
    case Undef => Err(TypeError("Cannot read properties of undefined (reading 'split')"))
  }

  /** The `map` callback of `getGroupManagers` over the employee rows `rows`. */
  function GroupOf(rows: seq<seq<Cell>>): Record -> Result<Group>
  {
    leader =>
      match MapAll(Filter(rows, InGroup(leader)), EmployeeOf)
      case Err(e) => Err(e)
      case Ok(ansatte) => Ok(Group(leader, ansatte))
  }

  /** `getGroupManagers`: the employee rows start at the fourth row of the sheet. */
  function GroupManagersOf(ansatteValues: seq<seq<Cell>>, ledereValues: seq<seq<Cell>>): Result<seq<Group>>
  {
    match LedereListOf(ledereValues)
    case Err(e) => Err(e)
    case Ok(ledere) => MapAll(ledere, GroupOf(Drop(ansatteValues, 3)))
  }

  /** The employees of one leader, with the `forEach` over the employee rows. */
  method CollectGroup(leader: Record, rows: seq<seq<Cell>>) returns (r: Result<Group>)
    ensures r == GroupOf(rows)(leader)
  {
    var ansatte: seq<Employee> := [];
    for j := 0 to |rows|
      invariant MapAll(Filter(rows[..j], InGroup(leader)), EmployeeOf) == Ok(ansatte)
    {
      var row := rows[j];
      FilterMapAllStep(rows, j, InGroup(leader), EmployeeOf);
      if At(row, 6) == LeaderId(leader) {
        var ansatt := EmployeeOf(row);
        if ansatt.Err? {
          return Err(ansatt.error);
        }
        ansatte := ansatte + [ansatt.value];
      }
    }
    assert rows[..|rows|] == rows;
    return Ok(Group(leader, ansatte));
  }

  method GroupManagers(ansatteValues: seq<seq<Cell>>, ledereValues: seq<seq<Cell>>) returns (r: Result<seq<Group>>)
    ensures r == GroupManagersOf(ansatteValues, ledereValues)
  {
    var ledere := LedereList(ledereValues);
    if ledere.Err? {
      return Err(ledere.error);
    }
    var leaders := ledere.value;
    var rows := Drop(ansatteValues, 3);
    var grupper: seq<Group> := [];
    for i := 0 to |leaders|
      invariant MapAll(leaders[..i], GroupOf(rows)) == Ok(grupper)
    {
      var group := CollectGroup(leaders[i], rows);
      MapAllStep(leaders, i, GroupOf(rows));
      if group.Err? {
        return Err(group.error);
      }
      grupper := grupper + [group.value];
    }
    assert leaders[..|leaders|] == leaders;
    return Ok(grupper);
  }

  /** One leader's group fails exactly when one of its rows has a name that is not a
      string. */
  lemma {:induction false} GroupFails(rows: seq<seq<Cell>>, leader: Record)
    ensures GroupOf(rows)(leader).Ok? <==>
              forall j :: 0 <= j < |rows| && At(rows[j], 6) == LeaderId(leader) ==> At(rows[j], 0).Text?
  {
    var p := InGroup(leader);
    var members := Filter(rows, p);
    FilterMembers(rows, p);
    if MapAll(members, EmployeeOf).Ok? {
      forall j | 0 <= j < |rows| && At(rows[j], 6) == LeaderId(leader) ensures At(rows[j], 0).Text? {
        assert p(rows[j]);
        var k :| 0 <= k < |members| && members[k] == rows[j];
        assert EmployeeOf(members[k]).Ok?;
      }
    } else {
      MapAllFirstFailure(members, EmployeeOf);
      var k :| 0 <= k < |members| && EmployeeOf(members[k]).Err?;
      assert p(members[k]);
      var j :| 0 <= j < |rows| && rows[j] == members[k];
      assert !At(rows[j], 0).Text?;
    }
  }

  /** `e` is the employee of a row whose leader column holds the leader's id. */
  ghost predicate EmployeeOfGroupRow(rows: seq<seq<Cell>>, leader: Record, e: Employee)
  {
    exists j :: 0 <= j < |rows| && At(rows[j], 6) == LeaderId(leader) && EmployeeOf(rows[j]) == Ok(e)
  }

  /** Every employee of a group comes from one of its rows, has the leader's id as
      `lederid` and its name shown by `DisplayName`. */
  lemma {:induction false} GroupEmployees(rows: seq<seq<Cell>>, leader: Record)
    requires GroupOf(rows)(leader).Ok?
    ensures var g := GroupOf(rows)(leader).value;
      && g.leader == leader
      && forall k :: 0 <= k < |g.ansatte| ==>
           && g.ansatte[k].lederid == LeaderId(leader)
           && g.ansatte[k].navn.Text?
           && g.ansatte[k].visningsnavn == DisplayName(g.ansatte[k].navn.s)
           && EmployeeOfGroupRow(rows, leader, g.ansatte[k])
  {
    var p := InGroup(leader);
    var members := Filter(rows, p);
    FilterMembers(rows, p);
    var ansatte := MapAll(members, EmployeeOf).value;
    forall k | 0 <= k < |ansatte|
      ensures && ansatte[k].lederid == LeaderId(leader)
              && ansatte[k].navn.Text?
              && ansatte[k].visningsnavn == DisplayName(ansatte[k].navn.s)
              && EmployeeOfGroupRow(rows, leader, ansatte[k])
    {
      assert p(members[k]);
      var j :| 0 <= j < |rows| && rows[j] == members[k];
      assert EmployeeOf(rows[j]) == Ok(ansatte[k]);
    }
  }

  /** Every row whose leader column holds the leader's id gives an employee of the
      group. */
  lemma {:induction false} GroupCoversRows(rows: seq<seq<Cell>>, leader: Record)
    requires GroupOf(rows)(leader).Ok?
    ensures forall j :: 0 <= j < |rows| && At(rows[j], 6) == LeaderId(leader) ==>
              EmployeeOf(rows[j]).Ok? && EmployeeOf(rows[j]).value in GroupOf(rows)(leader).value.ansatte
  {
    var p := InGroup(leader);
    var members := Filter(rows, p);
    FilterMembers(rows, p);
    var ansatte := MapAll(members, EmployeeOf).value;
    forall j | 0 <= j < |rows| && At(rows[j], 6) == LeaderId(leader)
      ensures EmployeeOf(rows[j]).Ok? && EmployeeOf(rows[j]).value in ansatte
    {
      assert p(rows[j]);
      var k :| 0 <= k < |members| && members[k] == rows[j];
      assert EmployeeOf(members[k]) == Ok(ansatte[k]);
    }
  }
}
