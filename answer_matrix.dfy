/** The answer matrix of the 2022 data sheet: one fixed-width row per answer set, the
    question header printed sideways above it, and the roster of directory users who
    have not answered. */
module AnswerMatrix {
  import opened Values
  import opened Strings
  import opened ArrayOps
  import opened SurveyTypes
  import opened Catalog

  // ------------------------------------------------------------------ per-user lookups

  predicate HasScaleValue(a: InlineAnswer)
  {
    a.customScaleValue.Some?
  }

  predicate HasNoScaleValue(a: InlineAnswer)
  {
    a.customScaleValue.None?
  }

  /** The `Map` that `set(a.questionId, a)` fills with the answers satisfying `p`, taken
      in order, so that a later answer replaces an earlier one with the same id. */
  function Lookup(s: seq<InlineAnswer>, p: InlineAnswer -> bool): map<string, InlineAnswer>
  {
    if s == [] then map[]
    else
      var a := s[|s| - 1];
      var m := Lookup(s[..|s| - 1], p);
      if p(a) then m[a.questionId := a] else m
  }

  /** A question id is in the lookup exactly when some answer satisfying `p` has it, and
      it is then mapped to the last such answer. */
  lemma {:induction false} LookupIsLastAnswer(s: seq<InlineAnswer>, p: InlineAnswer -> bool, id: string)
    ensures id in Lookup(s, p) <==> exists k :: 0 <= k < |s| && p(s[k]) && s[k].questionId == id
    ensures id in Lookup(s, p) ==>
      exists k :: 0 <= k < |s| && p(s[k]) && s[k].questionId == id && Lookup(s, p)[id] == s[k]
                  && forall l :: k < l < |s| ==> !(p(s[l]) && s[l].questionId == id)
  {
    if s != [] {
      var init := s[..|s| - 1];
      var a := s[|s| - 1];
      LookupIsLastAnswer(init, p, id);
      if !(p(a) && a.questionId == id) && id in Lookup(s, p) {
        var k :| 0 <= k < |init| && p(init[k]) && init[k].questionId == id && Lookup(init, p)[id] == init[k]
                 && forall l :: k < l < |init| ==> !(p(init[l]) && init[l].questionId == id);
        assert s[k] == init[k];
        forall l | k < l < |s| ensures !(p(s[l]) && s[l].questionId == id) {
          if l < |s| - 1 { assert s[l] == init[l]; }
        }
      }
      if exists k :: 0 <= k < |s| && p(s[k]) && s[k].questionId == id {
        var k :| 0 <= k < |s| && p(s[k]) && s[k].questionId == id;
        if k < |s| - 1 { assert init[k] == s[k]; }
      }
    }
  }

  // ------------------------------------------------------------------ row cells

  /** A value pushed onto the row: a number, or `undefined` when the field is absent. */
  function OrUndef(v: Option<int>): Cell
  {
    if v.Some? then Num(v.value) else Undef
  }

  /** The cell of a job question: the answer's `customScaleValue`, or `""`. */
  function JobCell(jobs: map<string, InlineAnswer>, q: QuestionColumn): Cell
  {
    if q.id in jobs then OrUndef(jobs[q.id].customScaleValue) else Text("")
  }

  /** The knowledge cell of a competence question: the answer's `knowledge`, or `""`. */
  function KnowledgeCell(answers: map<string, InlineAnswer>, q: QuestionColumn): Cell
  {
    if q.id in answers then OrUndef(answers[q.id].knowledge) else Text("")
  }

  /** The motivation cell of a competence question: the answer's `motivation`, or `""`. */
  function MotivationCell(answers: map<string, InlineAnswer>, q: QuestionColumn): Cell
  {
    if q.id in answers then OrUndef(answers[q.id].motivation) else Text("")
  }

  function JobCells(jobs: map<string, InlineAnswer>, qs: seq<QuestionColumn>): (r: seq<Cell>)
    ensures |r| == |qs|
    ensures forall k :: 0 <= k < |qs| ==> r[k] == JobCell(jobs, qs[k])
  {
    if qs == [] then [] else [JobCell(jobs, qs[0])] + JobCells(jobs, qs[1..])
  }

  function KnowledgeCells(answers: map<string, InlineAnswer>, qs: seq<QuestionColumn>): (r: seq<Cell>)
    ensures |r| == |qs|
    ensures forall k :: 0 <= k < |qs| ==> r[k] == KnowledgeCell(answers, qs[k])
  {
    if qs == [] then [] else [KnowledgeCell(answers, qs[0])] + KnowledgeCells(answers, qs[1..])
  }

  function MotivationCells(answers: map<string, InlineAnswer>, qs: seq<QuestionColumn>): (r: seq<Cell>)
    ensures |r| == |qs|
    ensures forall k :: 0 <= k < |qs| ==> r[k] == MotivationCell(answers, qs[k])
  {
    if qs == [] then [] else [MotivationCell(answers, qs[0])] + MotivationCells(answers, qs[1..])
  }

  /** `[u.email, u.username, u.updatedAt.slice(0, 10)]`. */
  function RowHeader(u: UserQuestionAnswers): seq<Cell>
  {
    [Text(u.email), Text(u.username), Text(Prefix(u.updatedAt, 10))]
  }

  /** The row of one answer set: its header, then a cell per job question, a knowledge
      cell per competence question and a motivation cell per competence question. An
      `undefined` competence question throws. */
  function Row(u: UserQuestionAnswers, job: seq<QuestionColumn>, comp: seq<Option<QuestionColumn>>): Result<seq<Cell>>
  {
    if None in comp then Err(TypeError("Q is undefined"))
    else
      var jobs := Lookup(u.answers, HasScaleValue);
      var answers := Lookup(u.answers, HasNoScaleValue);
      var c := Defined(comp);
      Ok(RowHeader(u) + JobCells(jobs, job) + KnowledgeCells(answers, c) + MotivationCells(answers, c))
  }

  /** The row builder of `generateDataSheet`: the answers are sorted into two `Map`s, then
      three `for` loops push the cells. */
  method BuildRow(u: UserQuestionAnswers, job: seq<QuestionColumn>, comp: seq<Option<QuestionColumn>>)
    returns (r: Result<seq<Cell>>)
    ensures r == Row(u, job, comp)
  {
    var jobs, answers := SplitAnswers(u.answers);
    var row := PushJobCells(RowHeader(u), jobs, job);
    r := PushScoreCells(row, answers, comp);
  }

  /** The `forEach` that files each answer under its question id, in the job lookup when
      it has a `customScaleValue` and in the knowledge/motivation lookup otherwise. */
  method SplitAnswers(s: seq<InlineAnswer>) returns (jobs: map<string, InlineAnswer>, answers: map<string, InlineAnswer>)
    ensures jobs == Lookup(s, HasScaleValue)
    ensures answers == Lookup(s, HasNoScaleValue)
  {
    jobs := map[];
    answers := map[];
    var i := 0;
    while i < |s|
      invariant 0 <= i <= |s|
      invariant jobs == Lookup(s[..i], HasScaleValue)
      invariant answers == Lookup(s[..i], HasNoScaleValue)
    {
      var a := s[i];
      assert s[..i + 1][..i] == s[..i];
      if a.customScaleValue.Some? {
        jobs := jobs[a.questionId := a];
      } else {
        answers := answers[a.questionId := a];
      }
      i := i + 1;
    }
    assert s[..i] == s;
  }

  /** The loop over `jobQuestions`. */
  method PushJobCells(row0: seq<Cell>, jobs: map<string, InlineAnswer>, job: seq<QuestionColumn>) returns (row: seq<Cell>)
    ensures row == row0 + JobCells(jobs, job)
  {
    row := row0;
    var k := 0;
    while k < |job|
      invariant 0 <= k <= |job|
      invariant row == row0 + JobCells(jobs, job[..k])
    {
      assert job[..k + 1] == job[..k] + [job[k]];
      JobCellsSnoc(jobs, job[..k], job[k]);
      row := row + [JobCell(jobs, job[k])];
      k := k + 1;
    }
    assert job[..k] == job;
  }

  lemma {:induction false} JobCellsSnoc(jobs: map<string, InlineAnswer>, qs: seq<QuestionColumn>, q: QuestionColumn)
    ensures JobCells(jobs, qs + [q]) == JobCells(jobs, qs) + [JobCell(jobs, q)]
  {
    var l := JobCells(jobs, qs + [q]);
    var r := JobCells(jobs, qs) + [JobCell(jobs, q)];
    forall i | 0 <= i < |l| ensures l[i] == r[i] {
      if i < |qs| {
        assert (qs + [q])[i] == qs[i];
      }
    }
    assert l == r;
  }

  /** The two loops over `compQuestions`: the knowledge cells, then the motivation cells;
      the first `undefined` question throws. */
  method PushScoreCells(row0: seq<Cell>, answers: map<string, InlineAnswer>, comp: seq<Option<QuestionColumn>>)
    returns (r: Result<seq<Cell>>)
    ensures None in comp ==> r == Err(TypeError("Q is undefined"))
    ensures None !in comp ==> r == Ok(row0 + KnowledgeCells(answers, Defined(comp)) + MotivationCells(answers, Defined(comp)))
  {
    var row := row0;
    var k := 0;
    while k < |comp|
      invariant 0 <= k <= |comp|
      invariant forall i :: 0 <= i < k ==> comp[i].Some?
      invariant |row| == |row0| + k && row[..|row0|] == row0
      invariant forall i :: 0 <= i < k ==> row[|row0| + i] == KnowledgeCell(answers, comp[i].value)
    {
      if comp[k].None? {
        return Err(TypeError("Q is undefined"));
      }
      row := row + [KnowledgeCell(answers, comp[k].value)];
      k := k + 1;
    }
    DefinedAll(comp);
    assert row == row0 + KnowledgeCells(answers, Defined(comp));
    row := PushMotivationCells(row, answers, comp);
    r := Ok(row);
  }

  method PushMotivationCells(row0: seq<Cell>, answers: map<string, InlineAnswer>, comp: seq<Option<QuestionColumn>>)
    returns (row: seq<Cell>)
    requires None !in comp
    ensures row == row0 + MotivationCells(answers, Defined(comp))
  {
    row := row0;
    var k := 0;
    while k < |comp|
      invariant 0 <= k <= |comp|
      invariant |row| == |row0| + k && row[..|row0|] == row0
      invariant forall i :: 0 <= i < k ==> row[|row0| + i] == MotivationCell(answers, comp[i].value)
    {
      row := row + [MotivationCell(answers, comp[k].value)];
      k := k + 1;
    }
    DefinedAll(comp);
  }

  /** The layout of a row: it fails exactly when a competence question is `undefined`;
      otherwise it is 3 + |job| + 2·|comp| cells wide, the header first, then the job
      cells, the knowledge cells and the motivation cells, each in question order. */
  lemma {:induction false} RowLayout(u: UserQuestionAnswers, job: seq<QuestionColumn>, comp: seq<Option<QuestionColumn>>)
    ensures Row(u, job, comp).Err? <==> None in comp
    ensures Row(u, job, comp).Ok? ==>
      var r := Row(u, job, comp).value;
      var jobs := Lookup(u.answers, HasScaleValue);
      var answers := Lookup(u.answers, HasNoScaleValue);
      && |r| == 3 + |job| + 2 * |comp|
      && r[..3] == [Text(u.email), Text(u.username), Text(Prefix(u.updatedAt, 10))]
      && (forall k :: 0 <= k < |job| ==> r[3 + k] == JobCell(jobs, job[k]))
      && (forall k :: 0 <= k < |comp| ==> r[3 + |job| + k] == KnowledgeCell(answers, comp[k].value))
      && (forall k :: 0 <= k < |comp| ==> r[3 + |job| + |comp| + k] == MotivationCell(answers, comp[k].value))
  {
    if None !in comp {
      DefinedAll(comp);
    }
  }

  /** A row is as wide as the question list plus three and starts with the email. */
  lemma {:induction false} RowStartsWithEmail(u: UserQuestionAnswers, job: seq<QuestionColumn>, comp: seq<Option<QuestionColumn>>)
    requires Row(u, job, comp).Ok?
    ensures |Row(u, job, comp).value| == 3 + |job| + 2 * |comp|
    ensures FirstCell(Row(u, job, comp).value) == Text(u.email)
  {
    RowLayout(u, job, comp);
    assert Row(u, job, comp).value[..3][0] == Text(u.email);
  }

  /** A job cell is `""` exactly when no answer with a `customScaleValue` has the
      question's id; otherwise it is the value of the last such answer. */
  lemma {:induction false} JobCellIsLastScaleAnswer(s: seq<InlineAnswer>, q: QuestionColumn)
    ensures var c := JobCell(Lookup(s, HasScaleValue), q);
      && (c == Text("") <==> forall k :: 0 <= k < |s| && s[k].questionId == q.id ==> s[k].customScaleValue.None?)
      && (c != Text("") ==> exists k :: 0 <= k < |s| && s[k].questionId == q.id && s[k].customScaleValue.Some?
                                     && c == Num(s[k].customScaleValue.value)
                                     && forall l :: k < l < |s| && s[l].questionId == q.id ==> s[l].customScaleValue.None?)
  {
    LookupIsLastAnswer(s, HasScaleValue, q.id);
  }

  /** A knowledge or motivation cell is `""` exactly when no answer without a
      `customScaleValue` has the question's id; otherwise it shows the last such answer. */
  lemma {:induction false} ScoreCellsAreLastScoreAnswer(s: seq<InlineAnswer>, q: QuestionColumn)
    ensures var answers := Lookup(s, HasNoScaleValue);
            var kc := KnowledgeCell(answers, q);
            var mc := MotivationCell(answers, q);
      && (kc == Text("") <==> forall k :: 0 <= k < |s| && s[k].questionId == q.id ==> s[k].customScaleValue.Some?)
      && (mc == Text("") <==> kc == Text(""))
      && (kc != Text("") ==> exists k :: 0 <= k < |s| && s[k].questionId == q.id && s[k].customScaleValue.None?
                                      && kc == OrUndef(s[k].knowledge) && mc == OrUndef(s[k].motivation)
                                      && forall l :: k < l < |s| && s[l].questionId == q.id ==> s[l].customScaleValue.Some?)
  {
    LookupIsLastAnswer(s, HasNoScaleValue, q.id);
  }

  // ------------------------------------------------------------------ question header

  /** A cell of the question header: a sheet value, or the category object of a column. */
  datatype HeaderCell = Plain(cell: Cell) | CategoryRef(category: Category)

  /** A question column as the four-element array `[name, topic, id, category]`. */
  function ColumnCells(q: QuestionColumn): seq<HeaderCell>
  {
    [Plain(if q.name.Some? then Text(q.name.value) else Undef),
     Plain(Text(q.topic)),
     Plain(Text(q.id)),
     if q.category.Some? then CategoryRef(q.category.value) else Plain(Undef)]
  }

  /** `jobQuestions.concat(compQuestions, compQuestions)`. */
  function HeaderColumns(job: seq<QuestionColumn>, comp: seq<Option<QuestionColumn>>): (r: seq<Option<QuestionColumn>>)
    ensures |r| == |job| + 2 * |comp|
    ensures forall k :: 0 <= k < |job| ==> r[k] == Some(job[k])
    ensures forall k :: 0 <= k < |comp| ==> r[|job| + k] == comp[k] && r[|job| + |comp| + k] == comp[k]
  {
    Map(job, (q: QuestionColumn) => Some(q)) + comp + comp
  }

  /** `transpose(a)`: `a[0].map((_, i) => a.map((x) => x[i]))`; an index past the end of a
      shorter row reads `undef`, and an empty `a` has no `a[0]`. */
  function Transpose<T>(a: seq<seq<T>>, undef: T): Result<seq<seq<T>>>
  {
    if a == [] then Err(TypeError("Cannot read properties of undefined (reading 'map')"))
    else Ok(seq(|a[0]|, i requires 0 <= i < |a[0]| =>
              seq(|a|, j requires 0 <= j < |a| => if i < |a[j]| then a[j][i] else undef)))
  }

  predicate IsRectangular<T>(a: seq<seq<T>>, width: nat)
  {
    forall j :: 0 <= j < |a| ==> |a[j]| == width
  }

  /** Transposing a non-empty rectangular array swaps its sides; transposing twice gives it back. */
  lemma {:induction false} TransposeRoundTrip<T>(a: seq<seq<T>>, undef: T)
    requires a != [] && |a[0]| > 0 && IsRectangular(a, |a[0]|)
    ensures Transpose(a, undef).Ok?
    ensures var t := Transpose(a, undef).value;
      && |t| == |a[0]| && IsRectangular(t, |a|)
      && (forall i, j :: 0 <= i < |t| && 0 <= j < |a| ==> t[i][j] == a[j][i])
      && Transpose(t, undef) == Ok(a)
  {
    var t := Transpose(a, undef).value;
    assert t != [] && |t[0]| == |a|;
    var back := Transpose(t, undef).value;
    assert |back| == |a|;
    forall j | 0 <= j < |a| ensures back[j] == a[j] {
      assert |back[j]| == |a[j]|;
      forall i | 0 <= i < |a[j]| ensures back[j][i] == a[j][i] {
        assert back[j][i] == t[i][j];
      }
    }
    assert back == a;
  }

  /** The question header as printed: the four rows of the transposed question list. An
      empty list or an `undefined` first question has no `map`; an `undefined` later
      question has no element `0` (the inner `map` reads row 0 first). */
  function QuestionHeader(qs: seq<Option<QuestionColumn>>): Result<seq<seq<HeaderCell>>>
  {
    if qs == [] || qs[0].None? then Err(TypeError("Cannot read properties of undefined (reading 'map')"))
    else if None in qs then Err(TypeError("Cannot read properties of undefined (reading '0')"))
    else Transpose(Map(Defined(qs), ColumnCells), Plain(Undef))
  }

  lemma {:induction false} QuestionHeaderShape(qs: seq<Option<QuestionColumn>>)
    ensures QuestionHeader(qs).Err? <==> qs == [] || None in qs
    ensures QuestionHeader(qs).Ok? ==>
      var h := QuestionHeader(qs).value;
      && |h| == 4 && IsRectangular(h, |qs|)
      && forall i :: 0 <= i < |qs| ==> [h[0][i], h[1][i], h[2][i], h[3][i]] == ColumnCells(qs[i].value)
  {
    if qs != [] && None !in qs {
      DefinedAll(qs);
    }
  }

  // ------------------------------------------------------------------ the data sheet

  /** The user blocklist sheet: every value of its data range, read row by row, after the
      first two (`flat().slice(2)`). */
  function UserBlocklist(range: seq<seq<Cell>>): (r: seq<Cell>)
    ensures |Flatten(range)| >= 2 ==> r == Flatten(range)[2..]
    ensures |Flatten(range)| < 2 ==> r == []
  {
    var all := Flatten(range);
    if |all| < 2 then [] else all[2..]
  }

  /** On a one-column sheet the blocklist is that column below its first two rows. */
  lemma {:induction false} UserBlocklistColumn(range: seq<seq<Cell>>)
    requires forall k :: 0 <= k < |range| ==> |range[k]| == 1
    ensures |UserBlocklist(range)| == if |range| < 2 then 0 else |range| - 2
    ensures forall k :: 0 <= k < |UserBlocklist(range)| ==> UserBlocklist(range)[k] == range[k + 2][0]
  {
    FlattenColumn(range);
  }

  lemma {:induction false} FlattenColumn(range: seq<seq<Cell>>)
    requires forall k :: 0 <= k < |range| ==> |range[k]| == 1
    ensures |Flatten(range)| == |range|
    ensures forall k :: 0 <= k < |range| ==> Flatten(range)[k] == range[k][0]
  {
    if range != [] {
      FlattenColumn(range[1..]);
      assert Flatten(range) == range[0] + Flatten(range[1..]);
      forall k | 0 <= k < |range| ensures Flatten(range)[k] == range[k][0] {
        if k > 0 {
          assert range[1..][k - 1] == range[k];
        }
      }
    }
  }

  function FirstCell(row: seq<Cell>): Cell
  {
    At(row, 0)
  }

  function EmailOf(row: seq<Cell>): string
  {
    if |row| > 0 && row[0].Text? then row[0].s else ""
  }

  /** `(a, b) => (a[0] > b[0] ? 1 : -1)` on rows that start with an email. */
  predicate RowEmailAfter(a: seq<Cell>, b: seq<Cell>)
  {
    After(EmailOf(a), EmailOf(b))
  }

  function AsText(s: string): Cell
  {
    Text(s)
  }

  function Singleton(s: string): seq<string>
  {
    [s]
  }

  /** The rows of all answer sets, in order; the first one that throws decides the outcome. */
  function Rows(all: seq<UserQuestionAnswers>, job: seq<QuestionColumn>, comp: seq<Option<QuestionColumn>>)
    : (r: Result<seq<seq<Cell>>>)
    ensures r.Ok? ==> |r.value| == |all| && forall k :: 0 <= k < |all| ==> Row(all[k], job, comp) == Ok(r.value[k])
  {
    if all == [] then Ok([])
    else
      match Row(all[0], job, comp)
      case Err(e) => Err(e)
      case Ok(row) =>
        match Rows(all[1..], job, comp)
        case Err(e) => Err(e)
        case Ok(rest) => Ok([row] + rest)
  }

  lemma {:induction false} RowsFail(all: seq<UserQuestionAnswers>, job: seq<QuestionColumn>, comp: seq<Option<QuestionColumn>>)
    ensures Rows(all, job, comp).Err? <==> all != [] && None in comp
    ensures Rows(all, job, comp).Err? ==> Rows(all, job, comp).error == TypeError("Q is undefined")
  {
    if all != [] {
      RowLayout(all[0], job, comp);
      RowsFail(all[1..], job, comp);
    }
  }

  /** What `generateDataSheet` writes: the question header, the answer matrix and the
      not-answered roster. */
  datatype DataSheet = DataSheet(header: seq<seq<HeaderCell>>, matrix: seq<seq<Cell>>, notAnswered: seq<seq<string>>)

  /** The matrix: the rows sorted by email, blocklisted emails removed. */
  function Matrix(rows: seq<seq<Cell>>, blocklist: seq<Cell>): seq<seq<Cell>>
  {
    KeepUnlisted(SortBy(rows, RowEmailAfter), FirstCell, blocklist)
  }

  /** The directory emails that are not the email of a matrix row, each as a one-cell row. */
  function NotAnswered(directory: seq<string>, matrix: seq<seq<Cell>>): seq<seq<string>>
  {
    Map(KeepUnlisted(directory, AsText, Map(matrix, FirstCell)), Singleton)
  }

  /** `generateDataSheet` on the fetched directory, categories, questions, blocklist range
      and answer sets. */
  function DataSheetOf(users: seq<User>, categories: seq<Category>, questions: seq<Question>,
                       blockRange: seq<seq<Cell>>, answerSets: seq<UserAnswers>): Result<DataSheet>
  {
    match UserList(users)
    case Err(e) => Err(e)
    case Ok(directory) =>
      var cats := SortCategories(categories);
      var qs := SortQuestions(questions);
      SheetFrom(directory, JobQuestions(qs, cats), CompQuestions(qs, cats),
                AllUserQuestionAnswers(answerSets), UserBlocklist(blockRange))
  }

  /** The part of `generateDataSheet` after the fetches: the rows, the matrix, the header
      and the roster. */
  function SheetFrom(directory: seq<string>, job: seq<QuestionColumn>, comp: seq<Option<QuestionColumn>>,
                     all: seq<UserQuestionAnswers>, blocklist: seq<Cell>): Result<DataSheet>
  {
    match Rows(all, job, comp)
    case Err(e) => Err(e)
    case Ok(rows) =>
      var matrix := Matrix(rows, blocklist);
      match QuestionHeader(HeaderColumns(job, comp))
      case Err(e) => Err(e)
      case Ok(header) =>
        if matrix == [] then Err(TypeError("Cannot read properties of undefined (reading 'length')"))
        else Ok(DataSheet(header, matrix, NotAnswered(directory, matrix)))
  }

  /** The matrix is sorted by email, holds no blocklisted row, and holds each row that is
      not blocklisted as often as `rows` does. */
  lemma {:induction false} MatrixKeepsUnblockedRows(rows: seq<seq<Cell>>, blocklist: seq<Cell>)
    ensures var m := Matrix(rows, blocklist);
      && (forall i, j :: 0 <= i < j < |m| ==> !Less(EmailOf(m[j]), EmailOf(m[i])))
      && (forall k :: 0 <= k < |m| ==> m[k] in rows && FirstCell(m[k]) !in blocklist)
      && (forall k :: 0 <= k < |rows| && FirstCell(rows[k]) !in blocklist ==> rows[k] in m)
      && (forall row :: multiset(m)[row] == if FirstCell(row) in blocklist then 0 else multiset(rows)[row])
  {
    MatrixSortedAndKept(rows, blocklist);
    MatrixCounts(rows, blocklist);
  }

  /** The matrix is sorted by email, holds no blocklisted row, and holds every row whose
      email is not blocklisted. */
  lemma {:induction false} MatrixSortedAndKept(rows: seq<seq<Cell>>, blocklist: seq<Cell>)
    ensures var m := Matrix(rows, blocklist);
      && (forall i, j :: 0 <= i < j < |m| ==> !Less(EmailOf(m[j]), EmailOf(m[i])))
      && (forall k :: 0 <= k < |m| ==> m[k] in rows && FirstCell(m[k]) !in blocklist)
      && (forall k :: 0 <= k < |rows| && FirstCell(rows[k]) !in blocklist ==> rows[k] in m)
  {
    var sorted := SortBy(rows, RowEmailAfter);
    assert Sorted(sorted, RowEmailAfter) by {
      AfterIsStrictWeakOrder();
      ThroughIsStrictWeakOrder(EmailOf, After, RowEmailAfter);
      SortBySorted(rows, RowEmailAfter);
    }
    KeepUnlistedSorted(sorted, FirstCell, blocklist, RowEmailAfter);
    SortByMembers(rows, RowEmailAfter);
  }

  /** Each row that is not blocklisted is in the matrix as often as in `rows`. */
  lemma {:induction false} MatrixCounts(rows: seq<seq<Cell>>, blocklist: seq<Cell>)
    ensures var m := Matrix(rows, blocklist);
      forall row :: multiset(m)[row] == if FirstCell(row) in blocklist then 0 else multiset(rows)[row]
  {
    var sorted := SortBy(rows, RowEmailAfter);
    KeepUnlistedIsFilter(sorted, FirstCell, blocklist);
    FilterMultiset(sorted, Unlisted(FirstCell, blocklist));
  }

  /** The test the roster keeps a directory email by: it starts no row of `m`. */
  function StartsNoRow(m: seq<seq<Cell>>): string -> bool
  {
    Unlisted(AsText, Map(m, FirstCell))
  }

  /** The roster holds, in directory order, one row for each directory position whose
      email starts no matrix row, so an email listed twice is on it twice. */
  lemma {:induction false} NotAnsweredInDirectoryOrder(directory: seq<string>, m: seq<seq<Cell>>)
    ensures var n := NotAnswered(directory, m);
            var idx := PassingFrom(directory, StartsNoRow(m), 0);
      && |idx| == |n|
      && (forall k :: 0 <= k < |idx| ==>
            && idx[k] < |directory| && n[k] == [directory[idx[k]]]
            && forall i :: 0 <= i < |m| ==> FirstCell(m[i]) != Text(directory[idx[k]]))
      && (forall k, l :: 0 <= k < l < |idx| ==> idx[k] < idx[l])
      && (forall j :: 0 <= j < |directory| && (forall i :: 0 <= i < |m| ==> FirstCell(m[i]) != Text(directory[j])) ==>
            j in idx)
  {
    var emails := Map(m, FirstCell);
    var p := StartsNoRow(m);
    KeepUnlistedIsFilter(directory, AsText, emails);
    FilterPicks(directory, p);
    var idx := PassingFrom(directory, p, 0);
    forall k | 0 <= k < |idx| ensures forall i :: 0 <= i < |m| ==> FirstCell(m[i]) != Text(directory[idx[k]]) {
      forall i | 0 <= i < |m| ensures FirstCell(m[i]) != Text(directory[idx[k]]) {
        assert emails[i] == FirstCell(m[i]);
      }
    }
    forall j | 0 <= j < |directory| && (forall i :: 0 <= i < |m| ==> FirstCell(m[i]) != Text(directory[j]))
      ensures j in idx
    {
      assert AsText(directory[j]) !in emails;
      assert p(directory[j]);
    }
  }

  /** The roster lists, as one-cell rows, exactly the directory emails that start no
      matrix row; a blocklisted directory email is always on it, and a sorted directory
      gives a sorted roster. */
  lemma {:induction false} NotAnsweredRoster(directory: seq<string>, rows: seq<seq<Cell>>, blocklist: seq<Cell>)
    ensures var m := Matrix(rows, blocklist);
            var n := NotAnswered(directory, m);
      && |n| <= |directory|
      && (forall k :: 0 <= k < |n| ==>
            && |n[k]| == 1 && n[k][0] in directory
            && forall i :: 0 <= i < |m| ==> FirstCell(m[i]) != Text(n[k][0]))
      && (forall d :: 0 <= d < |directory| && (forall i :: 0 <= i < |m| ==> FirstCell(m[i]) != Text(directory[d])) ==>
            [directory[d]] in n)
      && (forall d :: 0 <= d < |directory| && Text(directory[d]) in blocklist ==> [directory[d]] in n)
      && ((forall i, j :: 0 <= i < j < |directory| ==> !Less(directory[j], directory[i])) ==>
            forall i, j :: 0 <= i < j < |n| ==> !Less(n[j][0], n[i][0]))
  {
    var m := Matrix(rows, blocklist);
    NotAnsweredUnmatched(directory, m);
    MatrixSortedAndKept(rows, blocklist);
    forall d | 0 <= d < |directory| && Text(directory[d]) in blocklist ensures [directory[d]] in NotAnswered(directory, m) {
      assert forall i :: 0 <= i < |m| ==> FirstCell(m[i]) != Text(directory[d]);
    }
    if forall i, j :: 0 <= i < j < |directory| ==> !Less(directory[j], directory[i]) {
      NotAnsweredSorted(directory, m);
    }
  }

  /** The roster holds exactly the directory emails that start no row of `m`. */
  lemma NotAnsweredUnmatched(directory: seq<string>, m: seq<seq<Cell>>)
    ensures var n := NotAnswered(directory, m);
      && |n| <= |directory|
      && (forall k :: 0 <= k < |n| ==>
            && |n[k]| == 1 && n[k][0] in directory
            && forall i :: 0 <= i < |m| ==> FirstCell(m[i]) != Text(n[k][0]))
      && (forall d :: 0 <= d < |directory| && (forall i :: 0 <= i < |m| ==> FirstCell(m[i]) != Text(directory[d])) ==>
            [directory[d]] in n)
  {
    var emails := Map(m, FirstCell);
    var kept := KeepUnlisted(directory, AsText, emails);
    var n := NotAnswered(directory, m);
    forall k | 0 <= k < |n| ensures forall i :: 0 <= i < |m| ==> FirstCell(m[i]) != Text(n[k][0]) {
      forall i | 0 <= i < |m| ensures FirstCell(m[i]) != Text(n[k][0]) {
        assert emails[i] == FirstCell(m[i]);
      }
    }
    forall d | 0 <= d < |directory| && (forall i :: 0 <= i < |m| ==> FirstCell(m[i]) != Text(directory[d]))
      ensures [directory[d]] in n
    {
      assert AsText(directory[d]) !in emails;
      var k :| 0 <= k < |kept| && kept[k] == directory[d];
      assert n[k] == [directory[d]];
    }
  }

  /** The roster keeps the directory's order. */
  lemma NotAnsweredSorted(directory: seq<string>, m: seq<seq<Cell>>)
    requires forall i, j :: 0 <= i < j < |directory| ==> !Less(directory[j], directory[i])
    ensures var n := NotAnswered(directory, m);
      forall i, j :: 0 <= i < j < |n| ==> !Less(n[j][0], n[i][0])
  {
    assert Sorted(directory, After);
    KeepUnlistedSorted(directory, AsText, Map(m, FirstCell), After);
  }

  /** The sheet fails exactly when a competence question is `undefined`, the question
      list is empty, or no answer set is left after the blocklist; with answer sets
      present, an `undefined` competence question throws "Q is undefined". */
  lemma {:induction false} SheetFails(directory: seq<string>, job: seq<QuestionColumn>, comp: seq<Option<QuestionColumn>>,
                   all: seq<UserQuestionAnswers>, blocklist: seq<Cell>)
    ensures var r := SheetFrom(directory, job, comp, all, blocklist);
      r.Ok? <==> None !in comp && |job| + |comp| > 0 && exists a :: 0 <= a < |all| && Text(all[a].email) !in blocklist
    ensures var r := SheetFrom(directory, job, comp, all, blocklist);
      all != [] && None in comp ==> r == Err(TypeError("Q is undefined"))
  {
    var hc := HeaderColumns(job, comp);
    RowsFail(all, job, comp);
    assert QuestionHeader(hc).Ok? <==> None !in comp && |job| + |comp| > 0 by {
      QuestionHeaderShape(hc);
      assert hc == [] <==> |job| + |comp| == 0;
    }
    if Rows(all, job, comp).Ok? {
      MatrixEmpty(all, job, comp, blocklist);
    }
  }

  /** The matrix is empty exactly when every answer set's email is blocklisted. */
  lemma {:induction false} MatrixEmpty(all: seq<UserQuestionAnswers>, job: seq<QuestionColumn>, comp: seq<Option<QuestionColumn>>,
                    blocklist: seq<Cell>)
    requires Rows(all, job, comp).Ok?
    ensures Matrix(Rows(all, job, comp).value, blocklist) == [] <==>
              forall a :: 0 <= a < |all| ==> Text(all[a].email) in blocklist
  {
    var rows := Rows(all, job, comp).value;
    var m := Matrix(rows, blocklist);
    MatrixSortedAndKept(rows, blocklist);
    if m != [] {
      var i :| 0 <= i < |rows| && rows[i] == m[0];
      RowStartsWithEmail(all[i], job, comp);
    }
    forall a | 0 <= a < |all| && Text(all[a].email) !in blocklist ensures m != [] {
      RowStartsWithEmail(all[a], job, comp);
    }
  }

  /** The rows of a matrix: each row has the three user cells and one cell per header
      column, the rows are ordered by email, no row is blocklisted, each row is the row
      of some answer set, and the row of every answer set whose email is not blocklisted
      is there. */
  ghost predicate MatrixLayout(m: seq<seq<Cell>>, all: seq<UserQuestionAnswers>, job: seq<QuestionColumn>,
                               comp: seq<Option<QuestionColumn>>, blocklist: seq<Cell>)
  {
    && (forall k :: 0 <= k < |m| ==> |m[k]| == 3 + |job| + 2 * |comp|)
    && (forall i, j :: 0 <= i < j < |m| ==> !Less(EmailOf(m[j]), EmailOf(m[i])))
    && (forall k :: 0 <= k < |m| ==> FirstCell(m[k]) !in blocklist)
    && (forall k :: 0 <= k < |m| ==> exists a :: 0 <= a < |all| && Row(all[a], job, comp) == Ok(m[k]))
    && (forall a :: 0 <= a < |all| && Text(all[a].email) !in blocklist ==>
          Row(all[a], job, comp).Ok? && Row(all[a], job, comp).value in m)
  }

  /** A successful sheet: a four-row header as wide as the question list; a matrix of
      rows each 3 cells wider than the header, sorted by email, none blocklisted, each
      the row of an answer set, holding every answer set whose email is not
      blocklisted; and the roster of the directory emails without a row. */
  lemma {:induction false} SheetLayout(directory: seq<string>, job: seq<QuestionColumn>, comp: seq<Option<QuestionColumn>>,
                    all: seq<UserQuestionAnswers>, blocklist: seq<Cell>)
    ensures var r := SheetFrom(directory, job, comp, all, blocklist);
      r.Ok? ==>
        && |r.value.header| == 4
        && IsRectangular(r.value.header, |job| + 2 * |comp|)
        && MatrixLayout(r.value.matrix, all, job, comp, blocklist)
        && r.value.notAnswered == NotAnswered(directory, r.value.matrix)
  {
    var r := SheetFrom(directory, job, comp, all, blocklist);
    if r.Ok? {
      var hc := HeaderColumns(job, comp);
      QuestionHeaderShape(hc);
      assert r.value.header == QuestionHeader(hc).value;
      assert r.value.matrix == Matrix(Rows(all, job, comp).value, blocklist);
      MatrixRows(all, job, comp, blocklist);
    }
  }

  /** The rows of the matrix, through the answer sets they come from. */
  lemma {:induction false} MatrixRows(all: seq<UserQuestionAnswers>, job: seq<QuestionColumn>, comp: seq<Option<QuestionColumn>>,
                   blocklist: seq<Cell>)
    requires Rows(all, job, comp).Ok?
    ensures MatrixLayout(Matrix(Rows(all, job, comp).value, blocklist), all, job, comp, blocklist)
  {
    MatrixSortedAndKept(Rows(all, job, comp).value, blocklist);
    MatrixRowsFromAnswerSets(all, job, comp, blocklist);
    MatrixRowsOfAnswerSets(all, job, comp, blocklist);
  }

  lemma {:induction false} MatrixRowsFromAnswerSets(all: seq<UserQuestionAnswers>, job: seq<QuestionColumn>,
                                                    comp: seq<Option<QuestionColumn>>, blocklist: seq<Cell>)
    requires Rows(all, job, comp).Ok?
    ensures var m := Matrix(Rows(all, job, comp).value, blocklist);
      && (forall k :: 0 <= k < |m| ==> |m[k]| == 3 + |job| + 2 * |comp|)
      && (forall k :: 0 <= k < |m| ==> exists a :: 0 <= a < |all| && Row(all[a], job, comp) == Ok(m[k]))
  {
    var rows := Rows(all, job, comp).value;
    var m := Matrix(rows, blocklist);
    MatrixSortedAndKept(rows, blocklist);
    forall k | 0 <= k < |m|
      ensures |m[k]| == 3 + |job| + 2 * |comp|
      ensures exists a :: 0 <= a < |all| && Row(all[a], job, comp) == Ok(m[k])
    {
      var i :| 0 <= i < |rows| && rows[i] == m[k];
      RowStartsWithEmail(all[i], job, comp);
    }
  }

  lemma {:induction false} MatrixRowsOfAnswerSets(all: seq<UserQuestionAnswers>, job: seq<QuestionColumn>,
                                                  comp: seq<Option<QuestionColumn>>, blocklist: seq<Cell>)
    requires Rows(all, job, comp).Ok?
    ensures var m := Matrix(Rows(all, job, comp).value, blocklist);
      forall a :: 0 <= a < |all| && Text(all[a].email) !in blocklist ==> Row(all[a], job, comp).value in m
  {
    var rows := Rows(all, job, comp).value;
    MatrixSortedAndKept(rows, blocklist);
    forall a | 0 <= a < |all| && Text(all[a].email) !in blocklist
      ensures Row(all[a], job, comp).value in Matrix(rows, blocklist)
    {
      RowStartsWithEmail(all[a], job, comp);
    }
  }

  /** Sorting the questions first changes nothing about which competence question has an
      unknown category. */
  lemma {:induction false} UnknownCategoryAfterSort(questions: seq<Question>, cats: seq<Category>)
    ensures None in CompQuestions(SortQuestions(questions), cats) <==> HasUnknownCategory(questions, cats)
  {
    CompQuestionsUndefined(SortQuestions(questions), cats);
    SortKeepsUnknownCategory(questions, cats);
  }

  lemma {:induction false} SortKeepsUnknownCategory(questions: seq<Question>, cats: seq<Category>)
    ensures HasUnknownCategory(SortQuestions(questions), cats) <==> HasUnknownCategory(questions, cats)
  {
    var qs := SortQuestions(questions);
    SortByMembers(questions, CategoryIdAfter);
    if HasUnknownCategory(qs, cats) {
      var k :| 0 <= k < |qs| && IsKnowledgeMotivation(qs[k]) && FindCategory(cats, qs[k].categoryId).None?;
      var i :| 0 <= i < |questions| && questions[i] == qs[k];
    }
    if HasUnknownCategory(questions, cats) {
      var k :| 0 <= k < |questions| && IsKnowledgeMotivation(questions[k])
               && FindCategory(cats, questions[k].categoryId).None?;
      var i :| 0 <= i < |qs| && qs[i] == questions[k];
    }
  }

  /** The failures of the whole pipeline: the directory failure is passed on, and with
      answer sets present a competence question whose category id matches no category
      makes the sheet fail with "Q is undefined"; a successful sheet has no such question. */
  lemma {:induction false} DataSheetFailures(users: seq<User>, categories: seq<Category>, questions: seq<Question>,
                          blockRange: seq<seq<Cell>>, answerSets: seq<UserAnswers>)
    ensures var r := DataSheetOf(users, categories, questions, blockRange, answerSets);
            var cats := SortCategories(categories);
      && (UserList(users).Err? ==> r == Err(UserList(users).error))
      && ((UserList(users).Ok? && answerSets != [] &&
           exists k :: 0 <= k < |questions| && IsKnowledgeMotivation(questions[k])
                       && FindCategory(cats, questions[k].categoryId).None?) ==>
            r == Err(TypeError("Q is undefined")))
      && (r.Ok? ==> forall k :: 0 <= k < |questions| && IsKnowledgeMotivation(questions[k]) ==>
                      FindCategory(cats, questions[k].categoryId).Some?)
  {
    if UserList(users).Ok? {
      var directory := UserList(users).value;
      var qs := SortQuestions(questions);
      var cats := SortCategories(categories);
      var comp := CompQuestions(qs, cats);
      var job := JobQuestions(qs, cats);
      var all := AllUserQuestionAnswers(answerSets);
      SheetFails(directory, job, comp, all, UserBlocklist(blockRange));
      UnknownCategoryAfterSort(questions, cats);
    }
  }

  /** `m` holds nothing but rows of the normalised answer sets, and the row of every
      answer set whose email is not blocklisted. */
  ghost predicate MatrixFromAnswerSets(m: seq<seq<Cell>>, answerSets: seq<UserAnswers>, job: seq<QuestionColumn>,
                                       comp: seq<Option<QuestionColumn>>, blocklist: seq<Cell>)
  {
    var all := AllUserQuestionAnswers(answerSets);
    && (forall k :: 0 <= k < |m| ==> exists i :: 0 <= i < |all| && Row(all[i], job, comp) == Ok(m[k]))
    && (forall a :: 0 <= a < |answerSets| && Text(answerSets[a].email) !in blocklist ==>
          Row(NormalizeUser(answerSets[a]), job, comp).Ok? && Row(NormalizeUser(answerSets[a]), job, comp).value in m)
  }

  /** The matrix of the whole pipeline holds the row of every answer set, normalised,
      whose email is not blocklisted, and nothing but rows of normalised answer sets. */
  lemma {:induction false} DataSheetRowsFromAnswerSets(users: seq<User>, categories: seq<Category>, questions: seq<Question>,
                                    blockRange: seq<seq<Cell>>, answerSets: seq<UserAnswers>)
    ensures var r := DataSheetOf(users, categories, questions, blockRange, answerSets);
            var qs := SortQuestions(questions);
            var cats := SortCategories(categories);
      r.Ok? ==> MatrixFromAnswerSets(r.value.matrix, answerSets, JobQuestions(qs, cats), CompQuestions(qs, cats),
                                     UserBlocklist(blockRange))
  {
    if UserList(users).Ok? {
      var qs := SortQuestions(questions);
      var cats := SortCategories(categories);
      SheetRowsFromAnswerSets(UserList(users).value, JobQuestions(qs, cats), CompQuestions(qs, cats),
                              answerSets, UserBlocklist(blockRange));
    }
  }

  lemma {:induction false} SheetRowsFromAnswerSets(directory: seq<string>, job: seq<QuestionColumn>, comp: seq<Option<QuestionColumn>>,
                                answerSets: seq<UserAnswers>, blocklist: seq<Cell>)
    ensures var r := SheetFrom(directory, job, comp, AllUserQuestionAnswers(answerSets), blocklist);
      r.Ok? ==> MatrixFromAnswerSets(r.value.matrix, answerSets, job, comp, blocklist)
  {
    var all := AllUserQuestionAnswers(answerSets);
    var r := SheetFrom(directory, job, comp, all, blocklist);
    if r.Ok? {
      var m := r.value.matrix;
      SheetLayout(directory, job, comp, all, blocklist);
      AllUserQuestionAnswersNormalizesEach(answerSets);
      forall a | 0 <= a < |answerSets| && Text(answerSets[a].email) !in blocklist
        ensures Row(NormalizeUser(answerSets[a]), job, comp).Ok? && Row(NormalizeUser(answerSets[a]), job, comp).value in m
      {
        var i :| 0 <= i < |all| && all[i] == NormalizeUser(answerSets[a]);
        assert all[i].email == answerSets[a].email;
      }
    }
  }
}
