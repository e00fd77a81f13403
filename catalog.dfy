/** The catalog side of the 2022 answer matrix: the fetched directory, categories and
    questions reshaped into ordered lists, the two question lists the matrix columns
    follow, and the normalisation of the fetched answers. */
module Catalog {
  import opened Values
  import opened Strings
  import opened ArrayOps
  import opened SurveyTypes

  /** A test account the directory listing leaves out. */
  const TEST_USER := "user@user.user"
  const KNOWLEDGE_MOTIVATION := "knowledgeMotivation"
  const CUSTOM_SCALE_LABELS := "customScaleLabels"

  // ------------------------------------------------------------------ directory

  function FirstAttribute(u: User): string
  {
    if u.attributes == [] then "" else u.attributes[0].value
  }

  predicate IsListedUser(email: string)
  {
    email != TEST_USER
  }

  /** `getUserList` after the fetch: each user's first attribute value (the email),
      the test account dropped, in the default string order. A user without
      attributes makes `user.attributes[0].Value` throw. */
  function UserList(data: seq<User>): Result<seq<string>>
  {
    if exists k :: 0 <= k < |data| && data[k].attributes == [] then
      Err(TypeError("Cannot read properties of undefined (reading 'Value')"))
    else
      Ok(SortBy(Filter(Map(data, FirstAttribute), IsListedUser), After))
  }

  /** The directory throws exactly when a user has no attributes; otherwise it is sorted
      and lists each user's email as often as users carry it, the test account never. */
  lemma {:induction false} UserListIsSortedDirectory(data: seq<User>)
    ensures UserList(data).Err? <==> exists k :: 0 <= k < |data| && data[k].attributes == []
    ensures UserList(data).Ok? ==>
      var r := UserList(data).value;
      && (forall i, j :: 0 <= i < j < |r| ==> !Less(r[j], r[i]))
      && TEST_USER !in r
      && (forall i :: 0 <= i < |r| ==> exists k :: 0 <= k < |data| && data[k].attributes[0].value == r[i])
      && (forall k :: 0 <= k < |data| && data[k].attributes[0].value != TEST_USER ==>
            data[k].attributes[0].value in r)
      && (forall e :: multiset(r)[e] == if e == TEST_USER then 0 else multiset(Map(data, FirstAttribute))[e])
  {
    UserListMembers(data);
    if UserList(data).Ok? {
      UserListCounts(data);
    }
  }

  /** The sorted directory holds only users' emails, and every email but the test account's. */
  lemma {:induction false} UserListMembers(data: seq<User>)
    ensures UserList(data).Err? <==> exists k :: 0 <= k < |data| && data[k].attributes == []
    ensures UserList(data).Ok? ==>
      var r := UserList(data).value;
      && (forall i, j :: 0 <= i < j < |r| ==> !Less(r[j], r[i]))
      && TEST_USER !in r
      && (forall i :: 0 <= i < |r| ==> exists k :: 0 <= k < |data| && data[k].attributes[0].value == r[i])
      && (forall k :: 0 <= k < |data| && data[k].attributes[0].value != TEST_USER ==>
            data[k].attributes[0].value in r)
  {
    if UserList(data).Ok? {
      var kept := Filter(Map(data, FirstAttribute), IsListedUser);
      assert Sorted(SortBy(kept, After), After) by {
        AfterIsStrictWeakOrder();
        SortBySorted(kept, After);
      }
      ListedEmails(data);
    }
  }

  /** The emails kept and sorted are users' emails, and include every one but the test account's. */
  lemma {:induction false} ListedEmails(data: seq<User>)
    requires forall k :: 0 <= k < |data| ==> data[k].attributes != []
    ensures var r := SortBy(Filter(Map(data, FirstAttribute), IsListedUser), After);
      && TEST_USER !in r
      && (forall i :: 0 <= i < |r| ==> exists k :: 0 <= k < |data| && data[k].attributes[0].value == r[i])
      && (forall k :: 0 <= k < |data| && data[k].attributes[0].value != TEST_USER ==>
            data[k].attributes[0].value in r)
  {
    var emails := Map(data, FirstAttribute);
    var kept := Filter(emails, IsListedUser);
    var r := SortBy(kept, After);
    FilterSortByMembers(emails, IsListedUser, kept, After);
    forall i | 0 <= i < |r| ensures exists k :: 0 <= k < |data| && data[k].attributes[0].value == r[i] {
      var k :| 0 <= k < |emails| && emails[k] == r[i];
    }
    forall k | 0 <= k < |data| && data[k].attributes[0].value != TEST_USER
      ensures data[k].attributes[0].value in r
    {
      assert IsListedUser(emails[k]);
    }
  }

  /** Each email is listed as often as users carry it, the test account never. */
  lemma {:induction false} UserListCounts(data: seq<User>)
    requires UserList(data).Ok?
    ensures forall e :: multiset(UserList(data).value)[e] == if e == TEST_USER then 0 else multiset(Map(data, FirstAttribute))[e]
  {
    FilterMultiset(Map(data, FirstAttribute), IsListedUser);
  }

  // ------------------------------------------------------------------ categories

  predicate CategoryIndexAfter(a: Category, b: Category)
  {
    a.index > b.index
  }

  /** `getCategoriesData` after the fetch: the categories ordered by index. */
  function SortCategories(data: seq<Category>): seq<Category>
  {
    SortBy(data, CategoryIndexAfter)
  }

  lemma {:induction false} SortCategoriesOrdersByIndex(data: seq<Category>)
    ensures var r := SortCategories(data);
      && multiset(r) == multiset(data)
      && forall i, j :: 0 <= i < j < |r| ==> r[i].index <= r[j].index
  {
    SortBySorted(data, CategoryIndexAfter);
  }

  /** `categories.find((c) => c.id === id)`: the first category with that id. */
  function FindCategory(categories: seq<Category>, id: string): (r: Option<Category>)
    ensures r.None? <==> forall k :: 0 <= k < |categories| ==> categories[k].id != id
    ensures r.Some? ==> exists k :: 0 <= k < |categories| && categories[k] == r.value && r.value.id == id
                          && forall m :: 0 <= m < k ==> categories[m].id != id
  {
    if categories == [] then None
    else if categories[0].id == id then Some(categories[0])
    else
      var r := FindCategory(categories[1..], id);
      if r.Some? then
        ghost var k :| 0 <= k < |categories[1..]| && categories[1..][k] == r.value && r.value.id == id
                       && forall m :: 0 <= m < k ==> categories[1..][m].id != id;
        assert categories[k + 1] == r.value;
        r
      else r
  }

  // ------------------------------------------------------------------ questions

  predicate CategoryIdAfter(a: Question, b: Question)
  {
    After(a.categoryId, b.categoryId)
  }

  /** `getQuestions` after the fetch: the questions ordered by category id. (Each row
      `[index, topic, text, type, id, categoryID]` is the question record itself.) */
  function SortQuestions(data: seq<Question>): seq<Question>
  {
    SortBy(data, CategoryIdAfter)
  }

  lemma {:induction false} SortQuestionsOrdersByCategoryId(data: seq<Question>)
    ensures var r := SortQuestions(data);
      && multiset(r) == multiset(data)
      && forall i, j :: 0 <= i < j < |r| ==> !Less(r[j].categoryId, r[i].categoryId)
  {
    AfterIsStrictWeakOrder();
    ThroughIsStrictWeakOrder((q: Question) => q.categoryId, After, CategoryIdAfter);
    SortBySorted(data, CategoryIdAfter);
  }

  /** One row of `getQuestionsWithCategory`: the question's index, topic, text, type and
      id, then the id, index, text and description of its category, `undefined` when no
      category has the question's category id. */
  function QuestionWithCategory(q: Question, categories: seq<Category>): seq<Cell>
  {
    [Num(q.index), Text(q.topic), Text(q.text), Text(q.kind), Text(q.id)]
    + match FindCategory(categories, q.categoryId)
      case Some(c) => [Text(c.id), Num(c.index), Text(c.text), Text(c.description)]
      case None => [Undef, Undef, Undef, Undef]
  }

  function QuestionsWithCategory(questions: seq<Question>, categories: seq<Category>): (r: seq<seq<Cell>>)
    ensures |r| == |questions|
    ensures forall k :: 0 <= k < |r| ==> r[k] == QuestionWithCategory(questions[k], categories)
  {
    if questions == [] then []
    else [QuestionWithCategory(questions[0], categories)] + QuestionsWithCategory(questions[1..], categories)
  }

  lemma {:induction false} QuestionsWithCategoryJoins(questions: seq<Question>, categories: seq<Category>, k: nat)
    requires k < |questions|
    ensures var row := QuestionsWithCategory(questions, categories)[k];
      && |row| == 9
      && row[..5] == [Num(questions[k].index), Text(questions[k].topic), Text(questions[k].text),
                      Text(questions[k].kind), Text(questions[k].id)]
      && (row[5] == Undef <==> forall m :: 0 <= m < |categories| ==> categories[m].id != questions[k].categoryId)
      && (row[5] != Undef ==> exists m :: 0 <= m < |categories| && categories[m].id == questions[k].categoryId
                               && (forall m' :: 0 <= m' < m ==> categories[m'].id != questions[k].categoryId)
                               && row[5..] == [Text(categories[m].id), Num(categories[m].index),
                                               Text(categories[m].text), Text(categories[m].description)])
  {
  }

  // ------------------------------------------------------------------ question columns

  /** A header column of the answer matrix: `[category name, topic, id, category]`. */
  datatype QuestionColumn = QuestionColumn(name: Option<string>, topic: string, id: string, category: Option<Category>)

  predicate IsKnowledgeMotivation(q: Question)
  {
    q.kind == KNOWLEDGE_MOTIVATION
  }

  predicate IsCustomScale(q: Question)
  {
    q.kind == CUSTOM_SCALE_LABELS
  }

  predicate QuestionIndexAfter(a: Question, b: Question)
  {
    a.index > b.index
  }

  predicate QuestionIdAfter(a: Question, b: Question)
  {
    After(a.id, b.id)
  }

  /** The map step for a knowledge/motivation question: its column, or `undefined` when
      no category has its category id. */
  function CompColumn(q: Question, categories: seq<Category>): Option<QuestionColumn>
  {
    match FindCategory(categories, q.categoryId)
    case Some(c) => Some(QuestionColumn(Some(c.text), q.topic, q.id, Some(c)))
    case None => None
  }

  function CompColumns(qs: seq<Question>, categories: seq<Category>): (r: seq<Option<QuestionColumn>>)
    ensures |r| == |qs|
    ensures forall k :: 0 <= k < |qs| ==> r[k] == CompColumn(qs[k], categories)
  {
    if qs == [] then [] else [CompColumn(qs[0], categories)] + CompColumns(qs[1..], categories)
  }

  function ColumnCategoryIndex(c: QuestionColumn): int
  {
    if c.category.Some? then c.category.value.index else 0
  }

  predicate ColumnCategoryAfter(a: QuestionColumn, b: QuestionColumn)
  {
    ColumnCategoryIndex(a) > ColumnCategoryIndex(b)
  }

  /** `compQuestions`: the knowledge/motivation questions sorted by question index,
      mapped to columns, then sorted by category index (the `undefined` ones last). */
  function CompQuestions(allQuestions: seq<Question>, categories: seq<Category>): seq<Option<QuestionColumn>>
  {
    var byIndex := SortBy(Filter(allQuestions, IsKnowledgeMotivation), QuestionIndexAfter);
    SortUndefinedLast(CompColumns(byIndex, categories), ColumnCategoryAfter)
  }

  /** The same pipeline keeping the whole question beside its category, to speak of the
      question index that the column no longer holds. */
  function CompPair(q: Question, categories: seq<Category>): Option<(Question, Category)>
  {
    match FindCategory(categories, q.categoryId)
    case Some(c) => Some((q, c))
    case None => None
  }

  function CompPairs(qs: seq<Question>, categories: seq<Category>): (r: seq<Option<(Question, Category)>>)
    ensures |r| == |qs|
    ensures forall k :: 0 <= k < |qs| ==> r[k] == CompPair(qs[k], categories)
  {
    if qs == [] then [] else [CompPair(qs[0], categories)] + CompPairs(qs[1..], categories)
  }

  function PairColumn(p: (Question, Category)): QuestionColumn
  {
    QuestionColumn(Some(p.1.text), p.0.topic, p.0.id, Some(p.1))
  }

  predicate PairCategoryAfter(a: (Question, Category), b: (Question, Category))
  {
    a.1.index > b.1.index
  }

  predicate PairQuestionIndexAfter(a: (Question, Category), b: (Question, Category))
  {
    a.0.index > b.0.index
  }

  ghost function CompJoined(allQuestions: seq<Question>, categories: seq<Category>): seq<Option<(Question, Category)>>
  {
    var byIndex := SortBy(Filter(allQuestions, IsKnowledgeMotivation), QuestionIndexAfter);
    SortUndefinedLast(CompPairs(byIndex, categories), PairCategoryAfter)
  }

  lemma {:induction false} DefinedCompColumns(qs: seq<Question>, categories: seq<Category>)
    ensures Defined(CompColumns(qs, categories)) == Map(Defined(CompPairs(qs, categories)), PairColumn)
  {
    if qs != [] {
      DefinedCompColumns(qs[1..], categories);
      var c0 := CompColumn(qs[0], categories);
      var p0 := CompPair(qs[0], categories);
      DefinedCons(c0, CompColumns(qs[1..], categories));
      DefinedCons(p0, CompPairs(qs[1..], categories));
      if p0.Some? {
        MapCons(p0.value, Defined(CompPairs(qs[1..], categories)), PairColumn);
      }
    }
  }

  lemma CompPairsSorted(qs: seq<Question>, categories: seq<Category>)
    requires Sorted(qs, QuestionIndexAfter)
    ensures Sorted(Defined(CompPairs(qs, categories)), PairQuestionIndexAfter)
  {
    DefinedSorted(CompPairs(qs, categories), PairQuestionIndexAfter);
  }

  /** `compQuestions` is the joined list with each pair shown as its column. */
  lemma {:induction false} CompQuestionsShowJoined(allQuestions: seq<Question>, categories: seq<Category>)
    ensures var c := CompQuestions(allQuestions, categories);
            var p := CompJoined(allQuestions, categories);
      && |c| == |p|
      && forall k :: 0 <= k < |c| ==> c[k] == if p[k].Some? then Some(PairColumn(p[k].value)) else None
  {
    var byIndex := SortBy(Filter(allQuestions, IsKnowledgeMotivation), QuestionIndexAfter);
    var dc := Defined(CompColumns(byIndex, categories));
    var dp := Defined(CompPairs(byIndex, categories));
    DefinedCompColumns(byIndex, categories);
    SortByMap(dp, PairColumn, ColumnCategoryAfter, PairCategoryAfter);
  }

  /** Every defined entry of `compQuestions` is a knowledge/motivation question joined to
      its category; there is one entry per knowledge/motivation question. */
  lemma {:induction false} CompJoinedContent(allQuestions: seq<Question>, categories: seq<Category>)
    ensures var p := CompJoined(allQuestions, categories);
      && |p| == |Filter(allQuestions, IsKnowledgeMotivation)|
      && (forall k :: 0 <= k < |p| && p[k].Some? ==>
            && p[k].value.0 in allQuestions
            && IsKnowledgeMotivation(p[k].value.0)
            && FindCategory(categories, p[k].value.0.categoryId) == Some(p[k].value.1))
  {
    var kept := Filter(allQuestions, IsKnowledgeMotivation);
    var byIndex := SortBy(kept, QuestionIndexAfter);
    var p := CompJoined(allQuestions, categories);
    FilterSortByMembers(allQuestions, IsKnowledgeMotivation, kept, QuestionIndexAfter);
    SortedPairsJoined(byIndex, categories);
    assert OptJoinedFrom(p, byIndex, categories);
    forall k | 0 <= k < |p| && p[k].Some?
      ensures p[k].value.0 in allQuestions && IsKnowledgeMotivation(p[k].value.0)
    {
      var j :| 0 <= j < |byIndex| && byIndex[j] == p[k].value.0;
    }
  }

  /** Each defined entry joins a question of `qs` to the category its category id finds. */
  ghost predicate OptJoinedFrom(p: seq<Option<(Question, Category)>>, qs: seq<Question>, categories: seq<Category>)
  {
    forall k :: 0 <= k < |p| && p[k].Some? ==>
      p[k].value.0 in qs && FindCategory(categories, p[k].value.0.categoryId) == Some(p[k].value.1)
  }

  /** The joined list sorted by category holds pairs of `qs` only, each joined to the
      category its category id finds. */
  lemma {:induction false} SortedPairsJoined(qs: seq<Question>, categories: seq<Category>)
    ensures OptJoinedFrom(SortUndefinedLast(CompPairs(qs, categories), PairCategoryAfter), qs, categories)
  {
    var pairs := CompPairs(qs, categories);
    CompPairsJoined(qs, categories);
    SortByMembers(Defined(pairs), PairCategoryAfter);
  }

  /** Each pair joins a question of `qs` to the category its category id finds. */
  ghost predicate JoinedFrom(d: seq<(Question, Category)>, qs: seq<Question>, categories: seq<Category>)
  {
    forall k :: 0 <= k < |d| ==> d[k].0 in qs && FindCategory(categories, d[k].0.categoryId) == Some(d[k].1)
  }

  lemma {:induction false} CompPairsJoined(qs: seq<Question>, categories: seq<Category>)
    ensures JoinedFrom(Defined(CompPairs(qs, categories)), qs, categories)
  {
    if qs != [] {
      var p := CompPairs(qs, categories);
      assert p[1..] == CompPairs(qs[1..], categories);
      CompPairsJoined(qs[1..], categories);
      var tail := Defined(p[1..]);
      var head: seq<(Question, Category)> := if p[0].Some? then [p[0].value] else [];
      assert Defined(p) == head + tail;
      forall k | 0 <= k < |tail| ensures tail[k].0 in qs {
        var m :| 0 <= m < |qs[1..]| && qs[1..][m] == tail[k].0;
        assert qs[1 + m] == tail[k].0;
      }
    }
  }

  /** `compQuestions` is ordered by category index, question index breaking ties. */
  lemma {:induction false} CompJoinedOrdered(allQuestions: seq<Question>, categories: seq<Category>)
    ensures var p := CompJoined(allQuestions, categories);
      forall i, j :: 0 <= i < j < |p| && p[i].Some? && p[j].Some? ==>
        || p[i].value.1.index < p[j].value.1.index
        || (p[i].value.1.index == p[j].value.1.index && p[i].value.0.index <= p[j].value.0.index)
  {
    var kept := Filter(allQuestions, IsKnowledgeMotivation);
    var byIndex := SortBy(kept, QuestionIndexAfter);
    var pairs := CompPairs(byIndex, categories);
    var dp := Defined(pairs);
    var sorted := SortBy(dp, PairCategoryAfter);
    var p := CompJoined(allQuestions, categories);
    assert SortedThenBy(sorted, PairCategoryAfter, PairQuestionIndexAfter) by {
      SortBySorted(kept, QuestionIndexAfter);
      CompPairsSorted(byIndex, categories);
      SortByIsStable(dp, PairCategoryAfter, PairQuestionIndexAfter);
    }
    forall i, j | 0 <= i < j < |p| && p[i].Some? && p[j].Some?
      ensures || p[i].value.1.index < p[j].value.1.index
              || (p[i].value.1.index == p[j].value.1.index && p[i].value.0.index <= p[j].value.0.index)
    {
      assert j < |dp|;
      assert p[i].value == sorted[i] && p[j].value == sorted[j];
      assert !PairCategoryAfter(sorted[i], sorted[j]);
      assert !PairCategoryAfter(sorted[j], sorted[i]) ==> !PairQuestionIndexAfter(sorted[i], sorted[j]);
    }
  }

  /** Some knowledge/motivation question has a category id that matches no category. */
  ghost predicate HasUnknownCategory(qs: seq<Question>, categories: seq<Category>)
  {
    exists k :: 0 <= k < |qs| && IsKnowledgeMotivation(qs[k]) && FindCategory(categories, qs[k].categoryId).None?
  }

  /** A knowledge/motivation question whose category id matches no category leaves an
      `undefined` in `compQuestions`, and only such a question does. */
  lemma {:induction false} CompQuestionsUndefined(allQuestions: seq<Question>, categories: seq<Category>)
    ensures var c := CompQuestions(allQuestions, categories);
      && |c| == |Filter(allQuestions, IsKnowledgeMotivation)|
      && (None in c <==> HasUnknownCategory(allQuestions, categories))
  {
    var c := CompQuestions(allQuestions, categories);
    if None in c {
      UndefinedColumnHasSource(allQuestions, categories);
    }
    if HasUnknownCategory(allQuestions, categories) {
      var k :| 0 <= k < |allQuestions| && IsKnowledgeMotivation(allQuestions[k])
               && FindCategory(categories, allQuestions[k].categoryId).None?;
      UnknownCategoryLeavesUndefined(allQuestions, categories, k);
    }
  }

  lemma {:induction false} UndefinedColumnHasSource(allQuestions: seq<Question>, categories: seq<Category>)
    requires None in CompQuestions(allQuestions, categories)
    ensures HasUnknownCategory(allQuestions, categories)
  {
    var kept := Filter(allQuestions, IsKnowledgeMotivation);
    var byIndex := SortBy(kept, QuestionIndexAfter);
    var cols := CompColumns(byIndex, categories);
    DefinedAll(cols);
    FilterSortByMembers(allQuestions, IsKnowledgeMotivation, kept, QuestionIndexAfter);
    var m :| 0 <= m < |cols| && cols[m] == None;
    assert cols[m] == CompColumn(byIndex[m], categories);
    var k :| 0 <= k < |allQuestions| && allQuestions[k] == byIndex[m];
    assert IsKnowledgeMotivation(allQuestions[k]) && FindCategory(categories, allQuestions[k].categoryId).None?;
  }

  lemma {:induction false} UnknownCategoryLeavesUndefined(allQuestions: seq<Question>, categories: seq<Category>, k: int)
    requires 0 <= k < |allQuestions| && IsKnowledgeMotivation(allQuestions[k])
    requires FindCategory(categories, allQuestions[k].categoryId).None?
    ensures None in CompQuestions(allQuestions, categories)
  {
    var kept := Filter(allQuestions, IsKnowledgeMotivation);
    var byIndex := SortBy(kept, QuestionIndexAfter);
    var cols := CompColumns(byIndex, categories);
    var c := CompQuestions(allQuestions, categories);
    DefinedAll(cols);
    FilterSortByMembers(allQuestions, IsKnowledgeMotivation, kept, QuestionIndexAfter);
    var m :| 0 <= m < |byIndex| && byIndex[m] == allQuestions[k];
    assert cols[m] == None;
    assert c[|c| - 1] == None;
  }

  /** The map step for a custom-scale question: its column, with an undefined name and
      category when no category has its category id (the question is kept). */
  function JobColumn(q: Question, categories: seq<Category>): QuestionColumn
  {
    match FindCategory(categories, q.categoryId)
    case Some(c) => QuestionColumn(Some(c.text), q.topic, q.id, Some(c))
    case None => QuestionColumn(None, q.topic, q.id, None)
  }

  function JobColumns(qs: seq<Question>, categories: seq<Category>): (r: seq<QuestionColumn>)
    ensures |r| == |qs|
    ensures forall k :: 0 <= k < |qs| ==> r[k] == JobColumn(qs[k], categories)
  {
    if qs == [] then [] else [JobColumn(qs[0], categories)] + JobColumns(qs[1..], categories)
  }

  /** `(a, b) => a[0] > b[0] ? 1 : -1` on category names: a comparison with an undefined
      name is false. */
  predicate ColumnNameAfter(a: QuestionColumn, b: QuestionColumn)
  {
    a.name.Some? && b.name.Some? && After(a.name.value, b.name.value)
  }

  /** `jobQuestions`: the custom-scale questions sorted by id, mapped to columns, then
      sorted by category name. */
  function JobQuestions(allQuestions: seq<Question>, categories: seq<Category>): seq<QuestionColumn>
  {
    var byId := SortBy(Filter(allQuestions, IsCustomScale), QuestionIdAfter);
    SortBy(JobColumns(byId, categories), ColumnNameAfter)
  }

  /** Every custom-scale question has exactly one column, kept even when its category is
      unknown; no other question has one. */
  lemma {:induction false} JobQuestionsKeepAll(allQuestions: seq<Question>, categories: seq<Category>)
    ensures |JobQuestions(allQuestions, categories)| == |Filter(allQuestions, IsCustomScale)|
    ensures ColumnsFromQuestions(JobQuestions(allQuestions, categories), allQuestions, categories)
    ensures ColumnsOfQuestions(JobQuestions(allQuestions, categories), allQuestions, categories)
  {
    JobColumnsFromQuestions(allQuestions, categories);
    JobColumnsOfQuestions(allQuestions, categories);
  }

  /** Every column is the column of a custom-scale question. */
  ghost predicate ColumnsFromQuestions(j: seq<QuestionColumn>, allQuestions: seq<Question>, categories: seq<Category>)
  {
    forall k :: 0 <= k < |j| ==> exists m :: 0 <= m < |allQuestions| && IsCustomScale(allQuestions[m])
                                           && j[k] == JobColumn(allQuestions[m], categories)
  }

  /** Every custom-scale question has its column. */
  ghost predicate ColumnsOfQuestions(j: seq<QuestionColumn>, allQuestions: seq<Question>, categories: seq<Category>)
  {
    forall m :: 0 <= m < |allQuestions| && IsCustomScale(allQuestions[m]) ==> JobColumn(allQuestions[m], categories) in j
  }

  lemma {:induction false} JobColumnsFromQuestions(allQuestions: seq<Question>, categories: seq<Category>)
    ensures ColumnsFromQuestions(JobQuestions(allQuestions, categories), allQuestions, categories)
  {
    var kept := Filter(allQuestions, IsCustomScale);
    var byId := SortBy(kept, QuestionIdAfter);
    var cols := JobColumns(byId, categories);
    var j := SortBy(cols, ColumnNameAfter);
    FilterSortByMembers(allQuestions, IsCustomScale, kept, QuestionIdAfter);
    SortByMembers(cols, ColumnNameAfter);
    forall k | 0 <= k < |j|
      ensures exists m :: 0 <= m < |allQuestions| && IsCustomScale(allQuestions[m])
                          && j[k] == JobColumn(allQuestions[m], categories)
    {
      var n :| 0 <= n < |cols| && cols[n] == j[k];
      var m :| 0 <= m < |allQuestions| && allQuestions[m] == byId[n];
      assert j[k] == JobColumn(allQuestions[m], categories);
    }
  }

  lemma {:induction false} JobColumnsOfQuestions(allQuestions: seq<Question>, categories: seq<Category>)
    ensures ColumnsOfQuestions(JobQuestions(allQuestions, categories), allQuestions, categories)
  {
    var kept := Filter(allQuestions, IsCustomScale);
    var byId := SortBy(kept, QuestionIdAfter);
    var cols := JobColumns(byId, categories);
    var j := SortBy(cols, ColumnNameAfter);
    FilterSortByMembers(allQuestions, IsCustomScale, kept, QuestionIdAfter);
    SortByMembers(cols, ColumnNameAfter);
    forall m | 0 <= m < |allQuestions| && IsCustomScale(allQuestions[m])
      ensures JobColumn(allQuestions[m], categories) in j
    {
      var n :| 0 <= n < |byId| && byId[n] == allQuestions[m];
      assert cols[n] == JobColumn(allQuestions[m], categories);
    }
  }

  function NameOrEmpty(c: QuestionColumn): string
  {
    if c.name.Some? then c.name.value else ""
  }

  predicate ColumnNameOrEmptyAfter(a: QuestionColumn, b: QuestionColumn)
  {
    After(NameOrEmpty(a), NameOrEmpty(b))
  }

  /** When every category is known, `jobQuestions` holds one column per custom-scale
      question, each named, in category-name order. */
  lemma {:induction false} JobQuestionsOrdered(allQuestions: seq<Question>, categories: seq<Category>)
    requires forall k :: 0 <= k < |allQuestions| && IsCustomScale(allQuestions[k]) ==>
               FindCategory(categories, allQuestions[k].categoryId).Some?
    ensures |JobQuestions(allQuestions, categories)| == |Filter(allQuestions, IsCustomScale)|
    ensures AllNamed(JobQuestions(allQuestions, categories))
    ensures NameOrdered(JobQuestions(allQuestions, categories))
  {
    JobQuestionsKeepAll(allQuestions, categories);
    JobColumnsNamed(allQuestions, categories);
    SortedByName(JobColumns(SortBy(Filter(allQuestions, IsCustomScale), QuestionIdAfter), categories));
  }

  /** Named columns in non-decreasing name order. */
  ghost predicate NameOrdered(j: seq<QuestionColumn>)
    requires AllNamed(j)
  {
    forall a, b :: 0 <= a < b < |j| ==> !Less(j[b].name.value, j[a].name.value)
  }

  /** Sorting named columns by name puts them in name order. */
  lemma {:induction false} SortedByName(cols: seq<QuestionColumn>)
    requires AllNamed(cols)
    ensures AllNamed(SortBy(cols, ColumnNameAfter))
    ensures NameOrdered(SortBy(cols, ColumnNameAfter))
  {
    var j := SortBy(cols, ColumnNameAfter);
    SortByMembers(cols, ColumnNameAfter);
    assert j == SortBy(cols, ColumnNameOrEmptyAfter) by {
      SortByAgree(cols, ColumnNameAfter, ColumnNameOrEmptyAfter);
    }
    assert Sorted(j, ColumnNameOrEmptyAfter) by {
      AfterIsStrictWeakOrder();
      ThroughIsStrictWeakOrder(NameOrEmpty, After, ColumnNameOrEmptyAfter);
      SortBySorted(cols, ColumnNameOrEmptyAfter);
    }
    forall a, b | 0 <= a < b < |j| ensures !Less(j[b].name.value, j[a].name.value) {
      assert !ColumnNameOrEmptyAfter(j[a], j[b]);
    }
  }

  /** Every column has a category name. */
  ghost predicate AllNamed(cols: seq<QuestionColumn>)
  {
    forall k :: 0 <= k < |cols| ==> cols[k].name.Some?
  }

  lemma {:induction false} JobColumnsNamed(allQuestions: seq<Question>, categories: seq<Category>)
    requires forall k :: 0 <= k < |allQuestions| && IsCustomScale(allQuestions[k]) ==>
               FindCategory(categories, allQuestions[k].categoryId).Some?
    ensures AllNamed(JobColumns(SortBy(Filter(allQuestions, IsCustomScale), QuestionIdAfter), categories))
  {
    var kept := Filter(allQuestions, IsCustomScale);
    var byId := SortBy(kept, QuestionIdAfter);
    var cols := JobColumns(byId, categories);
    FilterSortByMembers(allQuestions, IsCustomScale, kept, QuestionIdAfter);
    forall k | 0 <= k < |cols| ensures cols[k].name.Some? {
      var m :| 0 <= m < |allQuestions| && allQuestions[m] == byId[k];
      assert cols[k] == JobColumn(allQuestions[m], categories);
    }
  }

  // ------------------------------------------------------------------ answers

  predicate HasQuestion(a: NestedAnswer)
  {
    a.question.Some?
  }

  /** The record built for an answer that has a question: the question's id, category and
      topic copied; `knowledge` and `customScaleValue` copied; `motivation` set from
      `knowledge` whenever `motivation` is present. */
  function Inline(a: NestedAnswer): InlineAnswer
    requires HasQuestion(a)
  {
    InlineAnswer(
      knowledge := a.knowledge,
      motivation := if a.motivation.Some? then a.knowledge else None,
      customScaleValue := a.customScaleValue,
      updatedAt := a.updatedAt,
      category := a.question.value.category,
      topic := a.question.value.topic,
      questionId := a.question.value.id)
  }

  /** `u.answers.filter((a) => a.hasOwnProperty("question")).map(...)`. */
  function NormalizeAnswers(s: seq<NestedAnswer>): seq<InlineAnswer>
  {
    if s == [] then []
    else (if HasQuestion(s[0]) then [Inline(s[0])] else []) + NormalizeAnswers(s[1..])
  }

  /** The positions, from `i` on, of the answers that have a question. */
  ghost function KeptFrom(s: seq<NestedAnswer>, i: nat): seq<nat>
    requires i <= |s|
    decreases |s| - i
  {
    if i == |s| then []
    else (if HasQuestion(s[i]) then [i] else []) + KeptFrom(s, i + 1)
  }

  /** The normalised answers are, in order, exactly the answers that have a question. */
  lemma {:induction false} NormalizeAnswersKeepsQuestions(s: seq<NestedAnswer>)
    ensures var r := NormalizeAnswers(s);
            var idx := KeptFrom(s, 0);
      && |idx| == |r|
      && (forall k :: 0 <= k < |idx| ==> idx[k] < |s| && HasQuestion(s[idx[k]]) && r[k] == Inline(s[idx[k]]))
      && (forall k, l :: 0 <= k < l < |idx| ==> idx[k] < idx[l])
      && (forall j :: 0 <= j < |s| && HasQuestion(s[j]) ==> j in idx)
  {
    KeptFromSuffix(s, 0);
    assert s[0..] == s;
  }

  lemma {:induction false} KeptFromSuffix(s: seq<NestedAnswer>, i: nat)
    requires i <= |s|
    decreases |s| - i
    ensures var r := NormalizeAnswers(s[i..]);
            var idx := KeptFrom(s, i);
      && |idx| == |r|
      && (forall k :: 0 <= k < |idx| ==> i <= idx[k] < |s| && HasQuestion(s[idx[k]]) && r[k] == Inline(s[idx[k]]))
      && (forall k, l :: 0 <= k < l < |idx| ==> idx[k] < idx[l])
      && (forall j :: i <= j < |s| && HasQuestion(s[j]) ==> j in idx)
  {
    if i < |s| {
      KeptFromSuffix(s, i + 1);
      assert s[i..][1..] == s[i + 1..];
      assert s[i..][0] == s[i];
    }
  }

  /** A normalised motivation is either absent or a copy of the knowledge value. */
  lemma {:induction false} NormalizedMotivationIsKnowledge(s: seq<NestedAnswer>)
    ensures forall k :: 0 <= k < |NormalizeAnswers(s)| ==>
      NormalizeAnswers(s)[k].motivation == None || NormalizeAnswers(s)[k].motivation == NormalizeAnswers(s)[k].knowledge
    ensures var idx := KeptFrom(s, 0);
      |idx| == |NormalizeAnswers(s)| &&
      forall k :: 0 <= k < |idx| ==>
        idx[k] < |s| &&
        NormalizeAnswers(s)[k].motivation == (if s[idx[k]].motivation.Some? then s[idx[k]].knowledge else None)
  {
    NormalizeAnswersKeepsQuestions(s);
    if s != [] {
      NormalizedMotivationIsKnowledge(s[1..]);
    }
  }

  function NormalizeUser(u: UserAnswers): UserQuestionAnswers
  {
    UserQuestionAnswers(u.username, u.email, u.formDefinitionId, u.updatedAt, NormalizeAnswers(u.answers))
  }

  predicate AnswerSetEmailAfter(a: UserAnswers, b: UserAnswers)
  {
    After(a.email, b.email)
  }

  /** `getAllUserQuestionAnswers` after the fetch: the answer sets ordered by email
      (`getAllAnswersData`), each with its answers normalised. */
  function AllUserQuestionAnswers(data: seq<UserAnswers>): seq<UserQuestionAnswers>
  {
    Map(SortBy(data, AnswerSetEmailAfter), NormalizeUser)
  }

  lemma {:induction false} AllUserQuestionAnswersNormalizesEach(data: seq<UserAnswers>)
    ensures var r := AllUserQuestionAnswers(data);
      && |r| == |data|
      && (forall i, j :: 0 <= i < j < |r| ==> !Less(r[j].email, r[i].email))
      && (forall k :: 0 <= k < |r| ==> exists m :: 0 <= m < |data| && r[k] == NormalizeUser(data[m]))
      && (forall m :: 0 <= m < |data| ==> NormalizeUser(data[m]) in r)
      && multiset(r) == multiset(Map(data, NormalizeUser))
  {
    AllUserQuestionAnswersByEmail(data);
    AllUserQuestionAnswersMembers(data);
    SortByMap(data, NormalizeUser, QuestionAnswersEmailAfter, AnswerSetEmailAfter);
  }

  predicate QuestionAnswersEmailAfter(a: UserQuestionAnswers, b: UserQuestionAnswers)
  {
    After(a.email, b.email)
  }

  lemma {:induction false} AllUserQuestionAnswersByEmail(data: seq<UserAnswers>)
    ensures var r := AllUserQuestionAnswers(data);
      forall i, j :: 0 <= i < j < |r| ==> !Less(r[j].email, r[i].email)
  {
    var sorted := SortBy(data, AnswerSetEmailAfter);
    var r := AllUserQuestionAnswers(data);
    assert Sorted(sorted, AnswerSetEmailAfter) by {
      AfterIsStrictWeakOrder();
      ThroughIsStrictWeakOrder((u: UserAnswers) => u.email, After, AnswerSetEmailAfter);
      SortBySorted(data, AnswerSetEmailAfter);
    }
    forall i, j | 0 <= i < j < |r| ensures !Less(r[j].email, r[i].email) {
      assert !AnswerSetEmailAfter(sorted[i], sorted[j]);
    }
  }

  lemma {:induction false} AllUserQuestionAnswersMembers(data: seq<UserAnswers>)
    ensures var r := AllUserQuestionAnswers(data);
      && (forall k :: 0 <= k < |r| ==> exists m :: 0 <= m < |data| && r[k] == NormalizeUser(data[m]))
      && (forall m :: 0 <= m < |data| ==> NormalizeUser(data[m]) in r)
  {
    MapSortByMembers(data, AnswerSetEmailAfter, NormalizeUser);
  }
}
