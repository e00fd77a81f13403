/** The 2021 competence sheet: `deriveTaxonomy` builds a category -> topic -> id tree
    from the first user's answers, and `getCompetencyData` shapes the output table
    (2021/FetchAllData.ts). */
module Taxonomy {
  import opened Values
  import opened ArrayOps
  import opened Strings
  import opened Objects

  /** The question of a 2021 answer: its text, topic, category name and id. */
  datatype TaxonomyQuestion = TaxonomyQuestion(text: string, topic: string, category: string, id: string)

  datatype TaxonomyAnswer = TaxonomyAnswer(knowledge: int, motivation: int, updatedAt: string, question: TaxonomyQuestion)

  /** One user's answer set as the 2021 endpoint returns it. */
  datatype UserEntry = UserEntry(email: string, updatedAt: string, answers: seq<TaxonomyAnswer>)

  /** A JavaScript object used as a dictionary: its keys in insertion order, each with
      its value. */
  type Topics = seq<(string, string)>
  type Tree = seq<(string, Topics)>

  /** The tree after visiting `answers` in order, each visit setting
      `tree[category] = {}` and then `tree[category][topic] = id`. */
  function TaxonomyOf(answers: seq<TaxonomyAnswer>): Tree
  {
    if answers == [] then []
    else
      var q := answers[|answers| - 1].question;
      Assign(TaxonomyOf(answers[..|answers| - 1]), q.category, [(q.topic, q.id)])
  }

  /** `deriveTaxonomy`: walks the answers of the first user only; with no user the read
      of `data[0].answers` throws. */
  method DeriveTaxonomy(data: seq<UserEntry>) returns (r: Result<Tree>)
    ensures data == [] ==> r == Err(TypeError("Cannot read properties of undefined (reading 'answers')"))
    ensures data != [] ==> r == Ok(TaxonomyOf(data[0].answers))
  {
    if data == [] {
      return Err(TypeError("Cannot read properties of undefined (reading 'answers')"));
    }
    var answers := data[0].answers;
    var tree: Tree := [];
    for i := 0 to |answers|
      invariant tree == TaxonomyOf(answers[..i])
    {
      var q := answers[i].question;
      assert answers[..i + 1][..i] == answers[..i];
      tree := Assign(tree, q.category, [(q.topic, q.id)]);
    }
    assert answers[..|answers|] == answers;
    return Ok(tree);
  }

  /** The keys of `t` are exactly the categories of `answers`. */
  ghost predicate KeysAreCategories(t: Tree, answers: seq<TaxonomyAnswer>)
  {
    KeysFromCategories(t, answers) && CategoriesAreKeys(t, answers)
  }

  ghost predicate KeysFromCategories(t: Tree, answers: seq<TaxonomyAnswer>)
  {
    forall k :: 0 <= k < |t| ==> exists i :: 0 <= i < |answers| && answers[i].question.category == t[k].0
  }

  ghost predicate CategoriesAreKeys(t: Tree, answers: seq<TaxonomyAnswer>)
  {
    forall i :: 0 <= i < |answers| ==> exists k :: 0 <= k < |t| && t[k].0 == answers[i].question.category
  }

  /** Each category holds the single topic -> id entry of the last answer in it. */
  ghost predicate EntriesAreLastAnswers(t: Tree, answers: seq<TaxonomyAnswer>)
  {
    forall k :: 0 <= k < |t| ==> EntryIsLastAnswer(t[k], answers)
  }

  ghost predicate EntryIsLastAnswer(e: (string, Topics), answers: seq<TaxonomyAnswer>)
  {
    exists i :: && 0 <= i < |answers|
                && answers[i].question.category == e.0
                && e.1 == [(answers[i].question.topic, answers[i].question.id)]
                && forall j :: i < j < |answers| ==> answers[j].question.category != e.0
  }

  /** The taxonomy has one key per category of the answers, and each category ends with
      exactly the topic and id of the last answer in it, since every visit resets it. */
  lemma {:induction false} TaxonomyShape(answers: seq<TaxonomyAnswer>)
    ensures DistinctKeys(TaxonomyOf(answers))
    ensures KeysAreCategories(TaxonomyOf(answers), answers)
    ensures EntriesAreLastAnswers(TaxonomyOf(answers), answers)
  {
    if answers != [] {
      var n := |answers| - 1;
      var init := answers[..n];
      var q := answers[n].question;
      var prev := TaxonomyOf(init);
      var t := TaxonomyOf(answers);
      TaxonomyShape(init);
      AssignDistinct(prev, q.category, [(q.topic, q.id)]);
      AssignKept(prev, q.category, [(q.topic, q.id)]);
      assert t == Assign(prev, q.category, [(q.topic, q.id)]);
      TaxonomyKeys(answers, init, prev, t);
      TaxonomyEntries(answers, init, prev, t);
    }
  }

  lemma {:induction false} TaxonomyKeys(answers: seq<TaxonomyAnswer>, init: seq<TaxonomyAnswer>, prev: Tree, t: Tree)
    requires answers != [] && init == answers[..|answers| - 1]
    requires KeysAreCategories(prev, init)
    requires var q := answers[|answers| - 1].question;
      AssignedFrom(t, prev, q.category, [(q.topic, q.id)])
    ensures KeysAreCategories(t, answers)
  {
    TaxonomyKeysFrom(answers, init, prev, t);
    TaxonomyKeysCover(answers, init, prev, t);
  }

  lemma {:induction false} TaxonomyKeysFrom(answers: seq<TaxonomyAnswer>, init: seq<TaxonomyAnswer>, prev: Tree, t: Tree)
    requires answers != [] && init == answers[..|answers| - 1]
    requires KeysFromCategories(prev, init)
    requires var q := answers[|answers| - 1].question;
      AssignedFrom(t, prev, q.category, [(q.topic, q.id)])
    ensures KeysFromCategories(t, answers)
  {
    var n := |answers| - 1;
    var q := answers[n].question;
    forall k | 0 <= k < |t| ensures exists i :: 0 <= i < |answers| && answers[i].question.category == t[k].0 {
      if t[k].0 == q.category {
        assert answers[n].question.category == t[k].0;
      } else {
        var j :| 0 <= j < |prev| && prev[j] == t[k];
        var i :| 0 <= i < |init| && init[i].question.category == prev[j].0;
        assert answers[i] == init[i];
      }
    }
  }

  lemma {:induction false} TaxonomyKeysCover(answers: seq<TaxonomyAnswer>, init: seq<TaxonomyAnswer>, prev: Tree, t: Tree)
    requires answers != [] && init == answers[..|answers| - 1]
    requires CategoriesAreKeys(prev, init)
    requires var q := answers[|answers| - 1].question;
      AssignedFrom(t, prev, q.category, [(q.topic, q.id)])
    ensures CategoriesAreKeys(t, answers)
  {
    var n := |answers| - 1;
    var q := answers[n].question;
    forall i | 0 <= i < |answers| ensures exists k :: 0 <= k < |t| && t[k].0 == answers[i].question.category {
      if answers[i].question.category == q.category {
        var k :| 0 <= k < |t| && t[k] == (q.category, [(q.topic, q.id)]);
      } else {
        assert answers[i] == init[i];
        var j :| 0 <= j < |prev| && prev[j].0 == init[i].question.category;
        var k :| 0 <= k < |t| && t[k] == prev[j];
      }
    }
  }

  lemma {:induction false} TaxonomyEntries(answers: seq<TaxonomyAnswer>, init: seq<TaxonomyAnswer>, prev: Tree, t: Tree)
    requires answers != [] && init == answers[..|answers| - 1]
    requires EntriesAreLastAnswers(prev, init)
    requires DistinctKeys(t)
    requires var q := answers[|answers| - 1].question;
      AssignedFrom(t, prev, q.category, [(q.topic, q.id)])
    ensures EntriesAreLastAnswers(t, answers)
  {
    var q := answers[|answers| - 1].question;
    forall k | 0 <= k < |t| ensures EntryIsLastAnswer(t[k], answers) {
      if t[k].0 == q.category {
        var m :| 0 <= m < |t| && t[m] == (q.category, [(q.topic, q.id)]);
        assert m == k;
        assert EntryIsLastAnswer(t[k], answers) by {
          var n := |answers| - 1;
          assert answers[n].question.category == t[k].0;
        }
      } else {
        var p :| 0 <= p < |prev| && prev[p] == t[k];
        EntryStaysLast(answers, init, t[k]);
      }
    }
  }

  /** The last answer of a category stays its last answer when an answer of another
      category follows. */
  lemma {:induction false} EntryStaysLast(answers: seq<TaxonomyAnswer>, init: seq<TaxonomyAnswer>, e: (string, Topics))
    requires answers != [] && init == answers[..|answers| - 1]
    requires EntryIsLastAnswer(e, init)
    requires answers[|answers| - 1].question.category != e.0
    ensures EntryIsLastAnswer(e, answers)
  {
    var n := |answers| - 1;
    var i :| && 0 <= i < |init|
             && init[i].question.category == e.0
             && e.1 == [(init[i].question.topic, init[i].question.id)]
             && forall j :: i < j < |init| ==> init[j].question.category != e.0;
    assert answers[i] == init[i];
    forall j | i < j < |answers| ensures answers[j].question.category != e.0 {
      if j < n {
        assert answers[j] == init[j];
      }
    }
  }

  /** The output of `getCompetencyData` for a non-empty answer list: the header
      `['epost', 'timestamp', ...sorted category names]`, then `[email, updatedAt]` for
      each user. */
  method CompetencyData(data: seq<UserEntry>) returns (r: Result<seq<seq<string>>>)
    ensures data == [] ==> r == Err(TypeError("Cannot read properties of undefined (reading 'answers')"))
    ensures data != [] ==> r.Ok? && CompetencyTable(r.value, data)
  {
    var taxonomy := DeriveTaxonomy(data);
    if taxonomy.Err? {
      return Err(taxonomy.error);
    }
    var categories := SortBy(Keys(taxonomy.value), After);
    categories := ["epost", "timestamp"] + categories;
    var output := Map(data, (u: UserEntry) => [u.email, u.updatedAt]);
    output := [categories] + output;
    CompetencyHeader(data[0].answers);
    return Ok(output);
  }

  /** `table` is the competence table of `data`: a header of the two fixed titles followed
      by every category of the first user's answers once, in ascending order, and one
      `[email, updatedAt]` row per user. */
  ghost predicate CompetencyTable(table: seq<seq<string>>, data: seq<UserEntry>)
    requires data != []
  {
    var answers := data[0].answers;
    && |table| == |data| + 1
    && |table[0]| >= 2
    && table[0][..2] == ["epost", "timestamp"]
    && Ascending(table[0][2..])
    && ExactlyCategories(table[0][2..], answers)
    && (forall k :: 0 <= k < |data| ==> table[k + 1] == [data[k].email, data[k].updatedAt])
  }

  /** The sorted keys of the taxonomy: every category of the answers once, ascending. */
  lemma {:induction false} CompetencyHeader(answers: seq<TaxonomyAnswer>)
    ensures Ascending(SortBy(Keys(TaxonomyOf(answers)), After))
    ensures ExactlyCategories(SortBy(Keys(TaxonomyOf(answers)), After), answers)
  {
    var t := TaxonomyOf(answers);
    TaxonomyShape(answers);
    SortedDistinctAscending(Keys(t));
    HeaderHoldsCategories(answers, t, Keys(t));
  }

  /** Each string is below the next. */
  ghost predicate Ascending(h: seq<string>)
  {
    forall i, j :: 0 <= i < j < |h| ==> Less(h[i], h[j])
  }

  /** `h` holds the categories of `answers` and nothing else. */
  ghost predicate ExactlyCategories(h: seq<string>, answers: seq<TaxonomyAnswer>)
  {
    HeaderFromCategories(h, answers) && CategoriesInHeader(h, answers)
  }

  ghost predicate HeaderFromCategories(h: seq<string>, answers: seq<TaxonomyAnswer>)
  {
    forall k :: 0 <= k < |h| ==> exists i :: 0 <= i < |answers| && answers[i].question.category == h[k]
  }

  ghost predicate CategoriesInHeader(h: seq<string>, answers: seq<TaxonomyAnswer>)
  {
    forall i :: 0 <= i < |answers| ==> answers[i].question.category in h
  }

  lemma {:induction false} HeaderHoldsCategories(answers: seq<TaxonomyAnswer>, t: Tree, keys: seq<string>)
    requires KeysAreCategories(t, answers)
    requires keys == Keys(t)
    ensures ExactlyCategories(SortBy(keys, After), answers)
  {
    HeaderOnlyCategories(answers, t, keys);
    HeaderEveryCategory(answers, t, keys);
  }

  lemma {:induction false} HeaderOnlyCategories(answers: seq<TaxonomyAnswer>, t: Tree, keys: seq<string>)
    requires KeysFromCategories(t, answers)
    requires keys == Keys(t)
    ensures HeaderFromCategories(SortBy(keys, After), answers)
  {
    var h := SortBy(keys, After);
    SortByMembers(keys, After);
    forall k | 0 <= k < |h| ensures exists i :: 0 <= i < |answers| && answers[i].question.category == h[k] {
      var m :| 0 <= m < |keys| && keys[m] == h[k];
      assert t[m].0 == h[k];
    }
  }

  lemma {:induction false} HeaderEveryCategory(answers: seq<TaxonomyAnswer>, t: Tree, keys: seq<string>)
    requires CategoriesAreKeys(t, answers)
    requires keys == Keys(t)
    ensures CategoriesInHeader(SortBy(keys, After), answers)
  {
    var h := SortBy(keys, After);
    SortByMembers(keys, After);
    forall i | 0 <= i < |answers| ensures answers[i].question.category in h {
      var k :| 0 <= k < |t| && t[k].0 == answers[i].question.category;
      assert keys[k] == answers[i].question.category;
    }
  }

  /** `sort()` of strings without repeats puts each strictly below the next. */
  lemma {:induction false} SortedDistinctAscending(keys: seq<string>)
    requires forall i, j :: 0 <= i < j < |keys| ==> keys[i] != keys[j]
    ensures Ascending(SortBy(keys, After))
  {
    var h := SortBy(keys, After);
    assert Sorted(h, After) by {
      AfterIsStrictWeakOrder();
      SortBySorted(keys, After);
    }
    forall i, j | 0 <= i < j < |h| ensures Less(h[i], h[j]) {
      DistinctSorted(keys, h, i, j);
      LessTotal(h[i], h[j]);
    }
  }

  /** A permutation of a list without repeats has no repeats. */
  lemma {:induction false} DistinctSorted(keys: seq<string>, h: seq<string>, i: int, j: int)
    requires forall a, b :: 0 <= a < b < |keys| ==> keys[a] != keys[b]
    requires multiset(h) == multiset(keys)
    requires 0 <= i < j < |h|
    ensures h[i] != h[j]
  {
    if h[i] == h[j] {
      assert multiset(h)[h[i]] >= 2 by {
        assert h == h[..i] + [h[i]] + h[i + 1..j] + [h[j]] + h[j + 1..];
      }
      DistinctCount(keys, h[i]);
    }
  }

  lemma {:induction false} DistinctCount(keys: seq<string>, x: string)
    requires forall a, b :: 0 <= a < b < |keys| ==> keys[a] != keys[b]
    ensures multiset(keys)[x] <= 1
  {
    if keys != [] {
      assert keys == [keys[0]] + keys[1..];
      DistinctCount(keys[1..], x);
      if keys[0] == x {
        assert x !in keys[1..];
      }
    }
  }
}
