/** The `Array.prototype` operations the scripts chain: `filter`, `map`, `flat` and `sort`.

    A comparator `compare(a, b)` is modelled by `gt(a, b)`, "the comparator returns a
    positive number", so `a` is placed after `b`. `sort` is stable (ECMAScript 2019),
    which the insertion sort below is. */
module ArrayOps {
  import opened Values

  /** `s.filter(p)`. */
  function Filter<T>(s: seq<T>, p: T -> bool): (r: seq<T>)
    ensures |r| <= |s|
    ensures forall k :: 0 <= k < |r| ==> p(r[k])
  {
    if s == [] then []
    else (if p(s[0]) then [s[0]] else []) + Filter(s[1..], p)
  }

  /** The filtered array holds elements of `s` only, and every element of `s` that passes. */
  lemma {:induction false} FilterMembers<T>(s: seq<T>, p: T -> bool)
    ensures forall k :: 0 <= k < |Filter(s, p)| ==> Filter(s, p)[k] in s
    ensures forall k :: 0 <= k < |s| && p(s[k]) ==> s[k] in Filter(s, p)
  {
    if s != [] {
      FilterMembers(s[1..], p);
      var r := Filter(s, p);
      var t := Filter(s[1..], p);
      assert r == (if p(s[0]) then [s[0]] else []) + t;
      forall k | 0 <= k < |r| ensures r[k] in s {
        if !(p(s[0]) && k == 0) {
          var i := if p(s[0]) then k - 1 else k;
          assert r[k] == t[i];
          var m :| 0 <= m < |s[1..]| && s[1..][m] == t[i];
          assert s[m + 1] == r[k];
        }
      }
      forall k | 0 <= k < |s| && p(s[k]) ensures s[k] in r {
        if k > 0 {
          assert s[1..][k - 1] == s[k];
        }
      }
    }
  }

  lemma {:induction false} FilterAppend<T>(a: seq<T>, b: seq<T>, p: T -> bool)
    ensures Filter(a + b, p) == Filter(a, p) + Filter(b, p)
  {
    if a != [] {
      assert (a + b)[1..] == a[1..] + b;
      FilterAppend(a[1..], b, p);
    } else {
      assert a + b == b;
    }
  }

  /** The positions, from `i` on, of the elements of `s` that pass `p`. */
  ghost function PassingFrom<T>(s: seq<T>, p: T -> bool, i: nat): seq<nat>
    requires i <= |s|
    decreases |s| - i
  {
    if i == |s| then [] else (if p(s[i]) then [i] else []) + PassingFrom(s, p, i + 1)
  }

  /** `r` is `s` read at the increasing positions `idx`, all at `i` or after, and `idx`
      holds every such position whose element passes `p`: the passing elements of
      `s[i..]`, in their order and each as often as `s` holds it. */
  ghost predicate PicksPassing<T>(r: seq<T>, s: seq<T>, p: T -> bool, idx: seq<nat>, i: nat)
  {
    && |idx| == |r|
    && (forall k :: 0 <= k < |idx| ==> i <= idx[k] < |s| && p(s[idx[k]]) && r[k] == s[idx[k]])
    && (forall k, l :: 0 <= k < l < |idx| ==> idx[k] < idx[l])
    && (forall j :: i <= j < |s| && p(s[j]) ==> j in idx)
  }

  lemma {:induction false} FilterPicksFrom<T>(s: seq<T>, p: T -> bool, i: nat)
    requires i <= |s|
    decreases |s| - i
    ensures PicksPassing(Filter(s[i..], p), s, p, PassingFrom(s, p, i), i)
  {
    if i < |s| {
      FilterPicksFrom(s, p, i + 1);
      var t := Filter(s[i + 1..], p);
      var idx := PassingFrom(s, p, i + 1);
      assert s[i..][1..] == s[i + 1..];
      assert Filter(s[i..], p) == (if p(s[i]) then [s[i]] else []) + t;
      if p(s[i]) {
        PicksCons(t, s, p, idx, i);
      }
    }
  }

  /** One more passing element in front, at position `i`. */
  lemma {:induction false} PicksCons<T>(t: seq<T>, s: seq<T>, p: T -> bool, idx: seq<nat>, i: nat)
    requires i < |s| && p(s[i])
    requires PicksPassing(t, s, p, idx, i + 1)
    ensures PicksPassing([s[i]] + t, s, p, [i] + idx, i)
  {
    var r := [s[i]] + t;
    var ix := [i] + idx;
    forall k | 0 <= k < |ix| ensures i <= ix[k] < |s| && p(s[ix[k]]) && r[k] == s[ix[k]] {
      if k > 0 {
        assert ix[k] == idx[k - 1] && r[k] == t[k - 1];
      }
    }
    forall k, l | 0 <= k < l < |ix| ensures ix[k] < ix[l] {
      assert ix[l] == idx[l - 1];
      if k > 0 {
        assert ix[k] == idx[k - 1];
      }
    }
    forall j | i <= j < |s| && p(s[j]) ensures j in ix {
      if j > i {
        assert j in idx;
      }
    }
  }

  /** `filter` keeps exactly the passing elements, in their order and multiplicity. */
  lemma {:induction false} FilterPicks<T>(s: seq<T>, p: T -> bool)
    ensures PicksPassing(Filter(s, p), s, p, PassingFrom(s, p, 0), 0)
  {
    FilterPicksFrom(s, p, 0);
    assert s[0..] == s;
  }

  /** `filter` keeps each passing value as often as `s` holds it, and no other value. */
  lemma {:induction false} FilterMultiset<T>(s: seq<T>, p: T -> bool)
    ensures forall x :: multiset(Filter(s, p))[x] == if p(x) then multiset(s)[x] else 0
  {
    if s != [] {
      FilterMultiset(s[1..], p);
      assert s == [s[0]] + s[1..];
    }
  }

  /** `s.map(f)`. */
  function Map<T, U>(s: seq<T>, f: T -> U): (r: seq<U>)
    ensures |r| == |s|
    ensures forall k :: 0 <= k < |s| ==> r[k] == f(s[k])
  {
    seq(|s|, k requires 0 <= k < |s| => f(s[k]))
  }

  /** `s.map(f)` for an `f` that may throw: the first element that throws ends the map
      with its exception. */
  function MapAll<T, U>(s: seq<T>, f: T -> Result<U>): (r: Result<seq<U>>)
    ensures r.Ok? <==> forall k :: 0 <= k < |s| ==> f(s[k]).Ok?
    ensures r.Ok? ==> |r.value| == |s| && forall k :: 0 <= k < |s| ==> f(s[k]) == Ok(r.value[k])
  {
    if s == [] then Ok([])
    else
      match f(s[0])
      case Err(e) => Err(e)
      case Ok(x) =>
        match MapAll(s[1..], f)
        case Err(e) => Err(e)
        case Ok(rest) => Ok([x] + rest)
  }

  /** Mapping one more element: the map so far, then that element. */
  lemma {:induction false} MapAllSnoc<T, U>(s: seq<T>, x: T, f: T -> Result<U>)
    ensures MapAll(s + [x], f) ==
              match MapAll(s, f)
              case Err(e) => Err(e)
              case Ok(v) => (match f(x) case Err(e) => Err(e) case Ok(y) => Ok(v + [y]))
  {
    if s == [] {
      assert s + [x] == [x] && [x][1..] == [];
      assert MapAll(s, f) == Ok([]);
      if f(x).Ok? {
        assert [x][0] == x;
        assert MapAll([x], f).value == [f(x).value];
        assert [] + [f(x).value] == [f(x).value];
      }
    } else {
      assert (s + [x])[0] == s[0];
      assert (s + [x])[1..] == s[1..] + [x];
      MapAllSnoc(s[1..], x, f);
      if f(s[0]).Ok? && MapAll(s[1..], f).Ok? && f(x).Ok? {
        assert [f(s[0]).value] + (MapAll(s[1..], f).value + [f(x).value])
            == ([f(s[0]).value] + MapAll(s[1..], f).value) + [f(x).value];
      }
    }
  }

  /** Once a prefix throws, nothing after it is mapped. */
  lemma {:induction false} MapAllAppendErr<T, U>(a: seq<T>, b: seq<T>, f: T -> Result<U>)
    requires MapAll(a, f).Err?
    ensures MapAll(a + b, f) == MapAll(a, f)
  {
    assert (a + b)[0] == a[0];
    if f(a[0]).Ok? {
      assert (a + b)[1..] == a[1..] + b;
      MapAllAppendErr(a[1..], b, f);
    }
  }

  /** One step of a loop that maps `s` element by element and stops at the first
      exception: the next element is mapped, or its exception is the whole map's. */
  lemma {:induction false} MapAllStep<T, U>(s: seq<T>, i: nat, f: T -> Result<U>)
    requires i < |s| && MapAll(s[..i], f).Ok?
    ensures f(s[i]).Ok? ==> MapAll(s[..i + 1], f) == Ok(MapAll(s[..i], f).value + [f(s[i]).value])
    ensures f(s[i]).Err? ==> MapAll(s, f) == Err(f(s[i]).error)
  {
    assert s[..i + 1] == s[..i] + [s[i]];
    MapAllSnoc(s[..i], s[i], f);
    if f(s[i]).Err? {
      MapAllAppendErr(s[..i + 1], s[i + 1..], f);
      assert s[..i + 1] + s[i + 1..] == s;
    }
  }

  /** Filtering one more element. */
  lemma {:induction false} FilterStep<T>(s: seq<T>, j: nat, p: T -> bool)
    requires j < |s|
    ensures Filter(s[..j + 1], p) == Filter(s[..j], p) + (if p(s[j]) then [s[j]] else [])
  {
    assert s[..j + 1] == s[..j] + [s[j]];
    FilterAppend(s[..j], [s[j]], p);
    assert [s[j]][1..] == [];
  }

  /** One step of a loop that maps the elements of `s` that pass `p`, stopping at the
      first exception. */
  lemma {:induction false} FilterMapAllStep<T, U>(s: seq<T>, j: nat, p: T -> bool, f: T -> Result<U>)
    requires j < |s| && MapAll(Filter(s[..j], p), f).Ok?
    ensures !p(s[j]) ==> MapAll(Filter(s[..j + 1], p), f) == MapAll(Filter(s[..j], p), f)
    ensures p(s[j]) && f(s[j]).Ok? ==>
              MapAll(Filter(s[..j + 1], p), f) == Ok(MapAll(Filter(s[..j], p), f).value + [f(s[j]).value])
    ensures p(s[j]) && f(s[j]).Err? ==> MapAll(Filter(s, p), f) == Err(f(s[j]).error)
  {
    var before := Filter(s[..j], p);
    FilterStep(s, j, p);
    if p(s[j]) {
      MapAllSnoc(before, s[j], f);
      if f(s[j]).Err? {
        assert s[..j + 1] + s[j + 1..] == s;
        FilterAppend(s[..j + 1], s[j + 1..], p);
        MapAllAppendErr(before + [s[j]], Filter(s[j + 1..], p), f);
      }
    } else {
      assert before + [] == before;
    }
  }

  /** A failing map throws the exception of its first failing element. */
  lemma {:induction false} MapAllFirstFailure<T, U>(s: seq<T>, f: T -> Result<U>)
    requires MapAll(s, f).Err?
    ensures exists k :: 0 <= k < |s| && f(s[k]) == Err(MapAll(s, f).error) && forall j :: 0 <= j < k ==> f(s[j]).Ok?
  {
    if f(s[0]).Ok? {
      MapAllFirstFailure(s[1..], f);
      var k :| 0 <= k < |s[1..]| && f(s[1..][k]) == Err(MapAll(s[1..], f).error)
               && forall j :: 0 <= j < k ==> f(s[1..][j]).Ok?;
      assert f(s[k + 1]) == Err(MapAll(s, f).error);
      assert forall j :: 1 <= j < k + 1 ==> f(s[j]).Ok? by {
        forall j | 1 <= j < k + 1 ensures f(s[j]).Ok? {
          assert s[j] == s[1..][j - 1];
        }
      }
    } else {
      assert f(s[0]) == Err(MapAll(s, f).error);
    }
  }

  lemma {:induction false} MapAppend<T, U>(a: seq<T>, b: seq<T>, f: T -> U)
    ensures Map(a + b, f) == Map(a, f) + Map(b, f)
  {
  }

  /** The elements for which a callback that can throw answers `true`. */
  function Passes<T>(p: T -> Result<bool>): T -> bool
  {
    x => p(x) == Ok(true)
  }

  /** `s.filter(p)` with a callback that can throw: the first exception ends the
      filter, and otherwise it keeps, in order, the elements `p` answers `true` for. */
  function FilterAll<T>(s: seq<T>, p: T -> Result<bool>): (r: Result<seq<T>>)
    ensures r.Ok? <==> forall k :: 0 <= k < |s| ==> p(s[k]).Ok?
    ensures r.Ok? ==> r.value == Filter(s, Passes(p))
  {
    if s == [] then Ok([])
    else
      match p(s[0])
      case Err(e) => Err(e)
      case Ok(keep) =>
        match FilterAll(s[1..], p)
        case Err(e) => Err(e)
        case Ok(rest) => Ok((if keep then [s[0]] else []) + rest)
  }

  /** `s.flat()` for an array of arrays. */
  function Flatten<T>(s: seq<seq<T>>): seq<T>
  {
    if s == [] then [] else s[0] + Flatten(s[1..])
  }

  lemma {:induction false} FlattenAppend<T>(a: seq<seq<T>>, b: seq<seq<T>>)
    ensures Flatten(a + b) == Flatten(a) + Flatten(b)
  {
    if a != [] {
      assert (a + b)[1..] == a[1..] + b;
      FlattenAppend(a[1..], b);
    } else {
      assert a + b == b;
    }
  }

  /** What a comparator needs for `sort` to order by it: `gt` is asymmetric and
      "not after" is transitive. Every `key(a) > key(b)` comparison is one. */
  ghost predicate IsStrictWeakOrder<T(!new)>(gt: (T, T) -> bool)
  {
    && (forall a, b :: gt(a, b) ==> !gt(b, a))
    && (forall a, b, c :: !gt(a, b) && !gt(b, c) ==> !gt(a, c))
  }

  /** No element is placed after a later one. */
  ghost predicate Sorted<T>(s: seq<T>, gt: (T, T) -> bool)
  {
    forall i, j :: 0 <= i < j < |s| ==> !gt(s[i], s[j])
  }

  /** Sorted by `gt1`, and elements that `gt1` does not separate are sorted by `gt2`. */
  ghost predicate SortedThenBy<T>(s: seq<T>, gt1: (T, T) -> bool, gt2: (T, T) -> bool)
  {
    forall i, j :: 0 <= i < j < |s| ==> !gt1(s[i], s[j]) && (!gt1(s[j], s[i]) ==> !gt2(s[i], s[j]))
  }

  /** Places `x` in front of the first element it does not go after. */
  function Insert<T>(x: T, s: seq<T>, gt: (T, T) -> bool): (r: seq<T>)
    ensures |r| == |s| + 1
    ensures multiset(r) == multiset(s) + multiset{x}
  {
    if s == [] || !gt(x, s[0]) then [x] + s
    else
      assert s == [s[0]] + s[1..];
      [s[0]] + Insert(x, s[1..], gt)
  }

  /** `s.sort(compare)`: a stable sort, as an insertion sort. */
  function SortBy<T>(s: seq<T>, gt: (T, T) -> bool): (r: seq<T>)
    ensures |r| == |s|
    ensures multiset(r) == multiset(s)
  {
    if s == [] then []
    else
      assert s == [s[0]] + s[1..];
      Insert(s[0], SortBy(s[1..], gt), gt)
  }

  /** Sorting a filtered array keeps exactly the elements of `s` that pass. */
  lemma {:induction false} FilterSortByMembers<T>(s: seq<T>, p: T -> bool, kept: seq<T>, gt: (T, T) -> bool)
    requires kept == Filter(s, p)
    ensures forall k :: 0 <= k < |SortBy(kept, gt)| ==> SortBy(kept, gt)[k] in s && p(SortBy(kept, gt)[k])
    ensures forall m :: 0 <= m < |s| && p(s[m]) ==> s[m] in SortBy(kept, gt)
  {
    var r := SortBy(kept, gt);
    FilterMembers(s, p);
    SortByMembers(kept, gt);
    forall k | 0 <= k < |r| ensures r[k] in s && p(r[k]) {
      var i :| 0 <= i < |kept| && kept[i] == r[k];
    }
    forall m | 0 <= m < |s| && p(s[m]) ensures s[m] in r {
      var i :| 0 <= i < |kept| && kept[i] == s[m];
    }
  }

  /** Mapping a sorted copy yields the images of the elements of `s`, each of them. */
  lemma {:induction false} MapSortByMembers<T, U>(s: seq<T>, gt: (T, T) -> bool, f: T -> U)
    ensures var r := Map(SortBy(s, gt), f);
      && (forall k :: 0 <= k < |r| ==> exists m :: 0 <= m < |s| && r[k] == f(s[m]))
      && (forall m :: 0 <= m < |s| ==> f(s[m]) in r)
  {
    var sorted := SortBy(s, gt);
    var r := Map(sorted, f);
    SortByMembers(s, gt);
    forall k | 0 <= k < |r| ensures exists m :: 0 <= m < |s| && r[k] == f(s[m]) {
      var m :| 0 <= m < |s| && s[m] == sorted[k];
    }
    forall m | 0 <= m < |s| ensures f(s[m]) in r {
      var n :| 0 <= n < |sorted| && sorted[n] == s[m];
      assert r[n] == f(s[m]);
    }
  }

  /** `sort` keeps the elements: each result element comes from `s`, each element of `s` is in the result. */
  lemma {:induction false} SortByMembers<T>(s: seq<T>, gt: (T, T) -> bool)
    ensures forall k :: 0 <= k < |SortBy(s, gt)| ==> SortBy(s, gt)[k] in s
    ensures forall k :: 0 <= k < |s| ==> s[k] in SortBy(s, gt)
  {
    var r := SortBy(s, gt);
    forall k | 0 <= k < |r| ensures r[k] in s {
      assert r[k] in multiset(s);
    }
    forall k | 0 <= k < |s| ensures s[k] in r {
      assert s[k] in multiset(r);
    }
  }

  /** With a consistent comparator, `sort` orders its result. */
  lemma {:induction false} SortBySorted<T(!new)>(s: seq<T>, gt: (T, T) -> bool)
    requires IsStrictWeakOrder(gt)
    ensures Sorted(SortBy(s, gt), gt)
  {
    if s != [] {
      SortBySorted(s[1..], gt);
      InsertKeepsSorted(s[0], SortBy(s[1..], gt), gt);
    }
  }

  lemma {:induction false} InsertKeepsSorted<T(!new)>(x: T, s: seq<T>, gt: (T, T) -> bool)
    requires IsStrictWeakOrder(gt)
    requires Sorted(s, gt)
    ensures Sorted(Insert(x, s, gt), gt)
  {
    if s != [] && gt(x, s[0]) {
      var t := Insert(x, s[1..], gt);
      InsertKeepsSorted(x, s[1..], gt);
      forall j | 0 <= j < |t| ensures !gt(s[0], t[j]) {
        assert t[j] in multiset(t);
      }
    }
  }

  lemma {:induction false} InsertKeepsSortedThenBy<T(!new)>(x: T, s: seq<T>, gt1: (T, T) -> bool, gt2: (T, T) -> bool)
    requires IsStrictWeakOrder(gt1)
    requires SortedThenBy(s, gt1, gt2)
    requires forall k :: 0 <= k < |s| ==> !gt2(x, s[k])
    ensures SortedThenBy(Insert(x, s, gt1), gt1, gt2)
  {
    if s != [] && gt1(x, s[0]) {
      var t := Insert(x, s[1..], gt1);
      InsertKeepsSortedThenBy(x, s[1..], gt1, gt2);
      forall j | 0 <= j < |t| ensures !gt1(s[0], t[j]) && (!gt1(t[j], s[0]) ==> !gt2(s[0], t[j])) {
        assert t[j] in multiset(t);
      }
    }
  }

  /** Stability: sorting by `gt1` a sequence already sorted by `gt2` keeps the `gt2` order
      among the elements `gt1` does not separate. */
  lemma {:induction false} SortByIsStable<T(!new)>(s: seq<T>, gt1: (T, T) -> bool, gt2: (T, T) -> bool)
    requires IsStrictWeakOrder(gt1)
    requires Sorted(s, gt2)
    ensures SortedThenBy(SortBy(s, gt1), gt1, gt2)
  {
    if s != [] {
      var t := SortBy(s[1..], gt1);
      SortByIsStable(s[1..], gt1, gt2);
      forall k | 0 <= k < |t| ensures !gt2(s[0], t[k]) {
        assert t[k] in multiset(s[1..]);
        var m :| 0 <= m < |s[1..]| && s[1..][m] == t[k];
        assert s[1 + m] == t[k];
      }
      InsertKeepsSortedThenBy(s[0], t, gt1, gt2);
    }
  }

  /** Sorting commutes with a `map` whose result the comparator reads through. */
  lemma {:induction false} SortByMap<T, U>(s: seq<T>, f: T -> U, gt: (U, U) -> bool, gtThrough: (T, T) -> bool)
    requires forall a, b :: gtThrough(a, b) == gt(f(a), f(b))
    ensures SortBy(Map(s, f), gt) == Map(SortBy(s, gtThrough), f)
  {
    if s != [] {
      assert Map(s, f)[1..] == Map(s[1..], f);
      SortByMap(s[1..], f, gt, gtThrough);
      InsertMap(s[0], SortBy(s[1..], gtThrough), f, gt, gtThrough);
    }
  }

  lemma {:induction false} InsertMap<T, U>(x: T, s: seq<T>, f: T -> U, gt: (U, U) -> bool, gtThrough: (T, T) -> bool)
    requires forall a, b :: gtThrough(a, b) == gt(f(a), f(b))
    ensures Insert(f(x), Map(s, f), gt) == Map(Insert(x, s, gtThrough), f)
  {
    if s == [] || !gtThrough(x, s[0]) {
      MapCons(x, s, f);
    } else {
      assert s == [s[0]] + s[1..];
      MapCons(s[0], s[1..], f);
      InsertMap(x, s[1..], f, gt, gtThrough);
      MapCons(s[0], Insert(x, s[1..], gtThrough), f);
    }
  }

  lemma {:induction false} MapCons<T, U>(x: T, s: seq<T>, f: T -> U)
    ensures Map([x] + s, f) == [f(x)] + Map(s, f)
  {
    assert Map([x] + s, f)[1..] == Map(s, f);
  }

  /** The defined elements of `s`, in order. */
  function Defined<T>(s: seq<Option<T>>): (r: seq<T>)
    ensures |r| <= |s|
  {
    if s == [] then []
    else (if s[0].Some? then [s[0].value] else []) + Defined(s[1..])
  }

  /** The defined elements are those of `s`, each of them. */
  lemma {:induction false} DefinedMembers<T>(s: seq<Option<T>>)
    ensures forall k :: 0 <= k < |Defined(s)| ==> Some(Defined(s)[k]) in s
    ensures forall k :: 0 <= k < |s| && s[k].Some? ==> s[k].value in Defined(s)
  {
    if s != [] {
      DefinedMembers(s[1..]);
      var r := Defined(s);
      var t := Defined(s[1..]);
      assert r == (if s[0].Some? then [s[0].value] else []) + t;
      forall k | 0 <= k < |r| ensures Some(r[k]) in s {
        if !(s[0].Some? && k == 0) {
          var i := if s[0].Some? then k - 1 else k;
          assert r[k] == t[i];
          var m :| 0 <= m < |s[1..]| && s[1..][m] == Some(t[i]);
          assert s[m + 1] == Some(r[k]);
        }
      }
      forall k | 0 <= k < |s| && s[k].Some? ensures s[k].value in r {
        if k > 0 {
          assert s[1..][k - 1] == s[k];
        }
      }
    }
  }

  /** `s.sort(compare)` on an array holding `undefined`: the comparator is never called on
      `undefined`; the defined elements are sorted and every `undefined` goes to the end. */
  function SortUndefinedLast<T>(s: seq<Option<T>>, gt: (T, T) -> bool): (r: seq<Option<T>>)
    ensures |r| == |s|
    ensures forall k :: 0 <= k < |Defined(s)| ==> r[k] == Some(SortBy(Defined(s), gt)[k])
    ensures forall k :: |Defined(s)| <= k < |r| ==> r[k] == None
  {
    var d := SortBy(Defined(s), gt);
    Map(d, (x: T) => Some(x)) + seq(|s| - |d|, _ => None)
  }

  /** Sorting with `undefined` entries loses and invents nothing: the defined entries are
      those of `s` (each value as often), sorted when the comparator is a strict weak
      order; there are as many `undefined` entries, and none comes before a defined one. */
  lemma {:induction false} SortUndefinedLastKeeps<T(!new)>(s: seq<Option<T>>, gt: (T, T) -> bool)
    ensures var r := SortUndefinedLast(s, gt);
      && multiset(Defined(r)) == multiset(Defined(s))
      && |r| - |Defined(r)| == |s| - |Defined(s)|
      && (forall i, j :: 0 <= i < j < |r| && r[i].None? ==> r[j].None?)
    ensures IsStrictWeakOrder(gt) ==> Sorted(Defined(SortUndefinedLast(s, gt)), gt)
  {
    var r := SortUndefinedLast(s, gt);
    var d := SortBy(Defined(s), gt);
    DefinedThenUndefined(r, d);
    if IsStrictWeakOrder(gt) {
      SortBySorted(Defined(s), gt);
    }
  }

  /** The defined elements of `d` wrapped, followed by `undefined` entries, are `d`. */
  lemma {:induction false} DefinedThenUndefined<T>(r: seq<Option<T>>, d: seq<T>)
    requires |d| <= |r|
    requires forall k :: 0 <= k < |d| ==> r[k] == Some(d[k])
    requires forall k :: |d| <= k < |r| ==> r[k] == None
    ensures Defined(r) == d
  {
    if r != [] {
      if d == [] {
        DefinedThenUndefined(r[1..], d);
      } else {
        DefinedThenUndefined(r[1..], d[1..]);
        assert d == [d[0]] + d[1..];
      }
    }
  }

  lemma {:induction false} DefinedAppend<T>(a: seq<Option<T>>, b: seq<Option<T>>)
    ensures Defined(a + b) == Defined(a) + Defined(b)
  {
    if a != [] {
      assert (a + b)[1..] == a[1..] + b;
      DefinedAppend(a[1..], b);
    } else {
      assert a + b == b;
    }
  }

  lemma {:induction false} DefinedCons<T>(x: Option<T>, s: seq<Option<T>>)
    ensures Defined([x] + s) == (if x.Some? then [x.value] else []) + Defined(s)
  {
    assert ([x] + s)[1..] == s;
  }

  /** Nothing is dropped exactly when every element is defined; then `Defined` only unwraps. */
  lemma {:induction false} DefinedAll<T>(s: seq<Option<T>>)
    ensures |Defined(s)| == |s| <==> None !in s
    ensures None !in s ==> forall k :: 0 <= k < |s| ==> Defined(s)[k] == s[k].value
  {
    if s != [] {
      DefinedAll(s[1..]);
      assert s == [s[0]] + s[1..];
    }
  }

  /** Sorting with two comparators that agree on the elements at hand gives one result. */
  lemma {:induction false} SortByAgree<T>(s: seq<T>, gt1: (T, T) -> bool, gt2: (T, T) -> bool)
    requires forall a, b :: a in s && b in s ==> gt1(a, b) == gt2(a, b)
    ensures SortBy(s, gt1) == SortBy(s, gt2)
  {
    if s != [] {
      SortByAgree(s[1..], gt1, gt2);
      var t := SortBy(s[1..], gt1);
      forall k | 0 <= k < |t| ensures t[k] in s {
        assert t[k] in multiset(s[1..]);
      }
      InsertAgree(s[0], t, gt1, gt2);
    }
  }

  lemma {:induction false} InsertAgree<T>(x: T, s: seq<T>, gt1: (T, T) -> bool, gt2: (T, T) -> bool)
    requires forall k :: 0 <= k < |s| ==> gt1(x, s[k]) == gt2(x, s[k])
    ensures Insert(x, s, gt1) == Insert(x, s, gt2)
  {
    if s != [] {
      InsertAgree(x, s[1..], gt1, gt2);
    }
  }

  /** Two sorted runs, no element of the first placed after one of the second, form a sorted whole. */
  lemma {:induction false} SortedAppend<T>(a: seq<T>, b: seq<T>, gt: (T, T) -> bool)
    requires Sorted(a, gt) && Sorted(b, gt)
    requires forall i, j :: 0 <= i < |a| && 0 <= j < |b| ==> !gt(a[i], b[j])
    ensures Sorted(a + b, gt)
  {
    var s := a + b;
    forall i, j | 0 <= i < j < |s| ensures !gt(s[i], s[j]) {
      if j < |a| {
        assert s[i] == a[i] && s[j] == a[j];
      } else if i < |a| {
        assert s[i] == a[i] && s[j] == b[j - |a|];
      } else {
        assert s[i] == b[i - |a|] && s[j] == b[j - |a|];
      }
    }
  }

  /** Filtering keeps the order. */
  lemma {:induction false} FilterSorted<T>(s: seq<T>, p: T -> bool, gt: (T, T) -> bool)
    requires Sorted(s, gt)
    ensures Sorted(Filter(s, p), gt)
  {
    if s != [] {
      FilterSorted(s[1..], p, gt);
      var tail := Filter(s[1..], p);
      var head: seq<T> := if p(s[0]) then [s[0]] else [];
      assert Filter(s, p) == head + tail;
      FilterMembers(s[1..], p);
      forall i, j | 0 <= i < |head| && 0 <= j < |tail| ensures !gt(head[i], tail[j]) {
        var m :| 0 <= m < |s[1..]| && s[1..][m] == tail[j];
        assert s[1 + m] == tail[j];
      }
      SortedAppend(head, tail, gt);
    }
  }

  /** The defined elements of a list whose defined entries are in order are in order. */
  lemma {:induction false} DefinedSorted<T>(s: seq<Option<T>>, gt: (T, T) -> bool)
    requires forall i, j :: 0 <= i < j < |s| && s[i].Some? && s[j].Some? ==> !gt(s[i].value, s[j].value)
    ensures Sorted(Defined(s), gt)
  {
    if s != [] {
      DefinedSorted(s[1..], gt);
      var tail := Defined(s[1..]);
      var head: seq<T> := if s[0].Some? then [s[0].value] else [];
      assert Defined(s) == head + tail;
      if s[0].Some? {
        DefinedMembers(s[1..]);
        forall j | 0 <= j < |tail| ensures !gt(s[0].value, tail[j]) {
          var m :| 0 <= m < |s[1..]| && s[1..][m] == Some(tail[j]);
          assert s[1 + m] == Some(tail[j]);
        }
      }
      SortedAppend(head, tail, gt);
    }
  }

  /** `s.slice(0, n)` on an array, `s.substr(0, n)` or `s.slice(0, n)` on a string: the
      first `n` elements, or all of `s`. */
  function Prefix<T>(s: seq<T>, n: nat): (r: seq<T>)
    ensures r <= s
    ensures |r| == if |s| < n then |s| else n
  {
    if |s| <= n then s else s[..n]
  }

  /** `s.slice(n)`: all but the first `n` elements. */
  function Drop<T>(s: seq<T>, n: nat): (r: seq<T>)
    ensures |s| <= n ==> r == []
    ensures n <= |s| ==> r == s[n..]
  {
    if |s| <= n then [] else s[n..]
  }

  /** `s.filter((x) => !listed.includes(key(x)))`: the elements whose key is not listed, in order. */
  function KeepUnlisted<T, K(==)>(s: seq<T>, key: T -> K, listed: seq<K>): (r: seq<T>)
    ensures |r| <= |s|
    ensures forall k :: 0 <= k < |r| ==> r[k] in s && key(r[k]) !in listed
    ensures forall k :: 0 <= k < |s| && key(s[k]) !in listed ==> s[k] in r
  {
    if s == [] then []
    else (if key(s[0]) !in listed then [s[0]] else []) + KeepUnlisted(s[1..], key, listed)
  }

  /** The test `KeepUnlisted` keeps an element by. */
  function Unlisted<T, K(==)>(key: T -> K, listed: seq<K>): T -> bool
  {
    x => key(x) !in listed
  }

  /** `KeepUnlisted` is the `filter` by that test. */
  lemma {:induction false} KeepUnlistedIsFilter<T, K>(s: seq<T>, key: T -> K, listed: seq<K>)
    ensures KeepUnlisted(s, key, listed) == Filter(s, Unlisted(key, listed))
  {
    if s != [] {
      KeepUnlistedIsFilter(s[1..], key, listed);
    }
  }

  /** Dropping elements keeps a sorted sequence sorted. */
  lemma {:induction false} KeepUnlistedSorted<T, K>(s: seq<T>, key: T -> K, listed: seq<K>, gt: (T, T) -> bool)
    requires Sorted(s, gt)
    ensures Sorted(KeepUnlisted(s, key, listed), gt)
  {
    if s != [] {
      KeepUnlistedSorted(s[1..], key, listed, gt);
      var tail := KeepUnlisted(s[1..], key, listed);
      var head := if key(s[0]) !in listed then [s[0]] else [];
      forall i, j | 0 <= i < |head| && 0 <= j < |tail| ensures !gt(head[i], tail[j]) {
        var m :| 0 <= m < |s[1..]| && s[1..][m] == tail[j];
        assert s[1 + m] == tail[j];
      }
      SortedAppend(head, tail, gt);
    }
  }

  /** `map` keeps a sorted sequence sorted for a comparator that reads through it. */
  lemma {:induction false} MapSorted<T, U>(s: seq<T>, f: T -> U, gt: (U, U) -> bool, gtThrough: (T, T) -> bool)
    requires forall a, b :: gtThrough(a, b) == gt(f(a), f(b))
    requires Sorted(s, gtThrough)
    ensures Sorted(Map(s, f), gt)
  {
  }

  /** A comparator that compares `f(a)` with `f(b)` by a consistent one is consistent. */
  lemma {:induction false} ThroughIsStrictWeakOrder<T(!new), U(!new)>(f: T -> U, gt: (U, U) -> bool, gtThrough: (T, T) -> bool)
    requires IsStrictWeakOrder(gt)
    requires forall a, b :: gtThrough(a, b) == gt(f(a), f(b))
    ensures IsStrictWeakOrder(gtThrough)
  {
  }
}
