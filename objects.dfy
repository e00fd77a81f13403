/** JavaScript objects used as dictionaries (`obj[key] = value`, `obj[key]`), as
    association lists in the order their keys were first assigned. */
module Objects {
  import opened Values
  import opened ArrayOps
  import opened Strings

  /** The property key a sheet value names: its text, the decimal digits of a number,
      or "undefined". */
  function KeyOf(c: Cell): string
  {
    match c
    case Text(s) => s
    case Num(n) => IntToString(n)
    case Undef => "undefined"
  }

  function Keys<K, V>(t: seq<(K, V)>): seq<K>
  {
    Map(t, (e: (K, V)) => e.0)
  }

  /** No key is listed twice, as in an object. */
  ghost predicate DistinctKeys<K, V>(t: seq<(K, V)>)
  {
    forall i, j :: 0 <= i < j < |t| ==> t[i].0 != t[j].0
  }

  /** `obj[key]`: the value under `key`, or `undefined`. */
  function Get<K(==), V>(t: seq<(K, V)>, key: K): (r: Option<V>)
    ensures r.None? <==> forall k :: 0 <= k < |t| ==> t[k].0 != key
  {
    if t == [] then None
    else if t[0].0 == key then Some(t[0].1)
    else Get(t[1..], key)
  }

  /** `obj[key] = value`: a present key keeps its place and takes the new value, a new
      key goes last. */
  function Assign<K(==), V>(t: seq<(K, V)>, key: K, value: V): seq<(K, V)>
  {
    if t == [] then [(key, value)]
    else if t[0].0 == key then [(key, value)] + t[1..]
    else [t[0]] + Assign(t[1..], key, value)
  }

  /** Reading after an assignment gives the assigned value under its key and the old
      value under every other key. */
  lemma {:induction false} GetAssign<K, V>(t: seq<(K, V)>, key: K, value: V, other: K)
    ensures Get(Assign(t, key, value), other) == if other == key then Some(value) else Get(t, other)
  {
    if t != [] && t[0].0 != key {
      GetAssign(t[1..], key, value, other);
    }
  }

  /** An assignment keeps the existing keys in place and adds `key` last when it is new. */
  lemma {:induction false} AssignKeys<K, V>(t: seq<(K, V)>, key: K, value: V)
    ensures Keys(Assign(t, key, value)) == if key in Keys(t) then Keys(t) else Keys(t) + [key]
  {
    if t != [] {
      assert Keys(t) == [t[0].0] + Keys(t[1..]);
      if t[0].0 != key {
        AssignKeys(t[1..], key, value);
        assert Keys(Assign(t, key, value)) == [t[0].0] + Keys(Assign(t[1..], key, value));
      } else {
        assert Keys(Assign(t, key, value)) == [key] + Keys(t[1..]);
      }
    }
  }

  /** `r` is `t` after `key` took `value`: it holds that entry, every other entry of `r`
      is an entry of `t`, and every entry of `t` under another key is kept. */
  ghost predicate AssignedFrom<K, V>(r: seq<(K, V)>, t: seq<(K, V)>, key: K, value: V)
  {
    && (key, value) in r
    && (forall k :: 0 <= k < |r| && r[k].0 != key ==> r[k] in t)
    && (forall k :: 0 <= k < |t| && t[k].0 != key ==> t[k] in r)
  }

  /** The assignment keeps the keys distinct. */
  lemma AssignDistinct<K, V>(t: seq<(K, V)>, key: K, value: V)
    requires DistinctKeys(t)
    ensures DistinctKeys(Assign(t, key, value))
  {
    var r := Assign(t, key, value);
    AssignKeys(t, key, value);
    assert |Keys(r)| == |r| && |Keys(t)| == |t|;
    forall i, j | 0 <= i < j < |r| ensures r[i].0 != r[j].0 {
      assert Keys(r)[i] == r[i].0 && Keys(r)[j] == r[j].0;
      assert Keys(t)[i] == t[i].0;
      if j < |t| {
        assert Keys(t)[j] == t[j].0;
      }
    }
  }

  /** The assignment changes only the entry under `key`. */
  lemma {:induction false} AssignKept<K, V>(t: seq<(K, V)>, key: K, value: V)
    ensures AssignedFrom(Assign(t, key, value), t, key, value)
  {
    var r := Assign(t, key, value);
    if t == [] {
      assert r[0] == (key, value);
    } else if t[0].0 == key {
      assert r[0] == (key, value);
      forall k | 0 <= k < |r| && r[k].0 != key ensures r[k] in t {
        assert r[k] == t[k];
      }
      forall k | 0 <= k < |t| && t[k].0 != key ensures t[k] in r {
        assert t[k] == r[k];
      }
    } else {
      var rest := Assign(t[1..], key, value);
      AssignKept(t[1..], key, value);
      assert r == [t[0]] + rest;
      var w :| 0 <= w < |rest| && rest[w] == (key, value);
      assert r[w + 1] == (key, value);
      forall k | 0 <= k < |r| && r[k].0 != key ensures r[k] in t {
        if k > 0 {
          assert r[k] == rest[k - 1];
          var j :| 0 <= j < |t[1..]| && t[1..][j] == rest[k - 1];
          assert t[j + 1] == r[k];
        } else {
          assert r[0] == t[0];
        }
      }
      forall k | 0 <= k < |t| && t[k].0 != key ensures t[k] in r {
        if k > 0 {
          assert t[k] == t[1..][k - 1];
          var j :| 0 <= j < |rest| && rest[j] == t[k];
          assert r[j + 1] == t[k];
        } else {
          assert r[0] == t[0];
        }
      }
    }
  }

  /** `entries.forEach((e) => { obj[e.key] = e.value; })` on an empty object. */
  function AssignAll<K(==), V>(entries: seq<(K, V)>): seq<(K, V)>
  {
    if entries == [] then []
    else Assign(AssignAll(entries[..|entries| - 1]), entries[|entries| - 1].0, entries[|entries| - 1].1)
  }

  /** The value of the last entry under `key`, if any: a reference for reading the
      object that `AssignAll` builds. */
  function LastValue<K(==), V>(entries: seq<(K, V)>, key: K): Option<V>
  {
    if entries == [] then None
    else if entries[|entries| - 1].0 == key then Some(entries[|entries| - 1].1)
    else LastValue(entries[..|entries| - 1], key)
  }

  /** `LastValue` is undefined exactly when no entry has the key, and is otherwise the
      value of an entry with the key that no later entry shares. */
  lemma {:induction false} LastValueIsLast<K, V>(entries: seq<(K, V)>, key: K)
    ensures LastValue(entries, key).None? <==> forall i :: 0 <= i < |entries| ==> entries[i].0 != key
    ensures LastValue(entries, key).Some? ==>
              exists i :: && 0 <= i < |entries| && entries[i] == (key, LastValue(entries, key).value)
                          && forall j :: i < j < |entries| ==> entries[j].0 != key
  {
    if entries != [] {
      var n := |entries| - 1;
      var init := entries[..n];
      if entries[n].0 == key {
        assert entries[n] == (key, LastValue(entries, key).value);
      } else {
        LastValueIsLast(init, key);
        assert LastValue(entries, key) == LastValue(init, key);
        assert forall i :: 0 <= i < n ==> init[i] == entries[i];
        if LastValue(init, key).Some? {
          var i :| && 0 <= i < |init| && init[i] == (key, LastValue(init, key).value)
                   && forall j :: i < j < |init| ==> init[j].0 != key;
          assert entries[i] == (key, LastValue(entries, key).value);
          assert forall j :: i < j < |entries| ==> entries[j].0 != key;
        }
      }
    }
  }

  /** The built object has each key once, and under each key the value of the last
      entry with that key; a key no entry has is absent. */
  lemma {:induction false} AssignAllLastWins<K, V>(entries: seq<(K, V)>, key: K)
    ensures Get(AssignAll(entries), key) == LastValue(entries, key)
  {
    if entries != [] {
      var n := |entries| - 1;
      AssignAllLastWins(entries[..n], key);
      GetAssign(AssignAll(entries[..n]), entries[n].0, entries[n].1, key);
    }
  }

  lemma {:induction false} AssignAllDistinct<K, V>(entries: seq<(K, V)>)
    ensures DistinctKeys(AssignAll(entries))
  {
    if entries != [] {
      var n := |entries| - 1;
      AssignAllDistinct(entries[..n]);
      AssignDistinct(AssignAll(entries[..n]), entries[n].0, entries[n].1);
    }
  }
}
