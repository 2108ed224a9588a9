/** A plain JavaScript object used as a dictionary, as `for...in` sees it:
    its own string-named properties in insertion order, each with its value.
    The configuration's `getters`, `mutations`, `actions` and `modules`
    objects and a module node's `_children` object are all of this kind. */
module Entries {
  import opened Common

  type Key = string

  /** The property names, in iteration order. */
  function Keys<V>(d: seq<(Key, V)>): (ks: seq<Key>)
    ensures |ks| == |d|
    ensures forall i :: 0 <= i < |d| ==> ks[i] == d[i].0
  {
    if d == [] then [] else [d[0].0] + Keys(d[1..])
  }

  /** No property name occurs twice, as in every JavaScript object. */
  predicate Distinct(ks: seq<Key>)
  {
    forall i, j :: 0 <= i < j < |ks| ==> ks[i] != ks[j]
  }

  /** Reading `d[k]`: the value of the property named `k`, `None` for `undefined`. */
  function Get<V>(d: seq<(Key, V)>, k: Key): (r: Option<V>)
    ensures r.None? <==> k !in Keys(d)
    ensures r.Some? ==> (k, r.value) in d
  {
    if d == [] then None
    else if d[0].0 == k then Some(d[0].1)
    else Get(d[1..], k)
  }

  /** Assigning `d[k] = v`: an existing property keeps its place and takes the
      new value; a new property is added last. */
  function Put<V>(d: seq<(Key, V)>, k: Key, v: V): seq<(Key, V)>
  {
    if d == [] then [(k, v)]
    else if d[0].0 == k then [(k, v)] + d[1..]
    else [d[0]] + Put(d[1..], k, v)
  }

  /** After `d[k] = v`, reading `d[k]` yields `v`. */
  lemma {:induction false} PutGet<V>(d: seq<(Key, V)>, k: Key, v: V)
    ensures Get(Put(d, k, v), k) == Some(v)
  {
    if d != [] && d[0].0 != k {
      PutGet(d[1..], k, v);
      assert Put(d, k, v)[1..] == Put(d[1..], k, v);
    }
  }

  /** Assigning an existing property keeps the key order; a new one comes last. */
  lemma {:induction false} PutKeys<V>(d: seq<(Key, V)>, k: Key, v: V)
    ensures Keys(Put(d, k, v)) == if k in Keys(d) then Keys(d) else Keys(d) + [k]
  {
    if d == [] {
    } else if d[0].0 == k {
      assert Put(d, k, v)[1..] == d[1..];
    } else {
      PutKeys(d[1..], k, v);
      assert Put(d, k, v)[1..] == Put(d[1..], k, v);
      assert Keys(d) == [d[0].0] + Keys(d[1..]);
    }
  }

  /** Assigning one property leaves every other property as it was. */
  lemma {:induction false} PutOther<V>(d: seq<(Key, V)>, k: Key, v: V, k': Key)
    requires k' != k
    ensures Get(Put(d, k, v), k') == Get(d, k')
  {
    if d != [] && d[0].0 != k {
      PutOther(d[1..], k, v, k');
      assert Put(d, k, v)[1..] == Put(d[1..], k, v);
    } else if d != [] {
      assert Put(d, k, v)[1..] == d[1..];
    }
  }

  /** Every entry after an assignment is the new one or was there before. */
  lemma {:induction false} PutEntries<V>(d: seq<(Key, V)>, k: Key, v: V, e: (Key, V))
    requires e in Put(d, k, v)
    ensures e == (k, v) || e in d
  {
    if d != [] && d[0].0 != k && e != d[0] {
      assert Put(d, k, v)[1..] == Put(d[1..], k, v);
      PutEntries(d[1..], k, v, e);
    }
  }

  /** Assigning a property that does not exist yet adds it last. */
  lemma {:induction false} PutNew<V>(d: seq<(Key, V)>, k: Key, v: V)
    requires k !in Keys(d)
    ensures Put(d, k, v) == d + [(k, v)]
  {
    if d != [] {
      assert Keys(d) == [d[0].0] + Keys(d[1..]);
      PutNew(d[1..], k, v);
      assert d == [d[0]] + d[1..];
    }
  }

  lemma PrefixSnoc<T>(s: seq<T>, i: nat)
    requires 0 < i <= |s|
    ensures s[..i] == s[..i - 1] + [s[i - 1]]
  {
  }

  lemma DropFirst<T>(s: seq<T>, i: nat)
    requires i < |s|
    ensures s[i..][0] == s[i] && s[i..][1..] == s[i + 1..]
  {
  }

  /** All but the last segment of a path: `path.slice(0, -1)`. */
  function ButLast(path: seq<Key>): (r: seq<Key>)
    requires path != []
    ensures r + [path[|path| - 1]] == path
  {
    path[..|path| - 1]
  }

  /** A second assignment to the same property overrides the first. */
  lemma {:induction false} PutTwice<V>(d: seq<(Key, V)>, k: Key, v: V, w: V)
    ensures Put(Put(d, k, v), k, w) == Put(d, k, w)
  {
    if d != [] && d[0].0 != k {
      PutTwice(d[1..], k, v, w);
    }
  }

  lemma {:induction false} GetAppend<V>(d: seq<(Key, V)>, k: Key, v: V, k': Key)
    ensures Get(d + [(k, v)], k') == if k' in Keys(d) then Get(d, k') else if k' == k then Some(v) else None
  {
    if d != [] {
      assert (d + [(k, v)])[1..] == d[1..] + [(k, v)];
      GetAppend(d[1..], k, v, k');
    }
  }

  lemma {:induction false} PutKeepsDistinct<V>(d: seq<(Key, V)>, k: Key, v: V)
    requires Distinct(Keys(d))
    ensures Distinct(Keys(Put(d, k, v)))
  {
    var ks := Keys(d);
    PutKeys(d, k, v);
    if k !in ks {
      assert Keys(Put(d, k, v)) == ks + [k];
      forall i, j | 0 <= i < j < |ks| + 1
        ensures (ks + [k])[i] != (ks + [k])[j]
      {
        if j == |ks| {
          assert (ks + [k])[i] == ks[i];
        }
      }
    }
  }

  lemma DistinctCons(k: Key, ks: seq<Key>)
    ensures Distinct([k] + ks) <==> k !in ks && Distinct(ks)
  {
    var all := [k] + ks;
    if k in ks {
      var j :| 0 <= j < |ks| && ks[j] == k;
      assert all[0] == all[j + 1];
    }
    if Distinct(all) {
      forall i, j | 0 <= i < j < |ks|
        ensures ks[i] != ks[j]
      {
        assert ks[i] == all[i + 1] && ks[j] == all[j + 1];
      }
    }
  }

  /** Reading a property whose name occurs once yields the entry's own value. */
  lemma {:induction false} GetDistinct<V>(d: seq<(Key, V)>, i: nat)
    requires Distinct(Keys(d)) && i < |d|
    ensures Get(d, d[i].0) == Some(d[i].1)
  {
    if i > 0 {
      assert Keys(d[1..])[i - 1] == Keys(d)[i];
      assert Keys(d)[0] != Keys(d)[i];
      GetDistinct(d[1..], i - 1);
    }
  }
}
