/**
 * A Python dict keyed by strings, as the mesh uses it for its node tables and
 * for forwarded headers: a sequence of (key, value) pairs in insertion order.
 * Assigning to a key that is present replaces its value where it stands;
 * assigning to a new key appends it.
 */
module Table {
  import opened Wrappers

  function Keys<R>(t: seq<(string, R)>): (ks: seq<string>)
    ensures |ks| == |t|
    ensures forall i :: 0 <= i < |t| ==> ks[i] == t[i].0
  {
    seq(|t|, i requires 0 <= i < |t| => t[i].0)
  }

  /** No key occurs twice: what every dict satisfies. */
  predicate Distinct(ks: seq<string>) {
    forall i, j :: 0 <= i < j < |ks| ==> ks[i] != ks[j]
  }

  /** `d.get(k)`: the value stored under the first occurrence of `k`, if any. */
  function Get<R>(t: seq<(string, R)>, k: string): Option<R> {
    if t == [] then None
    else if t[0].0 == k then Some(t[0].1)
    else Get(t[1..], k)
  }

  /** `d[k] = v`. */
  function Assign<R>(t: seq<(string, R)>, k: string, v: R): (r: seq<(string, R)>)
    ensures |r| == |t| || |r| == |t| + 1
    ensures |r| == |t| + 1 ==> r[|t|] == (k, v)
  {
    if t == [] then [(k, v)]
    else if t[0].0 == k then [(k, v)] + t[1..]
    else [t[0]] + Assign(t[1..], k, v)
  }

  /** A key is found exactly when it is one of the keys. */
  lemma {:induction false} GetFinds<R>(t: seq<(string, R)>, k: string)
    ensures Get(t, k).Some? <==> k in Keys(t)
  {
    if t != [] {
      GetFinds(t[1..], k);
      KeysCons(t);
    }
  }

  /** The keys of a non-empty dict are its first key followed by the keys of the rest. */
  lemma KeysCons<R>(t: seq<(string, R)>)
    requires t != []
    ensures Keys(t) == [t[0].0] + Keys(t[1..])
  {
  }

  /** After `d[k] = v` the key order gains `k` at the end only when `k` was new. */
  lemma {:induction false} AssignKeys<R>(t: seq<(string, R)>, k: string, v: R)
    ensures Keys(Assign(t, k, v)) == if k in Keys(t) then Keys(t) else Keys(t) + [k]
    decreases |t|
  {
    if t == [] {
      assert Keys(Assign(t, k, v)) == [k];
    } else if t[0].0 == k {
      var r := Assign(t, k, v);
      assert Keys(t)[0] == k;
      forall i | 0 <= i < |t|
        ensures Keys(r)[i] == Keys(t)[i]
      {
      }
    } else {
      AssignKeys(t[1..], k, v);
      var rest := Assign(t[1..], k, v);
      var r := [t[0]] + rest;
      assert r[1..] == rest;
      KeysCons(r);
      KeysCons(t);
      assert k in Keys(t) <==> k in Keys(t[1..]);
      if k !in Keys(t) {
        assert [t[0].0] + (Keys(t[1..]) + [k]) == Keys(t) + [k];
      }
    }
  }

  /** After `d[k] = v` the key holds `v` and every other key keeps its value. */
  lemma {:induction false} AssignGet<R>(t: seq<(string, R)>, k: string, v: R, x: string)
    ensures Get(Assign(t, k, v), x) == if x == k then Some(v) else Get(t, x)
    decreases |t|
  {
    if t != [] && t[0].0 != k {
      AssignGet(t[1..], k, v, x);
      var r := [t[0]] + Assign(t[1..], k, v);
      assert r[1..] == Assign(t[1..], k, v);
    }
  }

  /**
   * After `d[k] = v` the key holds `v`, every other key keeps its value, and
   * the key order gains `k` at the end only when `k` was new.
   */
  lemma AssignSpec<R>(t: seq<(string, R)>, k: string, v: R)
    ensures Keys(Assign(t, k, v)) == if k in Keys(t) then Keys(t) else Keys(t) + [k]
    ensures Get(Assign(t, k, v), k) == Some(v)
    ensures forall k' :: k' != k ==> Get(Assign(t, k, v), k') == Get(t, k')
  {
    AssignKeys(t, k, v);
    AssignGet(t, k, v, k);
    forall k' | k' != k
      ensures Get(Assign(t, k, v), k') == Get(t, k')
    {
      AssignGet(t, k, v, k');
    }
  }

  /** Appending a new key to distinct keys keeps them distinct. */
  lemma DistinctSnoc(ks: seq<string>, k: string)
    requires Distinct(ks) && k !in ks
    ensures Distinct(ks + [k])
  {
    var all := ks + [k];
    forall i, j | 0 <= i < j < |all|
      ensures all[i] != all[j]
    {
      assert all[i] == ks[i];
      if j < |ks| {
        assert all[j] == ks[j];
      }
    }
  }

  /** Putting a new key in front of distinct keys keeps them distinct. */
  lemma DistinctCons(k: string, ks: seq<string>)
    requires Distinct(ks) && k !in ks
    ensures Distinct([k] + ks)
  {
    var all := [k] + ks;
    forall i, j | 0 <= i < j < |all|
      ensures all[i] != all[j]
    {
      assert all[j] == ks[j - 1];
      if i > 0 {
        assert all[i] == ks[i - 1];
      }
    }
  }

  /** Assignment keeps the keys of a dict distinct. */
  lemma AssignKeepsDistinct<R>(t: seq<(string, R)>, k: string, v: R)
    requires Distinct(Keys(t))
    ensures Distinct(Keys(Assign(t, k, v)))
  {
    AssignSpec(t, k, v);
    if k !in Keys(t) {
      DistinctSnoc(Keys(t), k);
    }
  }

  /** Assigning the pairs `ps` one after the other, as a loop or a dict comprehension does. */
  function AssignAll<R>(t: seq<(string, R)>, ps: seq<(string, R)>): seq<(string, R)>
    decreases |ps|
  {
    if ps == [] then t
    else Assign(AssignAll(t, ps[..|ps| - 1]), ps[|ps| - 1].0, ps[|ps| - 1].1)
  }

  /** The value of the last pair of `ps` whose key is `k`. */
  function LastValue<R>(ps: seq<(string, R)>, k: string): Option<R>
    decreases |ps|
  {
    if ps == [] then None
    else if ps[|ps| - 1].0 == k then Some(ps[|ps| - 1].1)
    else LastValue(ps[..|ps| - 1], k)
  }

  /** The last value of `k` after one more pair is that pair's value if it has key `k`, and the earlier last value otherwise. */
  lemma LastValueSnoc<R>(ps: seq<(string, R)>, p: (string, R), k: string)
    ensures LastValue(ps + [p], k) == if p.0 == k then Some(p.1) else LastValue(ps, k)
  {
    assert (ps + [p])[..|ps|] == ps;
  }

  /** After a run of assignments a key holds the last value assigned to it, or its old value if none was. */
  lemma {:induction false} AssignAllGet<R>(t: seq<(string, R)>, ps: seq<(string, R)>, k: string)
    ensures Get(AssignAll(t, ps), k) == if LastValue(ps, k).Some? then LastValue(ps, k) else Get(t, k)
    decreases |ps|
  {
    if ps != [] {
      var n := |ps| - 1;
      AssignAllGet(t, ps[..n], k);
      AssignSpec(AssignAll(t, ps[..n]), ps[n].0, ps[n].1);
    }
  }

  /** A run of assignments keeps the keys of a dict distinct. */
  lemma {:induction false} AssignAllKeepsDistinct<R>(t: seq<(string, R)>, ps: seq<(string, R)>)
    requires Distinct(Keys(t))
    ensures Distinct(Keys(AssignAll(t, ps)))
    decreases |ps|
  {
    if ps != [] {
      var n := |ps| - 1;
      AssignAllKeepsDistinct(t, ps[..n]);
      AssignKeepsDistinct(AssignAll(t, ps[..n]), ps[n].0, ps[n].1);
    }
  }

  /** A run of assignments adds exactly the keys it assigns. */
  lemma {:induction false} AssignAllKeys<R>(t: seq<(string, R)>, ps: seq<(string, R)>, k: string)
    ensures k in Keys(AssignAll(t, ps)) <==> k in Keys(t) || k in Keys(ps)
    decreases |ps|
  {
    if ps != [] {
      var n := |ps| - 1;
      var mid := AssignAll(t, ps[..n]);
      AssignAllKeys(t, ps[..n], k);
      AssignHasKey(mid, ps[n].0, ps[n].1, k);
      KeysOfSnoc(ps, k);
    }
  }

  /** After `d[k] = v` the keys are the old keys and `k`. */
  lemma AssignHasKey<R>(t: seq<(string, R)>, k: string, v: R, x: string)
    ensures x in Keys(Assign(t, k, v)) <==> x in Keys(t) || x == k
  {
    AssignSpec(t, k, v);
    if k !in Keys(t) {
      var ks := Keys(t);
      assert x in ks + [k] <==> x in ks || x == k;
    }
  }

  /** A key of pairs is a key of all but the last pair, or the last pair's key. */
  lemma KeysOfSnoc<R>(ps: seq<(string, R)>, x: string)
    requires ps != []
    ensures x in Keys(ps) <==> x in Keys(ps[..|ps| - 1]) || x == ps[|ps| - 1].0
  {
    var n := |ps| - 1;
    var ks, pre := Keys(ps), Keys(ps[..n]);
    KeysPrefix(ps, n);
    assert ks[n] == ps[n].0;
    if x in ks {
      var i :| 0 <= i < |ks| && ks[i] == x;
      if i < n {
        assert pre[i] == x;
      }
    }
    if x in pre {
      var i :| 0 <= i < n && pre[i] == x;
      assert ks[i] == x;
    }
  }

  /** The keys of a prefix are the prefix of the keys. */
  lemma KeysPrefix<R>(t: seq<(string, R)>, n: int)
    requires 0 <= n <= |t|
    ensures Keys(t[..n]) == Keys(t)[..n]
  {
    var a, b := Keys(t[..n]), Keys(t)[..n];
    assert |a| == |b|;
    forall i | 0 <= i < n
      ensures a[i] == b[i]
    {
      assert a[i] == t[..n][i].0 == t[i].0;
    }
  }

  /** With distinct keys the last pair with a key is the only one. */
  lemma {:induction false} LastValueOfDistinct<R>(ps: seq<(string, R)>, i: int)
    requires Distinct(Keys(ps)) && 0 <= i < |ps|
    ensures LastValue(ps, ps[i].0) == Some(ps[i].1)
    decreases |ps|
  {
    var n := |ps| - 1;
    if i < n {
      assert Keys(ps)[i] != Keys(ps)[n];
      KeysPrefix(ps, n);
      LastValueOfDistinct(ps[..n], i);
    }
  }

  /** Assigning a key that is absent appends it. */
  lemma {:induction false} AssignAbsent<R>(t: seq<(string, R)>, k: string, v: R)
    requires k !in Keys(t)
    ensures Assign(t, k, v) == t + [(k, v)]
    decreases |t|
  {
    if t != [] {
      KeysCons(t);
      assert t[0].0 != k;
      AssignAbsent(t[1..], k, v);
      calc {
        Assign(t, k, v);
        [t[0]] + Assign(t[1..], k, v);
        [t[0]] + (t[1..] + [(k, v)]);
        { assert [t[0]] + t[1..] == t; }
        t + [(k, v)];
      }
    }
  }

  /** Building a dict from pairs with distinct keys keeps every pair, in order. */
  lemma {:induction false} AssignAllDistinct<R>(ps: seq<(string, R)>)
    requires Distinct(Keys(ps))
    ensures AssignAll([], ps) == ps
    decreases |ps|
  {
    if ps != [] {
      var n := |ps| - 1;
      var ks := Keys(ps);
      KeysPrefix(ps, n);
      assert Distinct(ks[..n]);
      AssignAllDistinct(ps[..n]);
      assert ps[n].0 !in ks[..n] by {
        forall j | 0 <= j < n
          ensures ks[..n][j] != ps[n].0
        {
          assert ks[j] != ks[n];
        }
      }
      AssignAbsent(ps[..n], ps[n].0, ps[n].1);
      assert ps[..n] + [ps[n]] == ps;
    }
  }
}
