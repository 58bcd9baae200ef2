/**
 * The Python dict that maps part titles to chapter ranges, as the sequence of its
 * items in insertion order (the order `dict.items()` iterates in).
 */
module PartDict {

  type Dict<V> = seq<(string, V)>

  predicate HasKey<V>(d: Dict<V>, k: string) {
    exists i :: 0 <= i < |d| && d[i].0 == k
  }

  predicate DistinctKeys<V>(d: Dict<V>) {
    forall i, j :: 0 <= i < j < |d| ==> d[i].0 != d[j].0
  }

  /**
   * `d[k] = v`: a key already present keeps its position and takes the new value,
   * a new key is appended.
   */
  function Put<V>(d: Dict<V>, k: string, v: V): (r: Dict<V>)
    requires DistinctKeys(d)
    ensures DistinctKeys(r)
    ensures HasKey(d, k) ==>
      |r| == |d| && forall i :: 0 <= i < |d| ==> r[i] == (if d[i].0 == k then (k, v) else d[i])
    ensures !HasKey(d, k) ==> r == d + [(k, v)]
  {
    if d == [] then [(k, v)]
    else if d[0].0 == k then
      PutAtHead(d, k, v);
      [(k, v)] + d[1..]
    else
      assert DistinctKeys(d[1..]) by {
        forall i, j | 0 <= i < j < |d| - 1 ensures d[1..][i].0 != d[1..][j].0 {
          assert d[1..][i] == d[i + 1] && d[1..][j] == d[j + 1];
        }
      }
      var rest := Put(d[1..], k, v);
      PutBehindHead(d, k, v, rest);
      [d[0]] + rest
  }

  /** What `d[k] = v` must give: the contract of Put, as one predicate its helper lemmas share. */
  ghost predicate Assigned<V>(d: Dict<V>, k: string, v: V, r: Dict<V>) {
    DistinctKeys(r) &&
    (HasKey(d, k) ==>
      |r| == |d| && forall i :: 0 <= i < |d| ==> r[i] == (if d[i].0 == k then (k, v) else d[i])) &&
    (!HasKey(d, k) ==> r == d + [(k, v)])
  }

  /** Put when the key is the first one: its item takes the new value. */
  lemma PutAtHead<V>(d: Dict<V>, k: string, v: V)
    requires DistinctKeys(d) && d != [] && d[0].0 == k
    ensures Assigned(d, k, v, [(k, v)] + d[1..])
  {
    var r := [(k, v)] + d[1..];
    assert HasKey(d, k);
    assert forall i :: 0 <= i < |d| ==> r[i].0 == d[i].0;
  }

  /** Put when the key is not the first one: the first item stays and the rest is updated. */
  lemma PutBehindHead<V>(d: Dict<V>, k: string, v: V, rest: Dict<V>)
    requires DistinctKeys(d) && d != [] && d[0].0 != k
    requires Assigned(d[1..], k, v, rest)
    ensures Assigned(d, k, v, [d[0]] + rest)
  {
    var t, r := d[1..], [d[0]] + rest;
    assert HasKey(d, k) <==> HasKey(t, k) by {
      if HasKey(d, k) {
        var i :| 0 <= i < |d| && d[i].0 == k;
        assert t[i - 1].0 == k;
      }
      if HasKey(t, k) {
        var i :| 0 <= i < |t| && t[i].0 == k;
        assert d[i + 1].0 == k;
      }
    }
    if HasKey(t, k) {
      forall i | 0 <= i < |d| ensures r[i] == (if d[i].0 == k then (k, v) else d[i]) {
        if i > 0 { assert r[i] == rest[i - 1] && t[i - 1] == d[i]; }
      }
      assert forall i :: 0 <= i < |d| ==> r[i].0 == d[i].0;
    } else {
      assert r == d + [(k, v)];
      forall i | 0 <= i < |d| ensures d[i].0 != k {
        if i > 0 { assert t[i - 1] == d[i]; }
      }
    }
  }

  /** The dict built by the assignments `d[k] = v` of `ev`, in order, starting from `{}`. */
  function Build<V>(ev: seq<(string, V)>): (r: Dict<V>)
    ensures DistinctKeys(r)
  {
    if ev == [] then [] else Put(Build(ev[..|ev| - 1]), ev[|ev| - 1].0, ev[|ev| - 1].1)
  }

  /** `d[k] = v` leaves the keys in place and adds `k` if it was missing. */
  lemma PutKeys<V>(d: Dict<V>, k: string, v: V)
    requires DistinctKeys(d)
    ensures forall i :: 0 <= i < |d| ==> Put(d, k, v)[i].0 == d[i].0
    ensures forall x :: HasKey(Put(d, k, v), x) <==> HasKey(d, x) || x == k
  {
    var r := Put(d, k, v);
    assert forall i :: 0 <= i < |d| ==> r[i].0 == d[i].0;
    forall x ensures HasKey(r, x) <==> HasKey(d, x) || x == k {
      PutKey(d, k, v, x);
    }
  }

  /** PutKeys for one key `x`. */
  lemma PutKey<V>(d: Dict<V>, k: string, v: V, x: string)
    requires DistinctKeys(d)
    ensures HasKey(Put(d, k, v), x) <==> HasKey(d, x) || x == k
  {
    var r := Put(d, k, v);
    if HasKey(d, k) {
      assert forall i :: 0 <= i < |d| ==> r[i].0 == d[i].0;
      SameKeys(d, r, x);
    } else {
      assert r[..|r| - 1] == d && r[|r| - 1].0 == k;
      HasKeySnoc(r, x);
    }
  }

  /** Items with the same keys in the same positions have the same keys. */
  lemma SameKeys<V>(d: Dict<V>, r: Dict<V>, x: string)
    requires |r| == |d| && forall i :: 0 <= i < |d| ==> r[i].0 == d[i].0
    ensures HasKey(r, x) <==> HasKey(d, x)
  {
    if HasKey(r, x) {
      var i :| 0 <= i < |r| && r[i].0 == x;
      assert d[i].0 == x;
    }
    if HasKey(d, x) {
      var i :| 0 <= i < |d| && d[i].0 == x;
      assert r[i].0 == x;
    }
  }

  /** A key occurs in a non-empty sequence of items when it occurs before the last one or in it. */
  lemma HasKeySnoc<V>(d: Dict<V>, k: string)
    requires d != []
    ensures HasKey(d, k) <==> HasKey(d[..|d| - 1], k) || d[|d| - 1].0 == k
  {
    var init := d[..|d| - 1];
    if HasKey(d, k) && d[|d| - 1].0 != k {
      var j :| 0 <= j < |d| && d[j].0 == k;
      assert init[j].0 == k;
    }
    if HasKey(init, k) {
      var j :| 0 <= j < |init| && init[j].0 == k;
      assert d[j].0 == k;
    }
  }

  /** A key is in the dict exactly when some assignment used it. */
  lemma {:induction false} BuildKeys<V>(ev: seq<(string, V)>, k: string)
    ensures HasKey(Build(ev), k) <==> exists j :: 0 <= j < |ev| && ev[j].0 == k
  {
    if ev != [] {
      var init, n := ev[..|ev| - 1], |ev| - 1;
      BuildKeys(init, k);
      PutKey(Build(init), ev[n].0, ev[n].1, k);
      HasKeySnoc(ev, k);
      assert HasKey(ev, k) <==> exists j :: 0 <= j < |ev| && ev[j].0 == k;
    }
  }

  /**
   * Each item of the dict is the LAST assignment made to its key: the value of a
   * repeated key is overwritten.
   */
  lemma {:induction false} BuildValueIsLast<V>(ev: seq<(string, V)>, p: nat)
    requires p < |Build(ev)|
    ensures exists j :: 0 <= j < |ev| && ev[j] == Build(ev)[p] &&
                        forall j' :: j < j' < |ev| ==> ev[j'].0 != ev[j].0
  {
    var init, n := ev[..|ev| - 1], |ev| - 1;
    var b := Build(init);
    var r := Build(ev);
    assert r == Put(b, ev[n].0, ev[n].1);
    if r[p].0 == ev[n].0 {
      assert r[p] == ev[n];
    } else {
      assert p < |b| && r[p] == b[p];
      BuildValueIsLast(init, p);
      var j :| 0 <= j < |init| && init[j] == b[p] &&
               forall j' :: j < j' < |init| ==> init[j'].0 != init[j].0;
      assert ev[j] == r[p];
      assert forall j' :: j < j' < |ev| ==> ev[j'].0 != ev[j].0 by {
        forall j' | j < j' < |ev| ensures ev[j'].0 != ev[j].0 {
          if j' < n { assert init[j'] == ev[j']; }
        }
      }
    }
  }

  /**
   * Keys keep the order of their first assignment: every assignment to a later key
   * is preceded by an assignment to each earlier key.
   */
  lemma {:induction false} BuildOrder<V>(ev: seq<(string, V)>, p: nat, q: nat, j: nat)
    requires p < q < |Build(ev)|
    requires j < |ev| && ev[j].0 == Build(ev)[q].0
    ensures exists i :: 0 <= i < j && ev[i].0 == Build(ev)[p].0
    decreases |ev|, 1
  {
    if q < |Build(ev[..|ev| - 1])| {
      BuildOrderOldKey(ev, p, q, j);
    } else {
      BuildOrderNewKey(ev, p, j);
    }
  }

  /** The case of BuildOrder where both keys were already present before the last assignment. */
  lemma {:induction false} BuildOrderOldKey<V>(ev: seq<(string, V)>, p: nat, q: nat, j: nat)
    requires ev != [] && p < q < |Build(ev[..|ev| - 1])|
    requires j < |ev| && ev[j].0 == Build(ev)[q].0
    ensures exists i :: 0 <= i < j && ev[i].0 == Build(ev)[p].0
    decreases |ev|, 0
  {
    var init, n := ev[..|ev| - 1], |ev| - 1;
    var b := Build(init);
    PutKeys(b, ev[n].0, ev[n].1);
    assert Build(ev)[q].0 == b[q].0 && Build(ev)[p].0 == b[p].0;
    var j0 := j;
    if j == n {
      BuildKeys(init, b[q].0);
      assert HasKey(b, b[q].0);
      j0 :| 0 <= j0 < |init| && init[j0].0 == b[q].0;
    } else {
      assert init[j].0 == b[q].0;
    }
    BuildOrder(init, p, q, j0);
    var i :| 0 <= i < j0 && init[i].0 == b[p].0;
    assert ev[i].0 == Build(ev)[p].0;
  }

  /** The case of BuildOrder where the later key is the one the last assignment added. */
  lemma BuildOrderNewKey<V>(ev: seq<(string, V)>, p: nat, j: nat)
    requires ev != [] && p < |Build(ev[..|ev| - 1])| < |Build(ev)|
    requires j < |ev| && ev[j].0 == Build(ev)[|Build(ev[..|ev| - 1])|].0
    ensures exists i :: 0 <= i < j && ev[i].0 == Build(ev)[p].0
  {
    var init, n := ev[..|ev| - 1], |ev| - 1;
    var b := Build(init);
    var k := ev[n].0;
    assert !HasKey(b, k) && Build(ev) == b + [(k, ev[n].1)];
    BuildKeys(init, b[p].0);
    assert HasKey(b, b[p].0);
    var i :| 0 <= i < |init| && init[i].0 == b[p].0;
    assert j == n by {
      if j < n {
        assert init[j].0 == k;
        BuildKeys(init, k);
      }
    }
    assert ev[i].0 == Build(ev)[p].0;
  }

  /** Assignments to pairwise different keys give exactly those items, in order. */
  lemma {:induction false} BuildOfDistinct<V>(ev: seq<(string, V)>)
    requires DistinctKeys(ev)
    ensures Build(ev) == ev
  {
    if ev != [] {
      var init, n := ev[..|ev| - 1], |ev| - 1;
      BuildOfDistinct(init);
      assert !HasKey(init, ev[n].0);
      assert init + [ev[n]] == ev;
    }
  }
}
