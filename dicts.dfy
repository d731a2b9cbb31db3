/**
 * Python's `dict` with string keys, as the client uses it: an
 * insertion-ordered sequence of (key, value) pairs. Assigning to a present
 * key replaces its value in place; a new key goes to the end. The order
 * matters to the client: it decides what a cookie file lists first and which
 * cookie value a lookup reports.
 */
module Dicts {
  import opened Wrappers

  type Dict<V> = seq<(string, V)>

  function Keys<V>(d: Dict<V>): (ks: seq<string>)
    ensures |ks| == |d| && forall i :: 0 <= i < |d| ==> ks[i] == d[i].0
  {
    seq(|d|, i requires 0 <= i < |d| => d[i].0)
  }

  /** What makes a sequence of pairs a dict: no key twice. */
  predicate UniqueKeys<V>(d: Dict<V>) {
    forall i, j :: 0 <= i < j < |d| ==> d[i].0 != d[j].0
  }

  function IndexOf<V>(d: Dict<V>, k: string): (i: nat)
    ensures i <= |d|
    ensures i < |d| ==> d[i].0 == k
    ensures forall j :: 0 <= j < i ==> d[j].0 != k
  {
    if d == [] then 0 else if d[0].0 == k then 0 else 1 + IndexOf(d[1..], k)
  }

  /** `d.get(k)` */
  function Get<V>(d: Dict<V>, k: string): (r: Option<V>)
    ensures r.None? <==> k !in Keys(d)
  {
    var i := IndexOf(d, k);
    if i < |d| then Some(d[i].1) else None
  }

  /** In a dict, the value of the pair at position `i` is the value of its key. */
  lemma GetAt<V>(d: Dict<V>, i: nat)
    requires UniqueKeys(d) && i < |d|
    ensures Get(d, d[i].0) == Some(d[i].1)
  {
    var j := IndexOf(d, d[i].0);
    assert j == i;
  }

  lemma SameKeysIndexOf<V>(d: Dict<V>, e: Dict<V>, k: string)
    requires |d| == |e| && forall t :: 0 <= t < |d| ==> d[t].0 == e[t].0
    ensures IndexOf(d, k) == IndexOf(e, k)
  {
  }

  lemma AppendIndexOf<V>(d: Dict<V>, k: string, v: V, k': string)
    ensures IndexOf(d + [(k, v)], k') == if IndexOf(d, k') < |d| || k' == k then IndexOf(d, k') else |d| + 1
  {
    var e := d + [(k, v)];
    assert forall t :: 0 <= t < |d| ==> e[t] == d[t];
    var i := IndexOf(d, k');
    if i < |d| {
      assert e[i].0 == k';
    } else if k' == k {
      assert e[|d|].0 == k';
    }
  }

  /** What `d[k] = v` promises of the dict `r` it leaves. */
  ghost predicate Assigned<V>(d: Dict<V>, k: string, v: V, r: Dict<V>) {
    && Get(r, k) == Some(v)
    && (forall k' :: k' != k ==> Get(r, k') == Get(d, k'))
    && Keys(r) == (if k in Keys(d) then Keys(d) else Keys(d) + [k])
    && (UniqueKeys(d) ==> UniqueKeys(r))
    && |r| >= |d| && r != []
  }

  /** `d[k] = v`: `k` now maps to `v`, no other key changes, and the keys keep their order. */
  function Put<V>(d: Dict<V>, k: string, v: V): (r: Dict<V>)
    ensures Get(r, k) == Some(v)
    ensures forall k' :: k' != k ==> Get(r, k') == Get(d, k')
    ensures Keys(r) == if k in Keys(d) then Keys(d) else Keys(d) + [k]
    ensures UniqueKeys(d) ==> UniqueKeys(r)
    ensures |r| >= |d| && r != []
  {
    var i := IndexOf(d, k);
    if i < |d| then
      PutReplace(d, k, v);
      d[i := (k, v)]
    else
      PutAppend(d, k, v);
      d + [(k, v)]
  }

  /** Where `d[k] = v` puts the pair, and that every other pair stays where it was. */
  lemma PutShape<V>(d: Dict<V>, k: string, v: V)
    ensures |Put(d, k, v)| == if IndexOf(d, k) < |d| then |d| else |d| + 1
    ensures IndexOf(d, k) < |Put(d, k, v)| && Put(d, k, v)[IndexOf(d, k)] == (k, v)
    ensures forall t :: 0 <= t < |d| && t != IndexOf(d, k) ==> Put(d, k, v)[t] == d[t]
  {
  }

  /** `d[k] = v` leaves `k` at the place it had, or puts it at the end. */
  lemma PutIndexOf<V>(d: Dict<V>, k: string, v: V)
    ensures IndexOf(Put(d, k, v), k) == IndexOf(d, k)
  {
    var r := Put(d, k, v);
    var i := IndexOf(d, k);
    PutShape(d, k, v);
    assert forall t :: 0 <= t < i ==> r[t].0 == d[t].0 != k;
    IndexOfFirst(r, k, i);
  }

  /** The first place holding `k` is its index. */
  lemma {:induction false} IndexOfFirst<V>(d: Dict<V>, k: string, i: nat)
    requires i < |d| && d[i].0 == k && forall t :: 0 <= t < i ==> d[t].0 != k
    ensures IndexOf(d, k) == i
  {
    if i > 0 {
      IndexOfFirst(d[1..], k, i - 1);
    }
  }

  /** A present key is assigned in its place. */
  lemma PutReplace<V>(d: Dict<V>, k: string, v: V)
    requires IndexOf(d, k) < |d|
    ensures Assigned(d, k, v, d[IndexOf(d, k) := (k, v)])
  {
    var i := IndexOf(d, k);
    var r := d[i := (k, v)];
    assert forall t :: 0 <= t < |d| ==> r[t].0 == d[t].0;
    forall k' ensures IndexOf(r, k') == IndexOf(d, k') {
      SameKeysIndexOf(r, d, k');
    }
    assert Get(r, k) == Some(v);
    forall k' | k' != k ensures Get(r, k') == Get(d, k') {
      var j := IndexOf(d, k');
      assert j < |d| ==> j != i;
    }
    assert k in Keys(d);
    SameKeys(r, d);
  }

  /** Two dicts with the same key at every place have the same keys, and one is a dict if the other is. */
  lemma SameKeys<V>(d: Dict<V>, e: Dict<V>)
    requires |d| == |e| && forall t :: 0 <= t < |d| ==> d[t].0 == e[t].0
    ensures Keys(d) == Keys(e)
    ensures UniqueKeys(e) ==> UniqueKeys(d)
  {
  }

  /** A new key goes to the end. */
  lemma PutAppend<V>(d: Dict<V>, k: string, v: V)
    requires IndexOf(d, k) == |d|
    ensures Assigned(d, k, v, d + [(k, v)])
  {
    AppendGets(d, k, v);
    AppendKeys(d, k, v);
  }

  /** Appending a new key: it holds its value and every other key keeps its own. */
  lemma AppendGets<V>(d: Dict<V>, k: string, v: V)
    requires IndexOf(d, k) == |d|
    ensures Get(d + [(k, v)], k) == Some(v)
    ensures forall k' :: k' != k ==> Get(d + [(k, v)], k') == Get(d, k')
  {
    var r := d + [(k, v)];
    forall k' ensures IndexOf(r, k') == if IndexOf(d, k') < |d| || k' == k then IndexOf(d, k') else |d| + 1 {
      AppendIndexOf(d, k, v, k');
    }
  }

  /** Appending a new key puts it last among the keys and keeps them unique. */
  lemma AppendKeys<V>(d: Dict<V>, k: string, v: V)
    requires IndexOf(d, k) == |d|
    ensures k !in Keys(d) && Keys(d + [(k, v)]) == Keys(d) + [k]
    ensures UniqueKeys(d) ==> UniqueKeys(d + [(k, v)])
  {
    assert Keys(d + [(k, v)]) == Keys(d) + [k];
  }

  /** A dict is its last pair assigned into the rest of it. */
  lemma PutLast<V>(d: Dict<V>)
    requires UniqueKeys(d) && d != []
    ensures d == Put(d[..|d| - 1], d[|d| - 1].0, d[|d| - 1].1)
  {
    var n := |d| - 1;
    assert d[n].0 !in Keys(d[..n]);
    assert d == d[..n] + [d[n]];
  }

  /** Assigning a key twice leaves the second value, in the place the first assignment gave the key. */
  lemma PutPut<V>(d: Dict<V>, k: string, a: V, b: V)
    ensures Put(Put(d, k, a), k, b) == Put(d, k, b)
  {
    var i := IndexOf(d, k);
    var e := Put(d, k, a);
    if i < |d| {
      assert e == d[i := (k, a)];
      assert IndexOf(e, k) == i by {
        SameKeysIndexOf(e, d, k);
      }
    } else {
      assert e == d + [(k, a)];
      assert IndexOf(e, k) == |d| by {
        AppendIndexOf(d, k, a, k);
      }
      assert e[|d| := (k, b)] == d + [(k, b)];
    }
  }

  /** `d.update(other)` */
  function Update<V>(d: Dict<V>, other: Dict<V>): (r: Dict<V>)
    ensures UniqueKeys(d) ==> UniqueKeys(r)
    ensures |r| >= |d| && (other != [] ==> r != [])
    decreases |other|
  {
    if other == [] then d
    else
      var n := |other| - 1;
      Put(Update(d, other[..n]), other[n].0, other[n].1)
  }

  /** After `d.update(other)`, a key of `other` has its value from `other` and every other key keeps its value from `d`. */
  lemma {:induction false} UpdateGet<V>(d: Dict<V>, other: Dict<V>, k: string)
    requires UniqueKeys(other)
    ensures Get(Update(d, other), k) == if k in Keys(other) then Get(other, k) else Get(d, k)
    decreases |other|
  {
    if other != [] {
      var n := |other| - 1;
      var o := other[..n];
      assert UniqueKeys(o);
      UpdateGet(d, o, k);
      PutLast(other);
    }
  }
}
