/** Parameter records: the `Record<string, string | undefined>` objects the
    utility builds, as entries in insertion order. */
module ParameterRecord {
  import opened Wrappers

  type Key = string

  /** A parameter's value; None is JavaScript's `undefined`, a key written
      without `=`, and is distinct from `Some("")`. */
  type Value = Option<string>

  type Entry = (Key, Value)

  /** An object's entries in the order `Object.entries` lists them. */
  type Record = seq<Entry>

  function Keys(r: Record): seq<Key>
  {
    seq(|r|, i requires 0 <= i < |r| => r[i].0)
  }

  predicate NoDuplicates(ks: seq<Key>)
  {
    forall i, j :: 0 <= i < j < |ks| ==> ks[i] != ks[j]
  }

  /** Each key occurs once, as in every JavaScript object. */
  predicate UniqueKeys(r: Record)
  {
    NoDuplicates(Keys(r))
  }

  lemma KeysPrefix(r: Record, m: nat)
    requires m <= |r|
    ensures Keys(r[..m]) == Keys(r)[..m]
  {
  }

  lemma KeysLast(r: Record)
    requires r != []
    ensures Keys(r) == Keys(r[..|r| - 1]) + [r[|r| - 1].0]
  {
    var m := |r| - 1;
    assert r == r[..m] + [r[m]];
    KeysConcat(r[..m], [r[m]]);
  }

  lemma KeysConcat(a: Record, b: Record)
    ensures Keys(a + b) == Keys(a) + Keys(b)
  {
  }

  /** Index of the first occurrence of a key. */
  function IndexOf(ks: seq<Key>, k: Key): (i: nat)
    requires k in ks
    ensures i < |ks| && ks[i] == k && k !in ks[..i]
  {
    if ks[0] == k then 0
    else
      var i := 1 + IndexOf(ks[1..], k);
      assert ks[..i] == [ks[0]] + ks[1..][..i - 1];
      i
  }

  lemma IndexOfIs(ks: seq<Key>, k: Key, i: nat)
    requires i < |ks| && ks[i] == k && k !in ks[..i]
    ensures IndexOf(ks, k) == i
  {
  }

  lemma IndexOfPrefix(ks: seq<Key>, m: nat, k: Key)
    requires m <= |ks| && k in ks[..m]
    ensures IndexOf(ks, k) == IndexOf(ks[..m], k) < m
  {
    var i := IndexOf(ks[..m], k);
    assert ks[..m][..i] == ks[..i];
    IndexOfIs(ks, k, i);
  }

  lemma KeyOfEntry(r: Record, e: Entry)
    requires e in r
    ensures e.0 in Keys(r)
  {
    var i :| 0 <= i < |r| && r[i] == e;
    assert Keys(r)[i] == e.0;
  }

  /** `record[k]` for a key the record has. */
  function Get(r: Record, k: Key): Value
    requires k in Keys(r)
  {
    r[IndexOf(Keys(r), k)].1
  }

  /** In a record with unique keys, the entry at index i holds the value of its key. */
  lemma GetAt(r: Record, i: nat)
    requires UniqueKeys(r) && i < |r|
    ensures r[i].0 in Keys(r) && Get(r, r[i].0) == r[i].1
  {
    assert Keys(r)[i] == r[i].0;
    IndexOfIs(Keys(r), r[i].0, i);
  }

  /** Extending a record leaves the values of the keys it already has alone. */
  lemma GetPrefix(r: Record, m: nat, k: Key)
    requires m <= |r| && k in Keys(r[..m])
    ensures k in Keys(r) && Get(r, k) == Get(r[..m], k)
  {
    KeysPrefix(r, m);
    IndexOfPrefix(Keys(r), m, k);
  }

  /** `{...r, [k]: v}`: a key the record has keeps its place and takes the new
      value; a new key is appended. */
  function Put(r: Record, k: Key, v: Value): (r': Record)
    ensures Keys(r') == if k in Keys(r) then Keys(r) else Keys(r) + [k]
    ensures k in Keys(r') && Get(r', k) == v
    ensures forall k' :: k' in Keys(r) && k' != k ==> Get(r', k') == Get(r, k')
    ensures UniqueKeys(r) ==> UniqueKeys(r')
  {
    if k in Keys(r) then
      var r' := seq(|r|, i requires 0 <= i < |r| => if r[i].0 == k then (k, v) else r[i]);
      assert Keys(r') == Keys(r);
      r'
    else
      var r' := r + [(k, v)];
      assert Keys(r') == Keys(r) + [k];
      assert r'[..|r|] == r;
      forall k' | k' in Keys(r) && k' != k ensures Get(r', k') == Get(r, k') {
        GetPrefix(r', |r|, k');
      }
      IndexOfIs(Keys(r'), k, |r|);
      r'
  }

  /** The keys in order of first occurrence, each once. */
  function Dedup(ks: seq<Key>): (d: seq<Key>)
    ensures NoDuplicates(d)
    ensures forall k :: k in d <==> k in ks
    ensures |d| <= |ks|
    ensures forall i, j :: 0 <= i < j < |d| ==> IndexOf(ks, d[i]) < IndexOf(ks, d[j])
  {
    if ks == [] then []
    else
      var m := |ks| - 1;
      var d := Dedup(ks[..m]);
      assert ks == ks[..m] + [ks[m]];
      forall k | k in d ensures IndexOf(ks, k) == IndexOf(ks[..m], k) < m {
        IndexOfPrefix(ks, m, k);
      }
      if ks[m] in d then d
      else
        IndexOfIs(ks, ks[m], m);
        d + [ks[m]]
  }

  /** Keys that already occur once each are left as they are. */
  lemma {:induction false} DedupOfDistinct(ks: seq<Key>)
    ensures NoDuplicates(ks) ==> Dedup(ks) == ks
  {
    if ks != [] && NoDuplicates(ks) {
      var m := |ks| - 1;
      DistinctPrefix(ks);
      DedupOfDistinct(ks[..m]);
      assert ks == ks[..m] + [ks[m]];
      DedupNew(ks[..m], ks[m]);
    }
  }

  lemma DistinctPrefix(ks: seq<Key>)
    requires ks != [] && NoDuplicates(ks)
    ensures NoDuplicates(ks[..|ks| - 1]) && ks[|ks| - 1] !in ks[..|ks| - 1]
  {
    var p := ks[..|ks| - 1];
    forall i, j | 0 <= i < j < |p| ensures p[i] != p[j] {
      assert p[i] == ks[i] && p[j] == ks[j];
    }
    forall i | 0 <= i < |p| ensures p[i] != ks[|ks| - 1] {
      assert p[i] == ks[i];
    }
  }

  lemma DedupNew(p: seq<Key>, k: Key)
    requires k !in p
    ensures Dedup(p + [k]) == Dedup(p) + [k]
  {
    assert (p + [k])[..|p|] == p;
  }

  /** Removing duplicates loses nothing only when there were none. */
  lemma {:induction false} DedupKeepsLength(ks: seq<Key>)
    requires |Dedup(ks)| == |ks|
    ensures NoDuplicates(ks)
  {
    if ks != [] {
      var m := |ks| - 1;
      assert ks[m] !in Dedup(ks[..m]);
      DedupKeepsLength(ks[..m]);
      assert ks == ks[..m] + [ks[m]];
    }
  }

  /** The value of the last entry with key k. */
  function Last(n: Record, k: Key): (v: Value)
    requires k in Keys(n)
    ensures exists i :: 0 <= i < |n| && n[i] == (k, v) && forall j :: i < j < |n| ==> n[j].0 != k
  {
    var m := |n| - 1;
    if n[m].0 == k then
      assert n[m] == (k, n[m].1);
      n[m].1
    else
      KeysLast(n);
      var v := Last(n[..m], k);
      assert forall i :: 0 <= i < m ==> n[..m][i] == n[i];
      v
  }

  /** With unique keys the last entry of a key is its only one. */
  lemma {:induction false} LastOfUnique(n: Record, k: Key)
    requires UniqueKeys(n) && k in Keys(n)
    ensures Last(n, k) == Get(n, k)
  {
    var m := |n| - 1;
    if n[m].0 == k {
      GetAt(n, m);
    } else {
      KeysLast(n);
      KeysPrefix(n, m);
      LastOfUnique(n[..m], k);
      GetPrefix(n, m, k);
    }
  }

  /** `n.reduce((acc, [k, v]) => ({...acc, [k]: v}), t)`: the entries of n
      written one after the other into t. */
  function PutAll(t: Record, n: Record): (r: Record)
    ensures |Keys(t)| <= |Keys(r)| && Keys(r)[..|Keys(t)|] == Keys(t)
    ensures |r| <= |t| + |n|
    decreases |n|
  {
    if n == [] then t
    else
      var m := |n| - 1;
      Put(PutAll(t, n[..m]), n[m].0, n[m].1)
  }

  /** Written into a record with unique keys, the keys of n that are new
      follow the record's own keys in order of their first occurrence in n. */
  lemma {:induction false} PutAllKeys(t: Record, n: Record)
    requires UniqueKeys(t)
    ensures UniqueKeys(PutAll(t, n))
    ensures Keys(PutAll(t, n)) == Dedup(Keys(t) + Keys(n))
    decreases |n|
  {
    if n == [] {
      assert Keys(t) + Keys(n) == Keys(t);
      DedupOfDistinct(Keys(t));
    } else {
      var m := |n| - 1;
      var acc := PutAll(t, n[..m]);
      var before := Keys(t) + Keys(n[..m]);
      PutAllKeys(t, n[..m]);
      KeysLast(n);
      var all := Keys(t) + Keys(n);
      assert all == before + [n[m].0];
      PutKeysDedup(acc, before, n[m]);
      assert Keys(PutAll(t, n)) == Keys(Put(acc, n[m].0, n[m].1));
    }
  }

  lemma PutKeysDedup(acc: Record, before: seq<Key>, e: Entry)
    requires UniqueKeys(acc) && Keys(acc) == Dedup(before)
    ensures Keys(Put(acc, e.0, e.1)) == Dedup(before + [e.0])
  {
    var all := before + [e.0];
    assert all[..|all| - 1] == before;
  }

  /** Written into the empty record, the entries' keys appear once each, in
      order of first occurrence. */
  lemma PutAllIntoEmpty(n: Record)
    ensures UniqueKeys(PutAll([], n))
    ensures Keys(PutAll([], n)) == Dedup(Keys(n))
  {
    var none: Record := [];
    assert Keys(none) == [];
    PutAllKeys(none, n);
    assert Keys(none) + Keys(n) == Keys(n);
  }

  /** The written record has exactly the keys of t and of n. */
  lemma {:induction false} PutAllMembers(t: Record, n: Record, k: Key)
    ensures k in Keys(PutAll(t, n)) <==> k in Keys(t) || k in Keys(n)
    decreases |n|
  {
    if n != [] {
      var m := |n| - 1;
      PutAllMembers(t, n[..m], k);
      KeysLast(n);
    }
  }

  /** A key of n ends up with its last value in n; any other key of t keeps its value. */
  lemma {:induction false} PutAllGet(t: Record, n: Record, k: Key)
    requires k in Keys(t) || k in Keys(n)
    ensures k in Keys(PutAll(t, n))
    ensures k in Keys(n) ==> Get(PutAll(t, n), k) == Last(n, k)
    ensures k !in Keys(n) ==> Get(PutAll(t, n), k) == Get(t, k)
    decreases |n|
  {
    PutAllMembers(t, n, k);
    if n != [] {
      var m := |n| - 1;
      KeysLast(n);
      if n[m].0 != k {
        PutAllGet(t, n[..m], k);
        PutAllMembers(t, n[..m], k);
      }
    }
  }

  /** `Object.fromEntries(Object.entries(r).filter(([k]) => !(k in drop)))`. */
  function RemoveKeys(r: Record, drop: seq<Key>): (r': Record)
    ensures forall e :: e in r' <==> e in r && e.0 !in drop
    ensures forall k :: k in Keys(r') <==> k in Keys(r) && k !in drop
    ensures |r'| <= |r|
    decreases |r|
  {
    if r == [] then []
    else
      var m := |r| - 1;
      var kept := RemoveKeys(r[..m], drop);
      assert r == r[..m] + [r[m]];
      KeysLast(r);
      if r[m].0 in drop then kept
      else
        KeysConcat(kept, [r[m]]);
        assert Keys(kept + [r[m]]) == Keys(kept) + [r[m].0];
        kept + [r[m]]
  }

  /** The entries of a are entries of b and come in the order b lists them. */
  predicate OrderedWithin(a: Record, b: Record)
  {
    && (forall i :: 0 <= i < |a| ==> a[i] in b)
    && forall i, j :: 0 <= i < j < |a| && a[i].0 in Keys(b) && a[j].0 in Keys(b) ==>
         IndexOf(Keys(b), a[i].0) < IndexOf(Keys(b), a[j].0)
  }

  /** Order within a record carries over to any record that extends it. */
  lemma OrderedWithinExtended(a: Record, p: Record, e: Entry)
    requires UniqueKeys(p + [e]) && OrderedWithin(a, p)
    ensures OrderedWithin(a, p + [e])
    ensures forall i :: 0 <= i < |a| ==> a[i].0 in Keys(p) && a[i].0 in Keys(p + [e]) && IndexOf(Keys(p + [e]), a[i].0) < |p|
  {
    var n := p + [e];
    GetSnoc(p, e);
    assert Keys(n)[..|p|] == Keys(p);
    forall i | 0 <= i < |a|
      ensures a[i] in n && a[i].0 in Keys(p) && a[i].0 in Keys(n)
      ensures IndexOf(Keys(n), a[i].0) == IndexOf(Keys(p), a[i].0) < |p|
    {
      KeyOfEntry(p, a[i]);
      IndexOfPrefix(Keys(n), |p|, a[i].0);
    }
  }

  /** Appending a record's new last entry to an ordered part of it keeps the order. */
  lemma OrderedWithinSnoc(a: Record, p: Record, e: Entry)
    requires UniqueKeys(p + [e]) && UniqueKeys(a) && OrderedWithin(a, p)
    ensures UniqueKeys(a + [e]) && OrderedWithin(a + [e], p + [e])
  {
    var n := p + [e];
    OrderedWithinExtended(a, p, e);
    GetSnoc(p, e);
    assert Keys(n)[..|p|] == Keys(p);
    IndexOfIs(Keys(n), e.0, |p|);
    KeysConcat(a, [e]);
  }

  /** Filtering a record keeps its keys unique and its entries in their order. */
  lemma {:induction false} RemoveKeysOrdered(r: Record, drop: seq<Key>)
    requires UniqueKeys(r)
    ensures UniqueKeys(RemoveKeys(r, drop))
    ensures OrderedWithin(RemoveKeys(r, drop), r)
    decreases |r|
  {
    if r != [] {
      var m := |r| - 1;
      var p, e := r[..m], r[m];
      assert r == p + [e];
      GetSnoc(p, e);
      RemoveKeysOrdered(p, drop);
      var kept := RemoveKeys(p, drop);
      if e.0 !in drop {
        assert RemoveKeys(r, drop) == kept + [e];
        OrderedWithinSnoc(kept, p, e);
      } else {
        assert RemoveKeys(r, drop) == kept;
        OrderedWithinExtended(kept, p, e);
      }
    }
  }

  /** Filtering by keys the record does not have changes nothing. */
  lemma {:induction false} RemoveAbsentKeys(r: Record, drop: seq<Key>)
    requires forall k :: k in drop ==> k !in Keys(r)
    ensures RemoveKeys(r, drop) == r
    decreases |r|
  {
    if r != [] {
      var m := |r| - 1;
      KeysLast(r);
      RemoveAbsentKeys(r[..m], drop);
      assert r == r[..m] + [r[m]];
    }
  }

  /** The entries of t, each taking the value n gives its key when n has that key. */
  function Overridden(t: Record, n: Record): (r: Record)
    ensures Keys(r) == Keys(t)
  {
    seq(|t|, i requires 0 <= i < |t| => if t[i].0 in Keys(n) then (t[i].0, Get(n, t[i].0)) else t[i])
  }

  /** A record ending in e has e's value for e's key and its prefix's values
      for the other keys. */
  lemma GetSnoc(p: Record, e: Entry)
    requires UniqueKeys(p + [e])
    ensures Keys(p + [e]) == Keys(p) + [e.0]
    ensures e.0 !in Keys(p)
    ensures UniqueKeys(p)
    ensures Get(p + [e], e.0) == e.1
    ensures forall k :: k in Keys(p) ==> Get(p + [e], k) == Get(p, k)
  {
    var n := p + [e];
    var m := |p|;
    assert n[..m] == p;
    KeysPrefix(n, m);
    KeysLast(n);
    forall i | 0 <= i < m ensures Keys(p)[i] != e.0 {
      assert Keys(n)[i] == Keys(p)[i] && Keys(n)[m] == e.0;
    }
    GetAt(n, m);
    forall k | k in Keys(p) ensures Get(n, k) == Get(p, k) {
      GetPrefix(n, m, k);
    }
  }

  lemma OverriddenSnocShared(t: Record, p: Record, e: Entry)
    requires UniqueKeys(p + [e]) && e.0 in Keys(t)
    ensures Overridden(t, p + [e]) == Put(Overridden(t, p), e.0, e.1)
  {
    GetSnoc(p, e);
    KeysConcat(p, [e]);
  }

  lemma OverriddenSnocNew(t: Record, p: Record, e: Entry)
    requires UniqueKeys(p + [e]) && e.0 !in Keys(t)
    ensures Overridden(t, p + [e]) == Overridden(t, p)
  {
    GetSnoc(p, e);
    KeysConcat(p, [e]);
    var a, b := Overridden(t, p + [e]), Overridden(t, p);
    forall i | 0 <= i < |t| ensures a[i] == b[i] {
      assert Keys(t)[i] == t[i].0;
    }
  }

  /** Writing a key that only the front part of a record has touches only that part. */
  lemma PutConcatFront(a: Record, b: Record, k: Key, v: Value)
    requires k in Keys(a) && k !in Keys(b)
    ensures Put(a + b, k, v) == Put(a, k, v) + b
  {
    KeysConcat(a, b);
    var x, y := Put(a + b, k, v), Put(a, k, v) + b;
    forall i | 0 <= i < |x| ensures x[i] == y[i] {
      if i >= |a| { assert Keys(b)[i - |a|] == b[i - |a|].0; }
    }
  }

  /** With unique keys on both sides, writing n into t replaces the values of
      the keys they share in place and appends the other entries of n in
      their order. */
  lemma {:induction false} PutAllClosedForm(t: Record, n: Record)
    requires UniqueKeys(t) && UniqueKeys(n)
    ensures PutAll(t, n) == Overridden(t, n) + RemoveKeys(n, Keys(t))
    decreases |n|
  {
    if n == [] {
      assert Overridden(t, n) == t;
    } else {
      var m := |n| - 1;
      var p, e := n[..m], n[m];
      assert n == p + [e];
      var K := Keys(t);
      GetSnoc(p, e);
      PutAllClosedForm(t, p);
      var o, rest := Overridden(t, p), RemoveKeys(p, K);
      assert PutAll(t, n) == Put(o + rest, e.0, e.1);
      assert e.0 !in Keys(rest);
      KeysConcat(o, rest);
      if e.0 in K {
        assert RemoveKeys(n, K) == rest;
        PutConcatFront(o, rest, e.0, e.1);
        OverriddenSnocShared(t, p, e);
      } else {
        assert RemoveKeys(n, K) == rest + [e];
        OverriddenSnocNew(t, p, e);
      }
    }
  }

  /** Writing a record with unique keys into the empty record copies it. */
  lemma PutAllIntoEmptyCopies(n: Record)
    requires UniqueKeys(n)
    ensures PutAll([], n) == n
  {
    var none: Record := [];
    assert Keys(none) == [];
    assert UniqueKeys(none);
    PutAllClosedForm(none, n);
    assert |Keys(Overridden(none, n))| == 0;
    RemoveAbsentKeys(n, Keys(none));
  }
}
