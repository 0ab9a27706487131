/**
 JavaScript's `Map`: entries in insertion order under distinct keys. `Without` is `delete`, and
 appending an entry whose key is absent is `set`.
 */
module OrderedMaps {
  import opened Options

  datatype Entry<K, V> = Entry(key: K, value: V)

  ghost predicate Distinct<K, V>(t: seq<Entry<K, V>>) {
    forall i, j :: 0 <= i < j < |t| ==> t[i].key != t[j].key
  }

  ghost predicate Has<K, V>(t: seq<Entry<K, V>>, k: K) {
    exists i :: 0 <= i < |t| && t[i].key == k
  }

  function Find<K(==), V>(t: seq<Entry<K, V>>, k: K): Option<V> {
    if t == [] then None else if t[0].key == k then Some(t[0].value) else Find(t[1..], k)
  }

  function Without<K(==), V>(t: seq<Entry<K, V>>, k: K): seq<Entry<K, V>> {
    if t == [] then [] else (if t[0].key == k then [] else [t[0]]) + Without(t[1..], k)
  }

  lemma {:induction false} FindHas<K, V>(t: seq<Entry<K, V>>, k: K)
    ensures Find(t, k).Some? <==> Has(t, k)
    ensures Find(t, k).Some? ==> Entry(k, Find(t, k).value) in t
  {
    if t != [] {
      FindHas(t[1..], k);
      assert forall i :: 1 <= i < |t| ==> t[i] == t[1..][i - 1];
    }
  }

  /** Distinct keys make `Find` the entry, wherever it stands. */
  lemma {:induction false} FindAt<K, V>(t: seq<Entry<K, V>>, i: nat)
    requires Distinct(t) && i < |t|
    ensures Find(t, t[i].key) == Some(t[i].value)
  {
    if i > 0 {
      assert t[1..][i - 1] == t[i];
      FindAt(t[1..], i - 1);
    }
  }

  lemma {:induction false} WithoutAppend<K, V>(a: seq<Entry<K, V>>, b: seq<Entry<K, V>>, k: K)
    ensures Without(a + b, k) == Without(a, k) + Without(b, k)
  {
    if a == [] {
      assert a + b == b;
    } else {
      assert (a + b)[1..] == a[1..] + b;
      WithoutAppend(a[1..], b, k);
    }
  }

  lemma {:induction false} WithoutAbsent<K, V>(t: seq<Entry<K, V>>, k: K)
    requires !Has(t, k)
    ensures Without(t, k) == t
  {
    if t != [] {
      assert forall i :: 0 <= i < |t[1..]| ==> t[1..][i] == t[i + 1];
      WithoutAbsent(t[1..], k);
    }
  }

  /** Deleting the key at a known position leaves every other entry where it was. */
  lemma {:induction false} WithoutAt<K, V>(t: seq<Entry<K, V>>, i: nat)
    requires Distinct(t) && i < |t|
    ensures Without(t, t[i].key) == t[..i] + t[i + 1..]
  {
    var rest := t[1..];
    assert forall j :: 0 <= j < |rest| ==> rest[j] == t[j + 1];
    if i == 0 {
      WithoutAbsent(rest, t[0].key);
    } else {
      WithoutAt(rest, i - 1);
      assert [t[0]] + (rest[..i - 1] + rest[i..]) == t[..i] + t[i + 1..];
    }
  }

  lemma DistinctCut<K, V>(t: seq<Entry<K, V>>, cut: nat, skip: nat, k: K)
    requires Distinct(t) && cut <= skip <= |t|
    requires forall i :: 0 <= i < |t| && !(cut <= i < skip) ==> t[i].key != k
    ensures Distinct(t[..cut] + t[skip..]) && !Has(t[..cut] + t[skip..], k)
  {
    var r := t[..cut] + t[skip..];
    assert forall i :: 0 <= i < cut ==> r[i] == t[i];
    assert forall i :: cut <= i < |r| ==> r[i] == t[i + (skip - cut)];
  }

  /** What a deletion leaves: a map without the key, every other entry in its old order. */
  lemma WithoutSplit<K, V>(t: seq<Entry<K, V>>, k: K) returns (cut: nat, skip: nat)
    requires Distinct(t)
    ensures cut <= skip <= |t| && Without(t, k) == t[..cut] + t[skip..]
    ensures if Has(t, k) then skip == cut + 1 && t[cut].key == k else skip == cut
    ensures Distinct(Without(t, k)) && !Has(Without(t, k), k)
  {
    if Has(t, k) {
      cut :| 0 <= cut < |t| && t[cut].key == k;
      skip := cut + 1;
      WithoutAt(t, cut);
    } else {
      cut, skip := 0, 0;
      WithoutAbsent(t, k);
      assert t[..0] + t[0..] == t;
    }
    DistinctCut(t, cut, skip, k);
  }

  lemma {:induction false} FindWithout<K, V>(t: seq<Entry<K, V>>, k: K, x: K)
    ensures Find(Without(t, k), x) == if x == k then None else Find(t, x)
  {
    if t != [] {
      FindWithout(t[1..], k, x);
      if t[0].key != k {
        assert Without(t, k)[1..] == Without(t[1..], k);
      } else {
        assert Without(t, k) == Without(t[1..], k);
      }
    }
  }

  lemma {:induction false} FindAppend<K, V>(a: seq<Entry<K, V>>, b: seq<Entry<K, V>>, x: K)
    ensures Find(a + b, x) == if Find(a, x).Some? then Find(a, x) else Find(b, x)
  {
    if a == [] {
      assert a + b == b;
    } else {
      assert (a + b)[1..] == a[1..] + b;
      FindAppend(a[1..], b, x);
    }
  }

  function Keys<K(==), V>(t: seq<Entry<K, V>>): set<K> {
    if t == [] then {} else {t[0].key} + Keys(t[1..])
  }

  lemma {:induction false} KeysAppend<K, V>(a: seq<Entry<K, V>>, b: seq<Entry<K, V>>)
    ensures Keys(a + b) == Keys(a) + Keys(b)
  {
    if a == [] {
      assert a + b == b;
    } else {
      assert (a + b)[1..] == a[1..] + b;
      KeysAppend(a[1..], b);
    }
  }

  lemma {:induction false} KeysHas<K, V>(t: seq<Entry<K, V>>, k: K)
    ensures k in Keys(t) <==> Has(t, k)
  {
    if t != [] {
      KeysHas(t[1..], k);
      assert forall i :: 1 <= i < |t| ==> t[i] == t[1..][i - 1];
      assert forall i :: 0 <= i < |t| - 1 ==> t[1..][i] == t[i + 1];
    }
  }

  lemma {:induction false} KeysSize<K, V>(t: seq<Entry<K, V>>)
    requires Distinct(t)
    ensures |Keys(t)| == |t|
  {
    if t != [] {
      KeysSize(t[1..]);
      KeysHas(t[1..], t[0].key);
    }
  }

  lemma {:induction false} KeysWithout<K, V>(t: seq<Entry<K, V>>, k: K)
    ensures Keys(Without(t, k)) == Keys(t) - {k}
  {
    if t != [] {
      KeysWithout(t[1..], k);
      KeysAppend(if t[0].key == k then [] else [t[0]], Without(t[1..], k));
    }
  }
}
