/** The live region of a dictionary's buffer, slots [0, length), as a
    sequence of key/value entries, and the linear scan by key that every
    dictionary operation is built on. */
module Entries {

  /** One slot of the buffer. */
  datatype Entry<K, V> = Entry(key: K, value: V)

  /** The keys stored in `es`. */
  function Keys<K(==), V>(es: seq<Entry<K, V>>): set<K>
  {
    set i | 0 <= i < |es| :: es[i].key
  }

  /** No key occurs in two entries. */
  predicate DistinctKeys<K(==), V>(es: seq<Entry<K, V>>)
  {
    forall i, j :: 0 <= i < j < |es| ==> es[i].key != es[j].key
  }

  /** Position of the first entry whose key is `k`, or -1 when no entry has
      that key: the front-to-back scan of the C loops. */
  function IndexOf<K(==), V>(es: seq<Entry<K, V>>, k: K): (r: int)
    ensures -1 <= r < |es|
    ensures r == -1 <==> k !in Keys(es)
    ensures 0 <= r ==> es[r].key == k
    ensures forall j :: 0 <= j < r ==> es[j].key != k
  {
    if |es| == 0 then -1
    else if es[0].key == k then 0
    else
      var t := IndexOf(es[1..], k);
      KeysCons(es);
      if t == -1 then -1 else t + 1
  }

  /** The entries with the one at `i` taken out and those after it moved
      down one slot (the memmove of the removal operations). */
  function RemoveAt<K, V>(es: seq<Entry<K, V>>, i: nat): (r: seq<Entry<K, V>>)
    requires i < |es|
    ensures |r| == |es| - 1
    ensures forall j :: 0 <= j < i ==> r[j] == es[j]
    ensures forall j :: i <= j < |r| ==> r[j] == es[j + 1]
  {
    es[..i] + es[i + 1..]
  }

  /** The map the entries stand for. Every lookup scans from the front, so a
      key denotes the value of its first entry. */
  function ToMap<K(==), V>(es: seq<Entry<K, V>>): (m: map<K, V>)
    ensures m.Keys == Keys(es)
    ensures forall k :: k in m ==> m[k] == es[IndexOf(es, k)].value
  {
    if |es| == 0 then map[]
    else
      var m := ToMap(es[1..])[es[0].key := es[0].value];
      KeysCons(es);
      m
  }

  /** The denoted map of a non-empty sequence: the head's entry assigned
      over the map of the tail. */
  lemma ToMapCons<K, V>(es: seq<Entry<K, V>>)
    requires |es| > 0
    ensures ToMap(es) == ToMap(es[1..])[es[0].key := es[0].value]
  {
  }

  /** Maps with the same keys and the same value at each key are equal. */
  lemma SameMap<K, V>(a: map<K, V>, b: map<K, V>)
    requires a.Keys == b.Keys
    requires forall j :: j in a ==> a[j] == b[j]
    ensures a == b
  {
  }

  /** The entries of `es` whose keys are not in `ks`, in their order. */
  function Without<K(==), V>(es: seq<Entry<K, V>>, ks: set<K>): seq<Entry<K, V>>
  {
    if |es| == 0 then []
    else if es[0].key in ks then Without(es[1..], ks)
    else [es[0]] + Without(es[1..], ks)
  }

  /** Each entry of `es` whose key `m` maps gets that value; the others
      stay as they are. Keys and positions are kept. */
  function Overridden<K(==), V>(es: seq<Entry<K, V>>, m: map<K, V>): (r: seq<Entry<K, V>>)
    ensures |r| == |es|
    ensures forall j :: 0 <= j < |es| ==> r[j].key == es[j].key
    ensures forall j :: 0 <= j < |es| && es[j].key in m ==> r[j].value == m[es[j].key]
    ensures forall j :: 0 <= j < |es| && es[j].key !in m ==> r[j] == es[j]
  {
    seq(|es|, j requires 0 <= j < |es| =>
      if es[j].key in m then es[j].(value := m[es[j].key]) else es[j])
  }

  /** The keys of a non-empty sequence: its head's key and the tail's keys. */
  lemma KeysCons<K, V>(es: seq<Entry<K, V>>)
    requires |es| > 0
    ensures Keys(es) == {es[0].key} + Keys(es[1..])
  {
    var tail := es[1..];
    forall k | k in Keys(es) ensures k in {es[0].key} + Keys(tail) {
      var i :| 0 <= i < |es| && es[i].key == k;
      if i > 0 {
        assert tail[i - 1].key == k;
      }
    }
    forall k | k in Keys(tail) ensures k in Keys(es) {
      var i :| 0 <= i < |tail| && tail[i].key == k;
      assert es[i + 1].key == k;
    }
  }

  /** Appending an entry adds exactly its key. */
  lemma KeysAppend<K, V>(es: seq<Entry<K, V>>, e: Entry<K, V>)
    ensures Keys(es + [e]) == Keys(es) + {e.key}
  {
    var es' := es + [e];
    assert es'[|es|].key == e.key;
    forall k | k in Keys(es) ensures k in Keys(es') {
      var i :| 0 <= i < |es| && es[i].key == k;
      assert es'[i].key == k;
    }
  }

  /** Overwriting a value in place leaves the keys alone. */
  lemma KeysSetValue<K, V>(es: seq<Entry<K, V>>, i: nat, v: V)
    requires i < |es|
    ensures Keys(es[i := es[i].(value := v)]) == Keys(es)
  {
    var es' := es[i := es[i].(value := v)];
    forall k | k in Keys(es) ensures k in Keys(es') {
      var j :| 0 <= j < |es| && es[j].key == k;
      assert es'[j].key == k;
    }
  }

  /** Taking out the single entry with a key removes exactly that key. */
  lemma KeysRemoveAt<K, V>(es: seq<Entry<K, V>>, i: nat)
    requires i < |es| && DistinctKeys(es)
    ensures Keys(RemoveAt(es, i)) == Keys(es) - {es[i].key}
    ensures DistinctKeys(RemoveAt(es, i))
  {
    var r := RemoveAt(es, i);
    forall k | k in Keys(es) - {es[i].key} ensures k in Keys(r) {
      var j :| 0 <= j < |es| && es[j].key == k;
      if j < i {
        assert r[j].key == k;
      } else {
        assert r[j - 1].key == k;
      }
    }
  }

  /** A sequence with distinct keys has as many keys as entries. */
  lemma {:induction false} DistinctKeysCount<K, V>(es: seq<Entry<K, V>>)
    requires DistinctKeys(es)
    ensures |Keys(es)| == |es|
  {
    if |es| > 0 {
      KeysCons(es);
      DistinctKeysCount(es[1..]);
      assert es[0].key !in Keys(es[1..]);
    }
  }

  /** An entry with key `k` that no earlier entry shares is the one the
      scan finds. */
  lemma IndexOfFirst<K, V>(es: seq<Entry<K, V>>, k: K, i: nat)
    requires i < |es| && es[i].key == k
    requires forall j :: 0 <= j < i ==> es[j].key != k
    ensures IndexOf(es, k) == i
  {
    assert k in Keys(es);
  }

  /** After taking out the entry at `i`, every other key still finds the
      value it found before. */
  lemma RemovePreservesLookup<K, V>(es: seq<Entry<K, V>>, i: nat)
    requires i < |es| && DistinctKeys(es)
    ensures ToMap(RemoveAt(es, i)) == ToMap(es) - {es[i].key}
  {
    var r := RemoveAt(es, i);
    KeysRemoveAt(es, i);
    assert ToMap(r).Keys == (ToMap(es) - {es[i].key}).Keys;
    forall k | k in ToMap(r) ensures ToMap(r)[k] == (ToMap(es) - {es[i].key})[k] {
      LookupAfterRemove(es, i, k);
    }
    SameMap(ToMap(r), ToMap(es) - {es[i].key});
  }

  /** An entry with key `k` that no earlier entry shares gives the value
      `k` denotes. */
  lemma LookupFirst<K, V>(es: seq<Entry<K, V>>, k: K, p: nat)
    requires p < |es| && es[p].key == k
    requires forall m :: 0 <= m < p ==> es[m].key != k
    ensures k in ToMap(es) && ToMap(es)[k] == es[p].value
  {
    IndexOfFirst(es, k, p);
  }

  /** The first entry with a key other than the removed one was also the
      first before the removal: at the same position, or one further on
      when it came after the removed slot. */
  lemma FirstBeforeRemove<K, V>(es: seq<Entry<K, V>>, i: nat, k: K, j: nat)
    requires i < |es| && k != es[i].key
    requires j < |es| - 1 && RemoveAt(es, i)[j].key == k
    requires forall m :: 0 <= m < j ==> RemoveAt(es, i)[m].key != k
    ensures var p := if j < i then j else j + 1;
      && p < |es| && es[p] == RemoveAt(es, i)[j]
      && forall m :: 0 <= m < p ==> es[m].key != k
  {
    var r := RemoveAt(es, i);
    var p := if j < i then j else j + 1;
    forall m | 0 <= m < p ensures es[m].key != k {
      if m < i {
        assert es[m] == r[m];
      } else if m > i {
        assert es[m] == r[m - 1];
      }
    }
  }

  /** A key other than the removed one finds the same value afterwards. */
  lemma LookupAfterRemove<K, V>(es: seq<Entry<K, V>>, i: nat, k: K)
    requires i < |es| && k != es[i].key
    requires k in Keys(RemoveAt(es, i))
    ensures k in ToMap(es) && ToMap(RemoveAt(es, i))[k] == ToMap(es)[k]
  {
    var r := RemoveAt(es, i);
    var j := IndexOf(r, k);
    assert 0 <= j;
    LookupFirst(r, k, j);
    FirstBeforeRemove(es, i, k, j);
    LookupFirst(es, k, if j < i then j else j + 1);
  }

  /** Overwriting the value of the entry a key finds is map assignment. */
  lemma ToMapSetValue<K, V>(es: seq<Entry<K, V>>, i: nat, v: V)
    requires i < |es| && IndexOf(es, es[i].key) == i
    ensures ToMap(es[i := es[i].(value := v)]) == ToMap(es)[es[i].key := v]
  {
    var k := es[i].key;
    var es' := es[i := es[i].(value := v)];
    var m, m' := ToMap(es), ToMap(es');
    KeysSetValue(es, i, v);
    assert m'.Keys == m[k := v].Keys;
    forall j | j in m' ensures m'[j] == m[k := v][j] {
      LookupAfterSetValue(es, i, v, j);
    }
    SameMap(m', m[k := v]);
  }

  /** Pointwise form of ToMapSetValue: the overwritten key finds the new
      value, every other stored key the value it found before. */
  lemma LookupAfterSetValue<K, V>(es: seq<Entry<K, V>>, i: nat, v: V, j: K)
    requires i < |es| && IndexOf(es, es[i].key) == i && j in Keys(es)
    ensures var m' := ToMap(es[i := es[i].(value := v)]);
      j in m' && m'[j] == if j == es[i].key then v else ToMap(es)[j]
  {
    var es' := es[i := es[i].(value := v)];
    KeysSetValue(es, i, v);
    forall t | 0 <= t < |es| ensures es'[t].key == es[t].key {
    }
    IndexOfSameKeys(es', es, j);
    var t := IndexOf(es, j);
    if j != es[i].key {
      assert es'[t] == es[t];
    }
  }

  /** The scan only looks at keys, so sequences with the same keys in the
      same places give the same position. */
  lemma {:induction false} IndexOfSameKeys<K, V>(a: seq<Entry<K, V>>, b: seq<Entry<K, V>>, k: K)
    requires |a| == |b|
    requires forall t :: 0 <= t < |a| ==> a[t].key == b[t].key
    ensures IndexOf(a, k) == IndexOf(b, k)
  {
    if |a| > 0 && a[0].key != k {
      IndexOfSameKeys(a[1..], b[1..], k);
    }
  }

  /** Appending an entry with a new key is map assignment. */
  lemma ToMapAppend<K, V>(es: seq<Entry<K, V>>, e: Entry<K, V>)
    requires e.key !in Keys(es)
    ensures ToMap(es + [e]) == ToMap(es)[e.key := e.value]
  {
    var m, m' := ToMap(es), ToMap(es + [e]);
    KeysAppend(es, e);
    assert m'.Keys == m[e.key := e.value].Keys;
    forall j | j in m' ensures m'[j] == m[e.key := e.value][j] {
      LookupAfterAppend(es, e, j);
    }
    SameMap(m', m[e.key := e.value]);
  }

  /** Pointwise form of ToMapAppend: the appended key finds its value,
      every other stored key the value it found before. */
  lemma LookupAfterAppend<K, V>(es: seq<Entry<K, V>>, e: Entry<K, V>, j: K)
    requires e.key !in Keys(es) && j in Keys(es) + {e.key}
    ensures var m' := ToMap(es + [e]);
      j in m' && m'[j] == if j == e.key then e.value else ToMap(es)[j]
  {
    var es' := es + [e];
    KeysAppend(es, e);
    if j == e.key {
      forall t | 0 <= t < |es| ensures es'[t].key != j {
        assert es[t].key in Keys(es);
      }
      IndexOfFirst(es', j, |es|);
    } else {
      var t := IndexOf(es, j);
      IndexOfFirst(es', j, t);
    }
  }

  /** In a sequence with distinct keys, the first key does not recur in the
      rest, and the rest has distinct keys too. */
  lemma DistinctKeysCons<K, V>(es: seq<Entry<K, V>>)
    requires |es| > 0 && DistinctKeys(es)
    ensures DistinctKeys(es[1..])
    ensures es[0].key !in Keys(es[1..])
  {
    var tail := es[1..];
    forall i | 0 <= i < |tail| ensures tail[i].key != es[0].key {
      assert tail[i] == es[i + 1];
    }
  }

  /** Overriding after an in-place write of `v` to the only entry with key
      `k` is overriding with `k` mapped to `v`. */
  lemma OverriddenAssign<K, V>(es: seq<Entry<K, V>>, i: nat, v: V, m: map<K, V>)
    requires i < |es| && DistinctKeys(es) && es[i].key !in m
    ensures Overridden(es[i := es[i].(value := v)], m) == Overridden(es, m[es[i].key := v])
  {
    var k := es[i].key;
    var a, b := Overridden(es[i := es[i].(value := v)], m), Overridden(es, m[k := v]);
    forall j | 0 <= j < |es| ensures a[j] == b[j] {
      if j != i {
        assert es[j].key != k;
      }
    }
  }

  /** Overriding after appending an entry with a new key is overriding with
      that key mapped to the entry's value, followed by the entry. */
  lemma OverriddenAppend<K, V>(es: seq<Entry<K, V>>, e: Entry<K, V>, m: map<K, V>)
    requires e.key !in Keys(es) && e.key !in m
    ensures Overridden(es + [e], m) == Overridden(es, m[e.key := e.value]) + [e]
  {
    var a, b := Overridden(es + [e], m), Overridden(es, m[e.key := e.value]) + [e];
    forall j | 0 <= j < |es| ensures a[j] == b[j] {
      assert es[j].key in Keys(es);
    }
  }
}
