/** The dictionary engine: a growable buffer of key/value entries searched
    front to back by key equality, with the set/get/pop/index/popindex/
    clear/copy/update operations of gdasc_dictionary.h. A dictionary is an
    immutable value here; every mutating operation returns the new state. */
module Dictionary {
  import opened Errors
  import opened Entries
  import opened Growth

  /** The live entries [0, length) and the number of allocated slots. */
  datatype Dict<K, V> = Dict(entries: seq<Entry<K, V>>, capacity: nat)
  {
    function Length(): nat
    {
      |entries|
    }
  }

  /** The slot just past the live entries exists, so an append can write it
      before the growth check runs. */
  predicate HasRoom<K, V>(d: Dict<K, V>)
  {
    d.Length() < d.capacity
  }

  /** The representation invariant every reachable dictionary satisfies. */
  predicate Valid<K(==), V>(d: Dict<K, V>)
  {
    HasRoom(d) && DistinctKeys(d.entries)
  }

  /** The state the constructor copies from the per-type class object. */
  function New<K, V>(): (r: Dict<K, V>)
    ensures Valid(r)
    ensures ToMap(r.entries) == map[]
    ensures r.Length() == 0 && r.capacity == 1
  {
    Dict([], 1)
  }

  /** Overwrite the value of the first entry with key `k`, or append
      (k, v) and grow the buffer if that filled it. */
  function Set<K(==), V>(d: Dict<K, V>, k: K, v: V): (r: Dict<K, V>)
    requires HasRoom(d)
    ensures HasRoom(r)
    ensures DistinctKeys(d.entries) ==> DistinctKeys(r.entries)
    ensures Keys(r.entries) == Keys(d.entries) + {k}
    ensures k in Keys(d.entries) ==>
      && r.capacity == d.capacity
      && r.entries == d.entries[IndexOf(d.entries, k) := Entry(k, v)]
    ensures k !in Keys(d.entries) ==>
      && r.entries == d.entries + [Entry(k, v)]
      && r.capacity == AfterAppend(d.Length() + 1, d.capacity)
  {
    var i := IndexOf(d.entries, k);
    if i >= 0 then
      KeysSetValue(d.entries, i, v);
      d.(entries := d.entries[i := d.entries[i].(value := v)])
    else
      var es := d.entries + [Entry(k, v)];
      KeysAppend(d.entries, Entry(k, v));
      assert DistinctKeys(d.entries) ==> DistinctKeys(es) by {
        if DistinctKeys(d.entries) {
          forall j | 0 <= j < d.Length() ensures es[j].key != k {
            assert d.entries[j].key in Keys(d.entries);
          }
        }
      }
      Dict(es, AfterAppend(|es|, d.capacity))
  }

  /** The value stored under `k`. */
  function Get<K(==), V>(d: Dict<K, V>, k: K): (r: Result<V>)
    ensures r == Err(EmptyContainer) <==> d.Length() == 0
    ensures r == Err(KeyNotFound) <==> d.Length() > 0 && k !in ToMap(d.entries)
    ensures r.Ok? <==> k in ToMap(d.entries)
    ensures r.Ok? ==> r.value == ToMap(d.entries)[k]
  {
    if d.Length() == 0 then Err(EmptyContainer)
    else
      var i := IndexOf(d.entries, k);
      if i < 0 then Err(KeyNotFound) else Ok(d.entries[i].value)
  }

  /** Take out the entry at `i`, close the gap, and shrink the buffer to
      length + 1 slots if it is more than 1.2 times the new length. */
  function RemoveEntry<K(==), V>(d: Dict<K, V>, i: nat): (r: Dict<K, V>)
    requires i < d.Length()
    ensures r.entries == RemoveAt(d.entries, i)
    ensures r.capacity == AfterRemove(r.Length(), d.capacity)
    ensures HasRoom(d) ==> HasRoom(r) && r.capacity <= d.capacity
    ensures Valid(d) ==> Valid(r) && Keys(r.entries) == Keys(d.entries) - {d.entries[i].key}
  {
    var es := RemoveAt(d.entries, i);
    assert Valid(d) ==> DistinctKeys(es) && Keys(es) == Keys(d.entries) - {d.entries[i].key} by {
      if Valid(d) {
        KeysRemoveAt(d.entries, i);
      }
    }
    Dict(es, AfterRemove(|es|, d.capacity))
  }

  /** Remove the entry with key `k` and return its value; fails exactly
      when `Get` fails, and with the same error. */
  function Pop<K(==), V>(d: Dict<K, V>, k: K): (r: Result<(V, Dict<K, V>)>)
    ensures r.Err? <==> Get(d, k).Err?
    ensures r.Err? ==> r.error == Get(d, k).error
    ensures r.Ok? ==> Get(d, k) == Ok(r.value.0)
    ensures r.Ok? ==>
      && r.value.1.Length() == d.Length() - 1
      && r.value.1.entries == RemoveAt(d.entries, IndexOf(d.entries, k))
      && r.value.1.capacity == AfterRemove(d.Length() - 1, d.capacity)
    ensures r.Ok? && Valid(d) ==>
      && Valid(r.value.1)
      && k !in Keys(r.value.1.entries)
      && ToMap(r.value.1.entries) == ToMap(d.entries) - {k}
  {
    if d.Length() == 0 then Err(EmptyContainer)
    else
      var i := IndexOf(d.entries, k);
      if i < 0 then Err(KeyNotFound)
      else
        var r := RemoveEntry(d, i);
        assert Valid(d) ==> ToMap(r.entries) == ToMap(d.entries) - {k} by {
          if Valid(d) {
            RemovePreservesLookup(d.entries, i);
          }
        }
        Ok((d.entries[i].value, r))
  }

  /** Position of the first entry with key `k`, or -1 (the C loop with its
      early break). Never fails, not even on an empty dictionary. */
  method Index<K(==), V>(d: Dict<K, V>, k: K) returns (r: int)
    ensures r == IndexOf(d.entries, k)
    ensures r == -1 <==> Get(d, k).Err?
  {
    r := -1;
    var i := 0;
    while i != d.Length()
      invariant 0 <= i <= d.Length()
      invariant forall j :: 0 <= j < i ==> d.entries[j].key != k
    {
      if d.entries[i].key == k {
        r := i;
        break;
      }
      i := i + 1;
    }
    if r == -1 {
      assert k !in Keys(d.entries);
    }
  }

  /** The position a possibly negative index refers to: a negative index
      counts back from the end. */
  function Normalize(length: nat, index: int): (r: int)
    ensures 0 <= index ==> r == index
    ensures index < 0 ==> r < length
    ensures 0 <= r < length <==> -(length as int) <= index < length
  {
    if index >= 0 then index else length + index
  }

  /** Remove and return the entry at position `index` (negative positions
      count from the end). */
  function PopIndex<K(==), V>(d: Dict<K, V>, index: int): (r: Result<(Entry<K, V>, Dict<K, V>)>)
    ensures r == Err(EmptyContainer) <==> d.Length() == 0
    ensures r == Err(IndexOutOfRange) <==> d.Length() > 0 && !(-(d.Length() as int) <= index < d.Length())
    ensures r.Ok? <==> -(d.Length() as int) <= index < d.Length()
    ensures r.Ok? ==>
      var n := Normalize(d.Length(), index);
      && 0 <= n < d.Length()
      && r.value.0 == d.entries[n]
      && r.value.1.entries == d.entries[..n] + d.entries[n + 1..]
      && r.value.1.capacity == AfterRemove(d.Length() - 1, d.capacity)
    ensures r.Ok? && Valid(d) ==>
      && Valid(r.value.1)
      && r.value.0.key !in Keys(r.value.1.entries)
      && ToMap(r.value.1.entries) == ToMap(d.entries) - {r.value.0.key}
  {
    if d.Length() == 0 then Err(EmptyContainer)
    else
      var n := Normalize(d.Length(), index);
      if n >= d.Length() || n < 0 then Err(IndexOutOfRange)
      else
        var r := RemoveEntry(d, n);
        assert Valid(d) ==> ToMap(r.entries) == ToMap(d.entries) - {d.entries[n].key} by {
          if Valid(d) {
            RemovePreservesLookup(d.entries, n);
          }
        }
        Ok((d.entries[n], r))
  }

  /** Drop every entry and go back to a single slot: the state of a freshly
      constructed dictionary. */
  function Clear<K, V>(d: Dict<K, V>): (r: Dict<K, V>)
    ensures r == New()
  {
    Dict([], 1)
  }

  /** A second dictionary with its own buffer of the same capacity, holding
      the live entries copied slot by slot. */
  method Copy<K, V>(d: Dict<K, V>) returns (c: Dict<K, V>)
    ensures c.capacity == d.capacity
    ensures c.entries == d.entries
  {
    var buffer: seq<Entry<K, V>> := [];
    var i := 0;
    while i < d.Length()
      invariant 0 <= i <= d.Length()
      invariant buffer == d.entries[..i]
    {
      buffer := buffer + [d.entries[i]];
      i := i + 1;
    }
    c := Dict(buffer, d.capacity);
  }

  /** Apply `Set` for each entry of `os`, front to back: the outer loop of
      update, whose body is the scan-then-overwrite-or-append of set. */
  function Merge<K(==), V>(d: Dict<K, V>, os: seq<Entry<K, V>>): (r: Dict<K, V>)
    requires HasRoom(d)
    ensures HasRoom(r)
    ensures DistinctKeys(d.entries) ==> DistinctKeys(r.entries)
    ensures d.Length() <= r.Length()
    ensures forall j :: 0 <= j < d.Length() ==> r.entries[j].key == d.entries[j].key
    decreases |os|
  {
    if |os| == 0 then d
    else Merge(Set(d, os[0].key, os[0].value), os[1..])
  }

  /** The keys after the merge loop are the keys of both sides. */
  lemma {:induction false} MergeKeys<K, V>(d: Dict<K, V>, os: seq<Entry<K, V>>)
    requires HasRoom(d)
    ensures Keys(Merge(d, os).entries) == Keys(d.entries) + Keys(os)
    decreases |os|
  {
    if |os| > 0 {
      KeysCons(os);
      MergeKeys(Set(d, os[0].key, os[0].value), os[1..]);
    }
  }

  /** Copy every entry of `other` into `d`: shared keys take `other`'s value
      in place, new keys are appended. */
  function Update<K(==), V>(d: Dict<K, V>, other: Dict<K, V>): (r: Dict<K, V>)
    requires HasRoom(d)
    ensures HasRoom(r)
    ensures DistinctKeys(d.entries) ==> DistinctKeys(r.entries)
    ensures Keys(r.entries) == Keys(d.entries) + Keys(other.entries)
  {
    MergeKeys(d, other.entries);
    Merge(d, other.entries)
  }
}
