/** What the operations mean for the key-to-value map a dictionary stands
    for, how they combine, and the invariant every reachable state keeps. */
module Properties {
  import opened Errors
  import opened Entries
  import opened Growth
  import opened Dictionary

  /** `Set` is map assignment on the denoted map. */
  lemma SetRefines<K, V>(d: Dict<K, V>, k: K, v: V)
    requires HasRoom(d)
    ensures ToMap(Set(d, k, v).entries) == ToMap(d.entries)[k := v]
  {
    var i := IndexOf(d.entries, k);
    if i >= 0 {
      ToMapSetValue(d.entries, i, v);
    } else {
      ToMapAppend(d.entries, Entry(k, v));
    }
  }

  /** A value just stored is the value read back. */
  lemma GetAfterSet<K, V>(d: Dict<K, V>, k: K, v: V)
    requires HasRoom(d)
    ensures Get(Set(d, k, v), k) == Ok(v)
  {
    SetRefines(d, k, v);
  }

  /** Storing under a key already present keeps the length; storing under a
      new key adds exactly one entry. */
  lemma SetLength<K, V>(d: Dict<K, V>, k: K, v: V)
    requires HasRoom(d)
    ensures Set(d, k, v).Length() == if Get(d, k).Ok? then d.Length() else d.Length() + 1
  {
  }

  /** Popping a key just stored returns its value, leaves one entry fewer
      than after the store, and leaves no entry with that key. Storing a new
      key and popping it gives back the original entries. */
  lemma PopAfterSet<K, V>(d: Dict<K, V>, k: K, v: V)
    requires Valid(d)
    ensures var s := Set(d, k, v);
      var p := Pop(s, k);
      && p.Ok?
      && p.value.0 == v
      && p.value.1.Length() == s.Length() - 1
      && IndexOf(p.value.1.entries, k) == -1
      && (Get(d, k).Err? ==> p.value.1.entries == d.entries)
  {
    var s := Set(d, k, v);
    GetAfterSet(d, k, v);
    if k !in Keys(d.entries) {
      IndexOfFirst(s.entries, k, d.Length());
      assert s.entries[..d.Length()] == d.entries;
    }
  }

  /** A negative position is the same as that many places back from the
      length: popindex(-1) removes the last entry. */
  lemma PopIndexFromEnd<K, V>(d: Dict<K, V>, index: int)
    requires -(d.Length() as int) <= index < 0
    ensures PopIndex(d, index) == PopIndex(d, d.Length() + index)
  {
  }

  /** Clearing twice is clearing once. */
  lemma ClearIdempotent<K, V>(d: Dict<K, V>)
    ensures Clear(Clear(d)) == Clear(d)
    ensures Clear(d).Length() == 0 && HasRoom(Clear(d))
  {
  }

  /** The merge loop on the denoted maps: keys of `os` take `os`'s values,
      all other keys keep theirs. */
  lemma {:induction false} MergeRefines<K, V>(d: Dict<K, V>, os: seq<Entry<K, V>>)
    requires HasRoom(d) && DistinctKeys(os)
    ensures ToMap(Merge(d, os).entries) == ToMap(d.entries) + ToMap(os)
    decreases |os|
  {
    if |os| > 0 {
      var o := os[0];
      var d' := Set(d, o.key, o.value);
      var tail := os[1..];
      var m, mt := ToMap(d.entries), ToMap(tail);
      assert HasRoom(d') && DistinctKeys(tail) && o.key !in mt by {
        DistinctKeysCons(os);
      }
      assert ToMap(Merge(d', tail).entries) == ToMap(d'.entries) + mt by {
        MergeRefines(d', tail);
      }
      assert ToMap(d'.entries) == m[o.key := o.value] by {
        SetRefines(d, o.key, o.value);
      }
      assert m[o.key := o.value] + mt == m + mt[o.key := o.value] by {
        AssignThenUnion(m, mt, o.key, o.value);
      }
      assert ToMap(os) == mt[o.key := o.value] by {
        ToMapCons(os);
      }
      assert Merge(d, os) == Merge(d', tail);
    }
  }

  /** Assigning a key the right-hand map lacks commutes with the union. */
  lemma AssignThenUnion<K, V>(m: map<K, V>, mt: map<K, V>, k: K, v: V)
    requires k !in mt
    ensures m[k := v] + mt == m + mt[k := v]
  {
  }

  /** The merge loop on the buffer: the existing entries keep their keys and
      positions, taking `os`'s value where `os` has their key, and the
      entries of `os` with new keys follow in `os`'s order. */
  lemma {:induction false} MergeLayout<K, V>(d: Dict<K, V>, os: seq<Entry<K, V>>)
    requires HasRoom(d) && DistinctKeys(d.entries) && DistinctKeys(os)
    ensures Merge(d, os).entries == Overridden(d.entries, ToMap(os)) + Without(os, Keys(d.entries))
    decreases |os|
  {
    if |os| > 0 {
      var d' := Set(d, os[0].key, os[0].value);
      DistinctKeysCons(os);
      MergeLayout(d', os[1..]);
      if os[0].key in Keys(d.entries) {
        MergeLayoutOverwrite(d, os);
      } else {
        MergeLayoutAppend(d, os);
      }
    } else {
      assert Overridden(d.entries, ToMap(os)) == d.entries;
    }
  }

  /** One step of the merge loop when the first key of `os` is present. */
  lemma MergeLayoutOverwrite<K, V>(d: Dict<K, V>, os: seq<Entry<K, V>>)
    requires HasRoom(d) && DistinctKeys(d.entries) && DistinctKeys(os)
    requires |os| > 0 && os[0].key in Keys(d.entries)
    requires var d' := Set(d, os[0].key, os[0].value);
      Merge(d', os[1..]).entries == Overridden(d'.entries, ToMap(os[1..])) + Without(os[1..], Keys(d'.entries))
    ensures Merge(d, os).entries == Overridden(d.entries, ToMap(os)) + Without(os, Keys(d.entries))
  {
    var d' := Set(d, os[0].key, os[0].value);
    var i := IndexOf(d.entries, os[0].key);
    assert Merge(d, os) == Merge(d', os[1..]);
    assert d'.entries == d.entries[i := d.entries[i].(value := os[0].value)];
    OverwriteStepLayout(d.entries, i, os, Merge(d', os[1..]).entries);
  }

  /** One step of the merge loop when the first key of `os` is new. */
  lemma MergeLayoutAppend<K, V>(d: Dict<K, V>, os: seq<Entry<K, V>>)
    requires HasRoom(d) && DistinctKeys(d.entries) && DistinctKeys(os)
    requires |os| > 0 && os[0].key !in Keys(d.entries)
    requires var d' := Set(d, os[0].key, os[0].value);
      Merge(d', os[1..]).entries == Overridden(d'.entries, ToMap(os[1..])) + Without(os[1..], Keys(d'.entries))
    ensures Merge(d, os).entries == Overridden(d.entries, ToMap(os)) + Without(os, Keys(d.entries))
  {
    var d' := Set(d, os[0].key, os[0].value);
    assert Merge(d, os) == Merge(d', os[1..]);
    assert d'.entries == d.entries + [os[0]];
    assert Keys(d'.entries) == Keys(d.entries) + {os[0].key};
    AppendStepLayout(d.entries, os, Merge(d', os[1..]).entries);
  }

  /** The layout equation of an overwrite step: the buffer after setting
      the present key `os[0].key` at slot `i`, then merging the rest, is the
      layout of merging all of `os` into the buffer before. */
  lemma OverwriteStepLayout<K, V>(es: seq<Entry<K, V>>, i: nat, os: seq<Entry<K, V>>, rest: seq<Entry<K, V>>)
    requires DistinctKeys(es) && DistinctKeys(os) && |os| > 0
    requires i < |es| && es[i].key == os[0].key
    requires var es' := es[i := es[i].(value := os[0].value)];
      rest == Overridden(es', ToMap(os[1..])) + Without(os[1..], Keys(es'))
    ensures rest == Overridden(es, ToMap(os)) + Without(os, Keys(es))
  {
    var o, tail := os[0], os[1..];
    var es' := es[i := es[i].(value := o.value)];
    var ks, mt := Keys(es), ToMap(tail);
    assert o.key !in mt by {
      DistinctKeysCons(os);
    }
    assert ToMap(os) == mt[o.key := o.value];
    assert Overridden(es', mt) == Overridden(es, mt[o.key := o.value]) by {
      OverriddenAssign(es, i, o.value, mt);
    }
    assert Keys(es') == ks by {
      KeysSetValue(es, i, o.value);
    }
    assert o.key in ks;
    assert Without(os, ks) == Without(tail, ks);
  }

  /** The layout equation of an append step: appending the new key
      `os[0].key` and then merging the rest gives the layout of merging all
      of `os` into the buffer before. */
  lemma AppendStepLayout<K, V>(es: seq<Entry<K, V>>, os: seq<Entry<K, V>>, rest: seq<Entry<K, V>>)
    requires DistinctKeys(os) && |os| > 0 && os[0].key !in Keys(es)
    requires rest == Overridden(es + [os[0]], ToMap(os[1..])) + Without(os[1..], Keys(es) + {os[0].key})
    ensures rest == Overridden(es, ToMap(os)) + Without(os, Keys(es))
  {
    var ov, w := Overridden(es, ToMap(os)), Without(os[1..], Keys(es));
    AppendPieces(es, os);
    ConcatAssoc(ov, [os[0]], w);
  }

  /** Associativity of concatenation, stated apart so the layout proofs
      use it as one fact instead of re-deriving sequence equality. */
  lemma ConcatAssoc<T>(a: seq<T>, b: seq<T>, c: seq<T>)
    ensures (a + b) + c == a + (b + c)
  {
  }

  /** The three pieces of an append step, each in terms of the state before. */
  lemma AppendPieces<K, V>(es: seq<Entry<K, V>>, os: seq<Entry<K, V>>)
    requires DistinctKeys(os) && |os| > 0 && os[0].key !in Keys(es)
    ensures Overridden(es + [os[0]], ToMap(os[1..])) == Overridden(es, ToMap(os)) + [os[0]]
    ensures Without(os[1..], Keys(es) + {os[0].key}) == Without(os[1..], Keys(es))
    ensures Without(os, Keys(es)) == [os[0]] + Without(os[1..], Keys(es))
  {
    var o, tail := os[0], os[1..];
    DistinctKeysCons(os);
    assert ToMap(os) == ToMap(tail)[o.key := o.value];
    OverriddenAppend(es, o, ToMap(tail));
    WithoutIgnores(tail, Keys(es), o.key);
  }

  /** Adding to the excluded keys one that does not occur changes nothing. */
  lemma {:induction false} WithoutIgnores<K, V>(es: seq<Entry<K, V>>, ks: set<K>, k: K)
    requires k !in Keys(es)
    ensures Without(es, ks + {k}) == Without(es, ks)
    decreases |es|
  {
    if |es| > 0 {
      KeysCons(es);
      WithoutIgnores(es[1..], ks, k);
    }
  }

  /** update(self, other): every key of `other` ends up with `other`'s value,
      keys only in `self` keep their values and positions, new keys are
      appended in `other`'s order, and the length is the size of the union
      of the two key sets. */
  lemma UpdateSemantics<K, V>(d: Dict<K, V>, other: Dict<K, V>)
    requires Valid(d) && DistinctKeys(other.entries)
    ensures var r := Update(d, other);
      && Valid(r)
      && ToMap(r.entries) == ToMap(d.entries) + ToMap(other.entries)
      && r.entries == Overridden(d.entries, ToMap(other.entries)) + Without(other.entries, Keys(d.entries))
      && r.Length() == |Keys(d.entries) + Keys(other.entries)|
  {
    var r := Update(d, other);
    MergeRefines(d, other.entries);
    MergeLayout(d, other.entries);
    DistinctKeysCount(r.entries);
  }

  /** The state-changing operations. A failed pop or popindex leaves the
      dictionary as it was. */
  datatype Op<K, V> =
    | SetOp(key: K, value: V)
    | PopOp(key: K)
    | PopIndexOp(index: int)
    | ClearOp
    | UpdateOp(other: Dict<K, V>)

  /** Apply one state-changing operation to a valid dictionary. */
  function Step<K(==), V>(d: Dict<K, V>, op: Op<K, V>): (r: Dict<K, V>)
    requires Valid(d)
    ensures Valid(r)
  {
    match op
    case SetOp(k, v) => Set(d, k, v)
    case PopOp(k) => (var p := Pop(d, k); if p.Ok? then p.value.1 else d)
    case PopIndexOp(i) => (var p := PopIndex(d, i); if p.Ok? then p.value.1 else d)
    case ClearOp => Clear(d)
    case UpdateOp(other) => Update(d, other)
  }

  /** The dictionary a fresh construction followed by `ops` produces. Every
      such state keeps its keys distinct and its length strictly below its
      capacity (so capacity is at least 1). */
  function Run<K(==), V>(ops: seq<Op<K, V>>): (r: Dict<K, V>)
    ensures Valid(r)
    ensures r.capacity >= 1
  {
    if |ops| == 0 then New() else Step(Run(ops[..|ops| - 1]), ops[|ops| - 1])
  }
}
