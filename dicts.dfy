/** Python dicts as sequences of (key, value) pairs in insertion order: assignment
    replaces a value in place or appends a new key, `del` drops a key, and `update`
    assigns every pair of another dict in its order. */
module Dicts {
  import opened Wrappers
  import opened Seqs

  type Dict<K, V> = seq<(K, V)>

  function Keys<K, V>(d: Dict<K, V>): (ks: seq<K>)
    ensures |ks| == |d|
    ensures forall i :: 0 <= i < |d| ==> ks[i] == d[i].0
  {
    seq(|d|, i requires 0 <= i < |d| => d[i].0)
  }

  /** A dict never holds a key twice. */
  predicate Distinct<K(==), V>(d: Dict<K, V>)
  {
    NoDuplicates(Keys(d))
  }

  lemma KeysCons<K, V>(d: Dict<K, V>)
    requires d != []
    ensures Keys(d) == [d[0].0] + Keys(d[1..])
  {
  }

  /** d.get(k): the value stored under `k`, if any. */
  function Get<K(==), V>(d: Dict<K, V>, k: K): Option<V>
  {
    if d == [] then None else if d[0].0 == k then Some(d[0].1) else Get(d[1..], k)
  }

  /** d[k] = v */
  function Put<K(==), V>(d: Dict<K, V>, k: K, v: V): Dict<K, V>
  {
    if d == [] then [(k, v)]
    else if d[0].0 == k then [(k, v)] + d[1..]
    else [d[0]] + Put(d[1..], k, v)
  }

  /** del d[k] (for a key that is present; absent keys are left as they are) */
  function Remove<K(==), V>(d: Dict<K, V>, k: K): Dict<K, V>
  {
    if d == [] then [] else (if d[0].0 == k then [] else [d[0]]) + Remove(d[1..], k)
  }

  /** d.update(e) */
  function Update<K(==), V>(d: Dict<K, V>, e: Dict<K, V>): Dict<K, V>
    decreases |e|
  {
    if e == [] then d else Update(Put(d, e[0].0, e[0].1), e[1..])
  }

  lemma {:induction false} GetSome<K, V>(d: Dict<K, V>, k: K)
    ensures Get(d, k).Some? <==> k in Keys(d)
  {
    if d != [] {
      GetSome(d[1..], k);
      KeysCons(d);
    }
  }

  lemma {:induction false} GetPut<K, V>(d: Dict<K, V>, k: K, v: V, k': K)
    ensures Get(Put(d, k, v), k') == if k' == k then Some(v) else Get(d, k')
  {
    if d != [] && d[0].0 != k {
      GetPut(d[1..], k, v, k');
    }
  }

  lemma {:induction false} KeysPut<K, V>(d: Dict<K, V>, k: K, v: V)
    ensures Keys(Put(d, k, v)) == if k in Keys(d) then Keys(d) else Keys(d) + [k]
  {
    if d != [] {
      KeysCons(d);
      KeysCons(Put(d, k, v));
      if d[0].0 != k {
        KeysPut(d[1..], k, v);
      }
    }
  }

  lemma DistinctPut<K, V>(d: Dict<K, V>, k: K, v: V)
    requires Distinct(d)
    ensures Distinct(Put(d, k, v))
  {
    KeysPut(d, k, v);
  }

  lemma {:induction false} GetRemove<K, V>(d: Dict<K, V>, k: K, k': K)
    ensures Get(Remove(d, k), k') == if k' == k then None else Get(d, k')
  {
    if d != [] {
      GetRemove(d[1..], k, k');
      var rest := Remove(d[1..], k);
      if d[0].0 != k {
        assert Remove(d, k) == [d[0]] + rest;
        assert ([d[0]] + rest)[1..] == rest;
      } else {
        assert Remove(d, k) == rest;
      }
    }
  }

  lemma {:induction false} KeysRemove<K, V>(d: Dict<K, V>, k: K)
    ensures Keys(Remove(d, k)) == Without(Keys(d), k)
  {
    if d != [] {
      KeysRemove(d[1..], k);
      var rest := Remove(d[1..], k);
      assert Keys(d)[0] == d[0].0 && Keys(d)[1..] == Keys(d[1..]);
      if d[0].0 != k {
        assert Remove(d, k) == [d[0]] + rest;
        assert Keys([d[0]] + rest) == [d[0].0] + Keys(rest);
      } else {
        assert Remove(d, k) == rest;
      }
    }
  }

  /** After d.update(e), a key holds e's value if e has it and d's value otherwise. */
  lemma {:induction false} GetUpdate<K, V>(d: Dict<K, V>, e: Dict<K, V>, k: K)
    requires Distinct(e)
    ensures Get(Update(d, e), k) == if k in Keys(e) then Get(e, k) else Get(d, k)
    decreases |e|
  {
    if e != [] {
      assert Keys(e) == [e[0].0] + Keys(e[1..]);
      GetUpdate(Put(d, e[0].0, e[0].1), e[1..], k);
      GetPut(d, e[0].0, e[0].1, k);
    }
  }

  /** d.update(e) keeps d's keys where they are and appends e's new keys in e's order. */
  lemma {:induction false} KeysUpdate<K, V>(d: Dict<K, V>, e: Dict<K, V>)
    requires Distinct(d)
    ensures Keys(Update(d, e)) == Dedup(Keys(d) + Keys(e))
    decreases |e|
  {
    if e == [] {
      DedupIdempotent(Keys(d));
      assert Keys(d) + Keys(e) == Keys(d);
    } else {
      var k0, v0 := e[0].0, e[0].1;
      var d' := Put(d, k0, v0);
      assert Keys(d) + Keys(e) == (Keys(d) + [k0]) + Keys(e[1..]) by {
        KeysCons(e);
      }
      DistinctPut(d, k0, v0);
      calc {
        Keys(Update(d, e));
        Keys(Update(d', e[1..]));
        { KeysUpdate(d', e[1..]); }
        Dedup(Keys(d') + Keys(e[1..]));
        { KeysPutDedup(d, k0, v0); }
        Dedup(Dedup(Keys(d) + [k0]) + Keys(e[1..]));
        { DedupOfDedup(Keys(d) + [k0], Keys(e[1..])); }
        Dedup(Keys(d) + Keys(e));
      }
    }
  }

  /** The keys after an assignment, as a first-seen deduplication. */
  lemma KeysPutDedup<K, V>(d: Dict<K, V>, k: K, v: V)
    requires Distinct(d)
    ensures Keys(Put(d, k, v)) == Dedup(Keys(d) + [k])
  {
    KeysPut(d, k, v);
    DedupSnoc(Keys(d), k);
    DedupIdempotent(Keys(d));
  }

  /** Assignment to a present key replaces the pair at its position; to a new key, appends. */
  lemma PutAt<K, V>(d: Dict<K, V>, k: K, v: V)
    ensures k in Keys(d) ==> Put(d, k, v) == d[FirstIndex(Keys(d), k) := (k, v)]
    ensures k !in Keys(d) ==> Put(d, k, v) == d + [(k, v)]
  {
    if k in Keys(d) {
      PutPresent(d, k, v);
    } else {
      PutAbsent(d, k, v);
    }
  }

  lemma {:induction false} PutPresent<K, V>(d: Dict<K, V>, k: K, v: V)
    requires k in Keys(d)
    ensures Put(d, k, v) == d[FirstIndex(Keys(d), k) := (k, v)]
  {
    if d[0].0 == k {
      assert FirstIndex(Keys(d), k) == 0;
      assert [(k, v)] + d[1..] == d[0 := (k, v)];
    } else {
      var rest := d[1..];
      assert k in Keys(rest) by {
        KeysCons(d);
      }
      var i := FirstIndex(Keys(rest), k);
      assert FirstIndex(Keys(d), k) == 1 + i by {
        KeysCons(d);
      }
      calc {
        Put(d, k, v);
        [d[0]] + Put(rest, k, v);
        { PutPresent(rest, k, v); }
        [d[0]] + rest[i := (k, v)];
        { ConsUpdate(d[0], rest, i, (k, v)); }
        ([d[0]] + rest)[1 + i := (k, v)];
        { assert [d[0]] + rest == d; }
        d[1 + i := (k, v)];
      }
    }
  }

  lemma {:induction false} PutAbsent<K, V>(d: Dict<K, V>, k: K, v: V)
    requires k !in Keys(d)
    ensures Put(d, k, v) == d + [(k, v)]
  {
    if d != [] {
      KeysCons(d);
      var rest := d[1..];
      PutAbsent(rest, k, v);
      assert [d[0]] + (rest + [(k, v)]) == d + [(k, v)];
    }
  }

  /** A present key's value is the one at its (first) position. */
  lemma {:induction false} GetAt<K, V>(d: Dict<K, V>, k: K)
    requires k in Keys(d)
    ensures Get(d, k) == Some(d[FirstIndex(Keys(d), k)].1)
  {
    KeysCons(d);
    if d[0].0 != k {
      GetAt(d[1..], k);
    }
  }
}
