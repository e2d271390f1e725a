/** Python dictionaries whose insertion order reaches the output (`group_summary`, the
    `Counter`s turned into `dict`s), modelled as association lists: assigning to an
    existing key updates it where it stands, a new key is appended at the end. */
module OrderedDicts {
  import opened Options

  type Dict<K, V> = seq<(K, V)>

  /** The keys in insertion order (`list(d)`). */
  function Keys<K, V>(d: Dict<K, V>): seq<K>
  {
    if d == [] then [] else [d[0].0] + Keys(d[1..])
  }

  /** `d.get(k)`. */
  function Get<K(==), V>(d: Dict<K, V>, k: K): Option<V>
  {
    if d == [] then None
    else if d[0].0 == k then Some(d[0].1)
    else Get(d[1..], k)
  }

  /** `d[k] = v`: the key keeps its position if present, otherwise it goes last. */
  function Put<K(==), V>(d: Dict<K, V>, k: K, v: V): Dict<K, V>
  {
    if d == [] then [(k, v)]
    else if d[0].0 == k then [(k, v)] + d[1..]
    else [d[0]] + Put(d[1..], k, v)
  }

  /** A key is found exactly when it is among the keys. */
  lemma {:induction false} GetFound<K, V>(d: Dict<K, V>, k: K)
    ensures Get(d, k).Some? <==> k in Keys(d)
  {
    if d != [] {
      GetFound(d[1..], k);
    }
  }

  /** After `d[k] = v`, looking up `k` gives `v` and every other key is unaffected. */
  lemma {:induction false} GetPut<K, V>(d: Dict<K, V>, k: K, v: V, k': K)
    ensures Get(Put(d, k, v), k') == if k' == k then Some(v) else Get(d, k')
  {
    if d != [] && d[0].0 != k {
      GetPut(d[1..], k, v, k');
      assert ([d[0]] + Put(d[1..], k, v))[1..] == Put(d[1..], k, v);
    } else if d != [] {
      assert ([(k, v)] + d[1..])[1..] == d[1..];
    }
  }

  /** Assigning keeps the key order: an existing key stays where it is, a new key is
      appended. */
  lemma {:induction false} PutKeys<K, V>(d: Dict<K, V>, k: K, v: V)
    ensures Keys(Put(d, k, v)) == if k in Keys(d) then Keys(d) else Keys(d) + [k]
  {
    if d == [] {
      assert Keys<K, V>([(k, v)]) == [k] + Keys<K, V>([]);
    } else if d[0].0 == k {
      assert ([(k, v)] + d[1..])[1..] == d[1..];
    } else {
      PutKeys(d[1..], k, v);
      assert ([d[0]] + Put(d[1..], k, v))[1..] == Put(d[1..], k, v);
      assert Keys(d) == [d[0].0] + Keys(d[1..]);
    }
  }

  lemma {:induction false} KeysLength<K, V>(d: Dict<K, V>)
    ensures |Keys(d)| == |d|
  {
    if d != [] {
      KeysLength(d[1..]);
    }
  }

  /** `len(d)` grows by one exactly when the key is new. */
  lemma PutLength<K, V>(d: Dict<K, V>, k: K, v: V)
    ensures |Put(d, k, v)| == |d| + (if k in Keys(d) then 0 else 1)
  {
    PutKeys(d, k, v);
    KeysLength(d);
    KeysLength(Put(d, k, v));
  }

  /** Assigning the same key twice keeps only the second value, in the first one's place. */
  lemma {:induction false} PutPut<K, V>(d: Dict<K, V>, k: K, v: V, w: V)
    ensures Put(Put(d, k, v), k, w) == Put(d, k, w)
  {
    if d != [] && d[0].0 != k {
      PutPut(d[1..], k, v, w);
      assert ([d[0]] + Put(d[1..], k, v))[1..] == Put(d[1..], k, v);
    } else if d != [] {
      assert ([(k, v)] + d[1..])[1..] == d[1..];
    }
  }

  /** Every entry after an assignment is the new one or an entry that was already there. */
  lemma {:induction false} PutEntries<K, V>(d: Dict<K, V>, k: K, v: V, e: (K, V))
    requires e in Put(d, k, v)
    ensures e == (k, v) || e in d
  {
    if d != [] && d[0].0 != k {
      if e != d[0] {
        assert e in Put(d[1..], k, v);
        PutEntries(d[1..], k, v, e);
      }
    } else if d != [] {
      assert e == (k, v) || e in d[1..];
    }
  }

  /** A value found for a key is stored in an entry for that key. */
  lemma {:induction false} GetEntry<K, V>(d: Dict<K, V>, k: K)
    requires Get(d, k).Some?
    ensures (k, Get(d, k).value) in d
  {
    if d[0].0 != k {
      GetEntry(d[1..], k);
    }
  }

  /** `d.values()` in insertion order. */
  function Values<K, V>(d: Dict<K, V>): (vs: seq<V>)
    ensures |vs| == |d|
    ensures forall i :: 0 <= i < |d| ==> vs[i] == d[i].1
  {
    if d == [] then [] else [d[0].1] + Values(d[1..])
  }

  /** `counter[k]` of a `Counter`: zero for a missing key. */
  function Count<K(==)>(d: Dict<K, nat>, k: K): nat {
    Get(d, k).GetOr(0)
  }

  /** `counter[k] += n`: inserts the key even when `n` is zero. */
  function Add<K(==)>(d: Dict<K, nat>, k: K, n: nat): Dict<K, nat>
  {
    Put<K, nat>(d, k, Count(d, k) + n)
  }

  /** Incrementing one key of a counter raises that key's count by `n` and leaves every
      other key's count alone. */
  lemma CountAdd<K>(d: Dict<K, nat>, k: K, n: nat, k': K)
    ensures Count(Add(d, k, n), k') == Count(d, k') + (if k' == k then n else 0)
  {
    GetPut<K, nat>(d, k, Count(d, k) + n, k');
  }

  /** `sum(counter.values())`. */
  function Total<K>(d: Dict<K, nat>): nat {
    if d == [] then 0 else d[0].1 + Total(d[1..])
  }

  lemma {:induction false} TotalPut<K>(d: Dict<K, nat>, k: K, v: nat)
    ensures Total(Put(d, k, v)) + Count(d, k) == Total(d) + v
  {
    if d != [] && d[0].0 != k {
      TotalPut(d[1..], k, v);
      assert ([d[0]] + Put(d[1..], k, v))[1..] == Put(d[1..], k, v);
    } else if d != [] {
      assert ([(k, v)] + d[1..])[1..] == d[1..];
    }
  }

  /** Incrementing a counter by `n` raises the sum of its values by exactly `n`. */
  lemma TotalAdd<K>(d: Dict<K, nat>, k: K, n: nat)
    ensures Total(Add(d, k, n)) == Total(d) + n
  {
    TotalPut<K>(d, k, Count(d, k) + n);
  }
}
