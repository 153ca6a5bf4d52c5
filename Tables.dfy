/** The state of a separate-chaining hash table (HashMap.hpp) as a value, the
    transitions its operations make, and the properties of those transitions.

    A table is an array of `capacity` buckets; a bucket is the ordered list of
    (key, value) entries whose key hashes to that slot.  The hash function of
    the key type is a parameter `hash` of every definition here. */
module Tables {
  import opened Bits

  datatype Option<T> = None | Some(value: T)

  /** std::pair<KeyT, ValueT> */
  datatype Entry<K, V> = Entry(key: K, value: V)

  /** An exact rational num / den.  The cached load factor is kept as the
      size and the capacity it was computed from; with a power-of-two
      denominator the source's double holds this value exactly. */
  datatype Ratio = Ratio(num: nat, den: nat)

  const StartCapacity: nat := 16
  const HigherBound: Ratio := Ratio(3, 4)
  const LowerBound: Ratio := Ratio(1, 4)

  /** a < b */
  predicate Less(a: Ratio, b: Ratio) {
    a.num * b.den < b.num * a.den
  }

  /** a and b denote the same number */
  predicate SameValue(a: Ratio, b: Ratio) {
    a.num * b.den == b.num * a.den
  }

  /** The bucket a key belongs in: hash(k) % cap (the source writes
      hash(k) & (cap - 1), equal for a power-of-two cap, see Bits.MaskIsMod). */
  function Slot<K>(hash: K -> nat, k: K, cap: nat): nat
    requires cap > 0
  {
    hash(k) % cap
  }

  // ------------------------------------------------------------------
  // Entry sequences

  /** The value of the first entry with key k, as the bucket scans of the
      source find it. */
  function Find<K(==), V>(es: seq<Entry<K, V>>, k: K): Option<V> {
    if es == [] then None
    else if es[0].key == k then Some(es[0].value)
    else Find(es[1..], k)
  }

  predicate HasKey<K(==), V>(es: seq<Entry<K, V>>, k: K) {
    Find(es, k).Some?
  }

  /** No key occurs twice. */
  predicate UniqueKeys<K(==), V>(es: seq<Entry<K, V>>) {
    es == [] || (!HasKey(es[1..], es[0].key) && UniqueKeys(es[1..]))
  }

  /** The entries without the first one whose key is k (vector::erase of the
      position the scan found). */
  function RemoveKey<K(==), V>(es: seq<Entry<K, V>>, k: K): seq<Entry<K, V>> {
    if es == [] then []
    else if es[0].key == k then es[1..]
    else [es[0]] + RemoveKey(es[1..], k)
  }

  /** The entries with the value of the first one whose key is k replaced by v
      (an assignment through the reference that `at` returns). */
  function ReplaceValue<K(==), V>(es: seq<Entry<K, V>>, k: K, v: V): seq<Entry<K, V>> {
    if es == [] then []
    else if es[0].key == k then [Entry(k, v)] + es[1..]
    else [es[0]] + ReplaceValue(es[1..], k, v)
  }

  /** The entries of es that belong in bucket j of a cap-bucket table, in order. */
  function Filter<K, V>(es: seq<Entry<K, V>>, hash: K -> nat, cap: nat, j: nat): seq<Entry<K, V>>
    requires cap > 0
  {
    if es == [] then []
    else (if Slot(hash, es[0].key, cap) == j then [es[0]] else []) + Filter(es[1..], hash, cap, j)
  }

  /** Every entry of es belongs in bucket j. */
  ghost predicate AllInSlot<K, V>(es: seq<Entry<K, V>>, hash: K -> nat, cap: nat, j: nat)
    requires cap > 0
  {
    forall e | e in es :: Slot(hash, e.key, cap) == j
  }

  // ------------------------------------------------------------------
  // Bucket arrays

  /** The entries of all buckets, bucket 0 first, each bucket in stored order:
      the order in which the table's iterator visits them. */
  function Flatten<K, V>(bs: seq<seq<Entry<K, V>>>): seq<Entry<K, V>> {
    if bs == [] then [] else Flatten(bs[..|bs| - 1]) + bs[|bs| - 1]
  }

  /** The key-value binding the table represents. */
  function Lookup<K(==), V>(bs: seq<seq<Entry<K, V>>>, k: K): Option<V> {
    Find(Flatten(bs), k)
  }

  /** The buckets of a fresh cap-bucket array after appending the entries of es
      in order, each to the bucket of its key (the loop of `_reSize`). */
  function Rehash<K, V>(es: seq<Entry<K, V>>, hash: K -> nat, cap: nat): (r: seq<seq<Entry<K, V>>>)
    requires cap > 0
    ensures |r| == cap
  {
    if es == [] then seq(cap, _ => [])
    else
      var r := Rehash(es[..|es| - 1], hash, cap);
      var e := es[|es| - 1];
      var j := Slot(hash, e.key, cap);
      r[j := r[j] + [e]]
  }

  ghost predicate WellPlaced<K, V>(bs: seq<seq<Entry<K, V>>>, hash: K -> nat, cap: nat)
    requires cap > 0
  {
    forall b | 0 <= b < |bs| :: AllInSlot(bs[b], hash, cap, b)
  }

  /** cap buckets, every entry in the bucket of its key, no key twice in a bucket. */
  ghost predicate BucketsOk<K, V>(bs: seq<seq<Entry<K, V>>>, hash: K -> nat, cap: nat) {
    && cap > 0
    && |bs| == cap
    && WellPlaced(bs, hash, cap)
    && (forall b | 0 <= b < |bs| :: UniqueKeys(bs[b]))
  }

  // ------------------------------------------------------------------
  // The table

  datatype Table<K, V> = Table(buckets: seq<seq<Entry<K, V>>>, size: nat, capacity: nat, lf: Ratio)

  /** The invariant of HashMap: capacity a power of two (at least 1, and 1
      only while empty), every key in its own bucket and only once, size the
      number of entries, and the cached load factor computed from the current
      size and the current capacity or, after a resize, the one before it. */
  ghost predicate Valid<K, V>(t: Table<K, V>, hash: K -> nat) {
    && IsPow2(t.capacity)
    && (t.capacity == 1 ==> t.size == 0)
    && BucketsOk(t.buckets, hash, t.capacity)
    && t.size == |Flatten(t.buckets)|
    && t.lf.num == t.size
    && (t.lf.den == t.capacity || t.lf.den == 2 * t.capacity || 2 * t.lf.den == t.capacity)
  }

  /** As many buckets as the capacity says, and at least one: what the
      transitions below need in order to index a bucket. */
  predicate Shaped<K, V>(t: Table<K, V>) {
    0 < t.capacity == |t.buckets|
  }

  /** Shaped, with the size counting the entries, and no entry in a table of
      capacity one: what erase needs in order to shrink and halve. */
  predicate Counted<K, V>(t: Table<K, V>) {
    && Shaped(t)
    && t.size == |Flatten(t.buckets)|
    && (t.capacity == 1 ==> t.size == 0)
  }

  /** The default constructor's table. */
  function Empty<K, V>(): Table<K, V> {
    Table(seq(StartCapacity, _ => []), 0, StartCapacity, Ratio(0, StartCapacity))
  }

  /** `_reSize` doubles when the cached load factor is above 0.75 and halves otherwise. */
  function ResizedCapacity<K, V>(t: Table<K, V>): nat {
    if Less(HigherBound, t.lf) then 2 * t.capacity else t.capacity / 2
  }

  /** `_reSize`: new capacity, every entry re-appended in iteration order to
      the bucket of its key; size and the cached load factor are not touched. */
  function Resize<K, V>(t: Table<K, V>, hash: K -> nat): Table<K, V>
    requires ResizedCapacity(t) > 0
  {
    var cap := ResizedCapacity(t);
    Table(Rehash(Flatten(t.buckets), hash, cap), t.size, cap, t.lf)
  }

  /** `insert`: (new table, whether it inserted). */
  function Insert<K(==), V>(t: Table<K, V>, hash: K -> nat, k: K, v: V): (r: (Table<K, V>, bool))
    requires Shaped(t)
    ensures Shaped(r.0)
  {
    if HasKey(t.buckets[Slot(hash, k, t.capacity)], k) then (t, false)
    else
      var grown := t.(size := t.size + 1, lf := Ratio(t.size + 1, t.capacity));
      var placed := if !Less(grown.lf, HigherBound) then Resize(grown, hash) else grown;
      var j := Slot(hash, k, placed.capacity);
      (placed.(buckets := placed.buckets[j := placed.buckets[j] + [Entry(k, v)]]), true)
  }

  /** `erase`: (new table, whether it erased). */
  function Erase<K(==), V>(t: Table<K, V>, hash: K -> nat, k: K): (Table<K, V>, bool)
    requires Counted(t)
  {
    var j := Slot(hash, k, t.capacity);
    if !HasKey(t.buckets[j], k) then (t, false)
    else
      FlattenUpdate(t.buckets, j, []);
      var shrunk := t.(buckets := t.buckets[j := RemoveKey(t.buckets[j], k)],
                       size := t.size - 1, lf := Ratio(t.size - 1, t.capacity));
      (if !Less(LowerBound, shrunk.lf) then Resize(shrunk, hash) else shrunk, true)
  }

  /** `clear`: empty buckets, same capacity; nothing happens on an empty table. */
  function Clear<K, V>(t: Table<K, V>): Table<K, V> {
    if t.size == 0 then t
    else Table(seq(t.capacity, _ => []), 0, t.capacity, Ratio(0, t.capacity))
  }

  /** Assignment through the reference `at(k)` returns, for a present key. */
  function SetValue<K(==), V>(t: Table<K, V>, hash: K -> nat, k: K, v: V): (r: Table<K, V>)
    requires Shaped(t)
    ensures Shaped(r)
  {
    var j := Slot(hash, k, t.capacity);
    t.(buckets := t.buckets[j := ReplaceValue(t.buckets[j], k, v)])
  }

  /** Non-const `operator[]`: (new table, the value the returned reference
      denotes); a missing key is first inserted with the default value dflt. */
  function Subscript<K(==), V>(t: Table<K, V>, hash: K -> nat, dflt: V, k: K): (r: (Table<K, V>, V))
    requires Shaped(t)
    ensures Shaped(r.0)
  {
    var j := Slot(hash, k, t.capacity);
    if HasKey(t.buckets[j], k) then (t, Find(t.buckets[j], k).value)
    else (Insert(t, hash, k, dflt).0, dflt)
  }

  /** `operator[](k) = v`. */
  function SubscriptAssign<K(==), V>(t: Table<K, V>, hash: K -> nat, dflt: V, k: K, v: V): (r: Table<K, V>)
    requires Shaped(t)
    ensures Shaped(r)
  {
    var t1 := Subscript(t, hash, dflt, k).0;
    SetValue(t1, hash, k, v)
  }

  /** One step of the bulk constructor: insert, or overwrite through `operator[]`. */
  function BulkStep<K(==), V>(t: Table<K, V>, hash: K -> nat, dflt: V, k: K, v: V): (r: Table<K, V>)
    requires Shaped(t)
    ensures Shaped(r)
  {
    var (t1, ok) := Insert(t, hash, k, v);
    if ok then t1 else SubscriptAssign(t, hash, dflt, k, v)
  }

  /** The bulk constructor's loop over equally long keys and values. */
  function Bulk<K(==), V>(t: Table<K, V>, hash: K -> nat, dflt: V, keys: seq<K>, values: seq<V>): (r: Table<K, V>)
    requires Shaped(t) && |keys| == |values|
    ensures Shaped(r)
  {
    if keys == [] then t
    else
      var n := |keys| - 1;
      var r := Bulk(t, hash, dflt, keys[..n], values[..n]);
      BulkStep(r, hash, dflt, keys[n], values[n])
  }

  /** Inserting the entries es in order (the copy constructor's loop). */
  function InsertAll<K(==), V>(t: Table<K, V>, hash: K -> nat, es: seq<Entry<K, V>>): (r: Table<K, V>)
    requires Shaped(t)
    ensures Shaped(r)
  {
    if es == [] then t
    else
      var r := InsertAll(t, hash, es[..|es| - 1]);
      var e := es[|es| - 1];
      Insert(r, hash, e.key, e.value).0
  }

  /** `operator==` of HashMap: same size, capacity and cached load factor, and
      the same entries in iteration order. */
  predicate Equal<K(==), V(==)>(t1: Table<K, V>, t2: Table<K, V>) {
    && t1.size == t2.size
    && t1.capacity == t2.capacity
    && SameValue(t1.lf, t2.lf)
    && Flatten(t1.buckets) == Flatten(t2.buckets)
  }

  // ==================================================================
  // Lemmas: entry sequences

  lemma {:induction false} FindAppend<K, V>(a: seq<Entry<K, V>>, b: seq<Entry<K, V>>, k: K)
    ensures Find(a + b, k) == if HasKey(a, k) then Find(a, k) else Find(b, k)
  {
    if a == [] {
      assert a + b == b;
    } else {
      assert (a + b)[0] == a[0];
      assert (a + b)[1..] == a[1..] + b;
      FindAppend(a[1..], b, k);
    }
  }

  /** The first entry with key k decides the lookup. */
  lemma {:induction false} FindAt<K, V>(es: seq<Entry<K, V>>, k: K, i: nat)
    requires i < |es| && es[i].key == k
    requires forall m | 0 <= m < i :: es[m].key != k
    ensures Find(es, k) == Some(es[i].value)
  {
    if i > 0 {
      FindAt(es[1..], k, i - 1);
    }
  }

  lemma {:induction false} FindAbsent<K, V>(es: seq<Entry<K, V>>, k: K)
    requires forall m | 0 <= m < |es| :: es[m].key != k
    ensures Find(es, k) == None
  {
    if es != [] {
      FindAbsent(es[1..], k);
    }
  }

  /** A found value belongs to an entry of es with that key. */
  lemma {:induction false} FindIn<K, V>(es: seq<Entry<K, V>>, k: K)
    requires HasKey(es, k)
    ensures Entry(k, Find(es, k).value) in es
  {
    if es[0].key != k {
      FindIn(es[1..], k);
    }
  }

  lemma {:induction false} HasKeySlot<K, V>(es: seq<Entry<K, V>>, hash: K -> nat, cap: nat, j: nat, k: K)
    requires cap > 0 && AllInSlot(es, hash, cap, j) && HasKey(es, k)
    ensures Slot(hash, k, cap) == j
  {
    FindIn(es, k);
  }

  lemma {:induction false} UniqueAppend<K, V>(es: seq<Entry<K, V>>, e: Entry<K, V>)
    requires UniqueKeys(es) && !HasKey(es, e.key)
    ensures UniqueKeys(es + [e])
  {
    if es != [] {
      assert (es + [e])[1..] == es[1..] + [e];
      FindAppend(es[1..], [e], es[0].key);
      UniqueAppend(es[1..], e);
    }
  }

  /** Concatenating two unique sequences with no key in common. */
  lemma {:induction false} UniqueConcat<K, V>(a: seq<Entry<K, V>>, b: seq<Entry<K, V>>)
    requires UniqueKeys(a) && UniqueKeys(b)
    requires forall k :: HasKey(a, k) ==> !HasKey(b, k)
    ensures UniqueKeys(a + b)
  {
    if a == [] {
      assert a + b == b;
    } else {
      assert (a + b)[0] == a[0];
      assert (a + b)[1..] == a[1..] + b;
      forall k | HasKey(a[1..], k) ensures !HasKey(b, k) {
        FindAppend([a[0]], a[1..], k);
        assert [a[0]] + a[1..] == a;
      }
      UniqueConcat(a[1..], b);
      FindAppend(a[1..], b, a[0].key);
      assert HasKey(a, a[0].key);
      assert !HasKey(b, a[0].key);
      assert !HasKey(a[1..] + b, a[0].key);
    }
  }

  lemma {:induction false} RemoveAt<K, V>(es: seq<Entry<K, V>>, k: K, i: nat)
    requires i < |es| && es[i].key == k
    requires forall m | 0 <= m < i :: es[m].key != k
    ensures RemoveKey(es, k) == es[..i] + es[i + 1..]
  {
    if i > 0 {
      RemoveAt(es[1..], k, i - 1);
      assert es[..i] == [es[0]] + es[1..][..i - 1];
      assert es[i + 1..] == es[1..][i..];
    }
  }

  lemma {:induction false} ReplaceAt<K, V>(es: seq<Entry<K, V>>, k: K, v: V, i: nat)
    requires i < |es| && es[i].key == k
    requires forall m | 0 <= m < i :: es[m].key != k
    ensures ReplaceValue(es, k, v) == es[i := Entry(k, v)]
  {
    if i > 0 {
      ReplaceAt(es[1..], k, v, i - 1);
    }
  }

  /** Erasing the entry of k: k is gone, nothing else changes, the order and
      multiset of the rest are kept, uniqueness is kept. */
  lemma {:induction false} RemoveFacts<K, V>(es: seq<Entry<K, V>>, k: K)
    requires UniqueKeys(es) && HasKey(es, k)
    ensures UniqueKeys(RemoveKey(es, k))
    ensures forall k2 :: Find(RemoveKey(es, k), k2) == if k2 == k then None else Find(es, k2)
    ensures multiset(RemoveKey(es, k)) + multiset{Entry(k, Find(es, k).value)} == multiset(es)
    ensures forall e | e in RemoveKey(es, k) :: e in es
  {
    var r := RemoveKey(es, k);
    if es[0].key == k {
      forall k2 ensures Find(r, k2) == if k2 == k then None else Find(es, k2) {
      }
      assert es == [es[0]] + es[1..];
    } else {
      RemoveFacts(es[1..], k);
      var r1 := RemoveKey(es[1..], k);
      assert r == [es[0]] + r1;
      assert r[1..] == r1;
      forall k2 ensures Find(r, k2) == if k2 == k then None else Find(es, k2) {
      }
      assert es == [es[0]] + es[1..];
    }
  }

  /** Overwriting the value of k keeps the keys and the uniqueness. */
  lemma {:induction false} ReplaceFacts<K, V>(es: seq<Entry<K, V>>, k: K, v: V)
    requires UniqueKeys(es) && HasKey(es, k)
    ensures UniqueKeys(ReplaceValue(es, k, v)) && |ReplaceValue(es, k, v)| == |es|
    ensures forall k2 :: Find(ReplaceValue(es, k, v), k2) == if k2 == k then Some(v) else Find(es, k2)
    ensures forall e | e in ReplaceValue(es, k, v) :: e == Entry(k, v) || e in es
  {
    var r := ReplaceValue(es, k, v);
    if es[0].key == k {
      assert r[1..] == es[1..];
      forall k2 ensures Find(r, k2) == if k2 == k then Some(v) else Find(es, k2) {
      }
    } else {
      ReplaceFacts(es[1..], k, v);
      var r1 := ReplaceValue(es[1..], k, v);
      assert r == [es[0]] + r1;
      assert r[1..] == r1;
      forall k2 ensures Find(r, k2) == if k2 == k then Some(v) else Find(es, k2) {
      }
    }
  }

  lemma {:induction false} FilterAppend<K, V>(a: seq<Entry<K, V>>, b: seq<Entry<K, V>>, hash: K -> nat, cap: nat, j: nat)
    requires cap > 0
    ensures Filter(a + b, hash, cap, j) == Filter(a, hash, cap, j) + Filter(b, hash, cap, j)
  {
    if a == [] {
      assert a + b == b;
    } else {
      assert (a + b)[0] == a[0];
      assert (a + b)[1..] == a[1..] + b;
      FilterAppend(a[1..], b, hash, cap, j);
    }
  }

  /** The entries Filter keeps belong in bucket j, and come from es. */
  lemma {:induction false} FilterSlot<K, V>(es: seq<Entry<K, V>>, hash: K -> nat, cap: nat, j: nat)
    requires cap > 0
    ensures AllInSlot(Filter(es, hash, cap, j), hash, cap, j)
    ensures multiset(Filter(es, hash, cap, j)) <= multiset(es)
  {
    if es != [] {
      FilterSlot(es[1..], hash, cap, j);
      assert es == [es[0]] + es[1..];
    }
  }

  /** A bucket whose entries all belong in slot s passes the filter for s whole,
      and passes nothing for another slot. */
  lemma {:induction false} FilterOneSlot<K, V>(es: seq<Entry<K, V>>, hash: K -> nat, cap: nat, s: nat, j: nat)
    requires cap > 0 && AllInSlot(es, hash, cap, s)
    ensures Filter(es, hash, cap, j) == if s == j then es else []
  {
    if es != [] {
      assert es[0] in es;
      assert AllInSlot(es[1..], hash, cap, s) by {
        forall e | e in es[1..] ensures Slot(hash, e.key, cap) == s {
          assert e in es;
        }
      }
      FilterOneSlot(es[1..], hash, cap, s, j);
      assert es == [es[0]] + es[1..];
    }
  }

  /** Filtering by the slot of k does not change what a lookup of k finds. */
  lemma {:induction false} FindFilter<K, V>(es: seq<Entry<K, V>>, hash: K -> nat, cap: nat, k: K)
    requires cap > 0
    ensures Find(Filter(es, hash, cap, Slot(hash, k, cap)), k) == Find(es, k)
  {
    var j := Slot(hash, k, cap);
    if es != [] {
      FindFilter(es[1..], hash, cap, k);
      var head := if Slot(hash, es[0].key, cap) == j then [es[0]] else [];
      FindAppend(head, Filter(es[1..], hash, cap, j), k);
    }
  }

  lemma {:induction false} FilterUnique<K, V>(es: seq<Entry<K, V>>, hash: K -> nat, cap: nat, j: nat)
    requires cap > 0 && UniqueKeys(es)
    ensures UniqueKeys(Filter(es, hash, cap, j))
  {
    if es != [] {
      FilterUnique(es[1..], hash, cap, j);
      if Slot(hash, es[0].key, cap) == j {
        var f := Filter(es[1..], hash, cap, j);
        assert Filter(es, hash, cap, j) == [es[0]] + f;
        assert ([es[0]] + f)[1..] == f;
        if HasKey(f, es[0].key) {
          FindIn(f, es[0].key);
          FilterSlot(es[1..], hash, cap, j);
          assert Entry(es[0].key, Find(f, es[0].key).value) in multiset(es[1..]);
          HasKeyIfIn(es[1..], Entry(es[0].key, Find(f, es[0].key).value));
        }
      } else {
        assert Filter(es, hash, cap, j) == Filter(es[1..], hash, cap, j);
      }
    }
  }

  lemma {:induction false} HasKeyIfIn<K, V>(es: seq<Entry<K, V>>, e: Entry<K, V>)
    requires e in es
    ensures HasKey(es, e.key)
  {
    if es[0] != e && es[0].key != e.key {
      HasKeyIfIn(es[1..], e);
    }
  }

  // ==================================================================
  // Lemmas: bucket arrays

  /** Replacing bucket j by x changes the flattened entries by exactly that. */
  lemma FlattenUpdate<K, V>(bs: seq<seq<Entry<K, V>>>, j: nat, x: seq<Entry<K, V>>)
    requires j < |bs|
    ensures |Flatten(bs[j := x])| + |bs[j]| == |Flatten(bs)| + |x|
    ensures multiset(Flatten(bs[j := x])) + multiset(bs[j]) == multiset(Flatten(bs)) + multiset(x)
  {
    FlattenUpdateMultiset(bs, j, x);
    var a, b := multiset(Flatten(bs[j := x])) + multiset(bs[j]), multiset(Flatten(bs)) + multiset(x);
    assert |a| == |b|;
  }

  lemma {:induction false} FlattenUpdateMultiset<K, V>(bs: seq<seq<Entry<K, V>>>, j: nat, x: seq<Entry<K, V>>)
    requires j < |bs|
    ensures multiset(Flatten(bs[j := x])) + multiset(bs[j]) == multiset(Flatten(bs)) + multiset(x)
  {
    var n := |bs| - 1;
    var u := bs[j := x];
    assert Flatten(u) == Flatten(u[..n]) + u[n];
    assert Flatten(bs) == Flatten(bs[..n]) + bs[n];
    if j == n {
      assert u[..n] == bs[..n];
    } else {
      assert u[..n] == bs[..n][j := x];
      assert u[n] == bs[n];
      FlattenUpdateMultiset(bs[..n], j, x);
      MultisetExtend(multiset(Flatten(u[..n])), multiset(bs[j]), multiset(Flatten(bs[..n])), multiset(x), multiset(bs[n]));
    }
  }

  lemma MultisetExtend<T>(a: multiset<T>, b: multiset<T>, c: multiset<T>, d: multiset<T>, e: multiset<T>)
    requires a + b == c + d
    ensures (a + e) + b == (c + e) + d
  {
    forall z ensures ((a + e) + b)[z] == ((c + e) + d)[z] {
      assert (a + b)[z] == (c + d)[z];
    }
  }

  lemma MultisetShift<T>(f': multiset<T>, b: multiset<T>, f: multiset<T>, x: multiset<T>, p: multiset<T>, q: multiset<T>)
    requires f' + b == f + x && x + p == b + q
    ensures f' + p == f + q
  {
    forall z ensures (f' + p)[z] == (f + q)[z] {
      assert (f' + b)[z] == (f + x)[z];
      assert (x + p)[z] == (b + q)[z];
    }
  }

  /** FlattenUpdate for a bucket change that adds the entries q and drops p. */
  lemma FlattenChange<K, V>(bs: seq<seq<Entry<K, V>>>, j: nat, x: seq<Entry<K, V>>, p: multiset<Entry<K, V>>, q: multiset<Entry<K, V>>)
    requires j < |bs| && multiset(x) + p == multiset(bs[j]) + q
    ensures multiset(Flatten(bs[j := x])) + p == multiset(Flatten(bs)) + q
  {
    FlattenUpdate(bs, j, x);
    MultisetShift(multiset(Flatten(bs[j := x])), multiset(bs[j]), multiset(Flatten(bs)), multiset(x), p, q);
  }

  /** Every flattened entry comes from a bucket below |bs|. */
  lemma {:induction false} FlattenSlots<K, V>(bs: seq<seq<Entry<K, V>>>, hash: K -> nat, cap: nat, k: K)
    requires cap > 0 && WellPlaced(bs, hash, cap) && HasKey(Flatten(bs), k)
    ensures Slot(hash, k, cap) < |bs|
  {
    var n := |bs| - 1;
    FindAppend(Flatten(bs[..n]), bs[n], k);
    if HasKey(Flatten(bs[..n]), k) {
      FlattenSlots(bs[..n], hash, cap, k);
    } else {
      HasKeySlot(bs[n], hash, cap, n, k);
    }
  }

  lemma {:induction false} FlattenUnique<K, V>(bs: seq<seq<Entry<K, V>>>, hash: K -> nat, cap: nat)
    requires cap > 0 && WellPlaced(bs, hash, cap)
    requires forall b | 0 <= b < |bs| :: UniqueKeys(bs[b])
    ensures UniqueKeys(Flatten(bs))
  {
    if bs != [] {
      var n := |bs| - 1;
      FlattenUnique(bs[..n], hash, cap);
      forall k | HasKey(Flatten(bs[..n]), k) ensures !HasKey(bs[n], k) {
        FlattenSlots(bs[..n], hash, cap, k);
        if HasKey(bs[n], k) {
          HasKeySlot(bs[n], hash, cap, n, k);
        }
      }
      UniqueConcat(Flatten(bs[..n]), bs[n]);
    }
  }

  /** In well-placed buckets the flattened entries of slot j are bucket j. */
  lemma {:induction false} FilterFlatten<K, V>(bs: seq<seq<Entry<K, V>>>, hash: K -> nat, cap: nat, j: nat)
    requires cap > 0 && WellPlaced(bs, hash, cap)
    ensures Filter(Flatten(bs), hash, cap, j) == if j < |bs| then bs[j] else []
  {
    if bs != [] {
      var n := |bs| - 1;
      FilterFlatten(bs[..n], hash, cap, j);
      FilterAppend(Flatten(bs[..n]), bs[n], hash, cap, j);
      FilterOneSlot(bs[n], hash, cap, n, j);
    }
  }

  /** Looking a key up in its own bucket, as containsKey and at do, finds what
      the table binds it to. */
  lemma LookupInSlot<K, V>(bs: seq<seq<Entry<K, V>>>, hash: K -> nat, cap: nat, k: K)
    requires cap > 0 && |bs| == cap && WellPlaced(bs, hash, cap)
    ensures Lookup(bs, k) == Find(bs[Slot(hash, k, cap)], k)
  {
    FilterFlatten(bs, hash, cap, Slot(hash, k, cap));
    FindFilter(Flatten(bs), hash, cap, k);
  }

  /** Bucket j after rehashing is the subsequence of es that belongs in j. */
  lemma {:induction false} RehashBucket<K, V>(es: seq<Entry<K, V>>, hash: K -> nat, cap: nat, j: nat)
    requires cap > 0 && j < cap
    ensures Rehash(es, hash, cap)[j] == Filter(es, hash, cap, j)
  {
    if es != [] {
      var n := |es| - 1;
      RehashBucket(es[..n], hash, cap, j);
      FilterAppend(es[..n], [es[n]], hash, cap, j);
      assert es[..n] + [es[n]] == es;
    }
  }

  lemma {:induction false} RehashMultiset<K, V>(es: seq<Entry<K, V>>, hash: K -> nat, cap: nat)
    requires cap > 0
    ensures multiset(Flatten(Rehash(es, hash, cap))) == multiset(es)
  {
    if es == [] {
      EmptyBucketsFlatten(Rehash(es, hash, cap));
    } else {
      var n := |es| - 1;
      RehashMultiset(es[..n], hash, cap);
      RehashLast(es, hash, cap);
      assert es[..n] + [es[n]] == es;
    }
  }

  lemma RehashLast<K, V>(es: seq<Entry<K, V>>, hash: K -> nat, cap: nat)
    requires cap > 0 && es != []
    ensures multiset(Flatten(Rehash(es, hash, cap)))
            == multiset(Flatten(Rehash(es[..|es| - 1], hash, cap))) + multiset{es[|es| - 1]}
  {
    var n := |es| - 1;
    var e := es[n];
    var r := Rehash(es[..n], hash, cap);
    var j := Slot(hash, e.key, cap);
    var x := r[j] + [e];
    assert Rehash(es, hash, cap) == r[j := x];
    assert multiset(x) + multiset{} == multiset(r[j]) + multiset{e};
    FlattenChange(r, j, x, multiset{}, multiset{e});
  }

  lemma MultisetCancel<T>(a: multiset<T>, b: multiset<T>, c: multiset<T>)
    requires a + b == c + b
    ensures a == c
  {
    forall z ensures a[z] == c[z] {
      assert (a + b)[z] == (c + b)[z];
    }
  }

  lemma {:induction false} EmptyBucketsFlatten<K, V>(bs: seq<seq<Entry<K, V>>>)
    requires forall b | 0 <= b < |bs| :: bs[b] == []
    ensures Flatten(bs) == []
  {
    if bs != [] {
      EmptyBucketsFlatten(bs[..|bs| - 1]);
    }
  }

  /** `_reSize`'s loop: a valid bucket array of the new capacity holding the same
      entries, each in the bucket of its key under the new capacity, entries of
      one new bucket in their old iteration order, the same bindings. */
  lemma RehashFacts<K, V>(es: seq<Entry<K, V>>, hash: K -> nat, cap: nat)
    requires cap > 0 && UniqueKeys(es)
    ensures BucketsOk(Rehash(es, hash, cap), hash, cap)
    ensures forall j | 0 <= j < cap :: Rehash(es, hash, cap)[j] == Filter(es, hash, cap, j)
    ensures multiset(Flatten(Rehash(es, hash, cap))) == multiset(es)
    ensures |Flatten(Rehash(es, hash, cap))| == |es|
    ensures forall k :: Lookup(Rehash(es, hash, cap), k) == Find(es, k)
  {
    var r := Rehash(es, hash, cap);
    forall j | 0 <= j < cap ensures r[j] == Filter(es, hash, cap, j) && AllInSlot(r[j], hash, cap, j) && UniqueKeys(r[j]) {
      RehashBucket(es, hash, cap, j);
      FilterSlot(es, hash, cap, j);
      FilterUnique(es, hash, cap, j);
    }
    RehashMultiset(es, hash, cap);
    assert |multiset(Flatten(r))| == |multiset(es)|;
    forall k ensures Lookup(r, k) == Find(es, k) {
      LookupInSlot(r, hash, cap, k);
      FindFilter(es, hash, cap, k);
    }
  }

  /** Appending an entry with a new key to the bucket of its key. */
  lemma AppendFacts<K, V>(bs: seq<seq<Entry<K, V>>>, hash: K -> nat, cap: nat, e: Entry<K, V>)
    requires BucketsOk(bs, hash, cap) && Lookup(bs, e.key).None?
    ensures var j := Slot(hash, e.key, cap);
            var u := bs[j := bs[j] + [e]];
            && BucketsOk(u, hash, cap)
            && |Flatten(u)| == |Flatten(bs)| + 1
            && multiset(Flatten(u)) == multiset(Flatten(bs)) + multiset{e}
            && forall k :: Lookup(u, k) == if k == e.key then Some(e.value) else Lookup(bs, k)
  {
    var j := Slot(hash, e.key, cap);
    var u := bs[j := bs[j] + [e]];
    LookupInSlot(bs, hash, cap, e.key);
    AppendBucketsOk(bs, hash, cap, e);
    FlattenUpdate(bs, j, bs[j] + [e]);
    assert multiset(bs[j] + [e]) + multiset{} == multiset(bs[j]) + multiset{e};
    FlattenChange(bs, j, bs[j] + [e], multiset{}, multiset{e});
    AppendLookup(bs, hash, cap, e);
  }

  lemma AppendBucketsOk<K, V>(bs: seq<seq<Entry<K, V>>>, hash: K -> nat, cap: nat, e: Entry<K, V>)
    requires BucketsOk(bs, hash, cap) && !HasKey(bs[Slot(hash, e.key, cap)], e.key)
    ensures var j := Slot(hash, e.key, cap);
            BucketsOk(bs[j := bs[j] + [e]], hash, cap)
  {
    var j := Slot(hash, e.key, cap);
    var u := bs[j := bs[j] + [e]];
    UniqueAppend(bs[j], e);
    forall b | 0 <= b < |u| ensures AllInSlot(u[b], hash, cap, b) && UniqueKeys(u[b]) {
      if b == j {
        forall x: Entry<K, V> | x in u[b] ensures Slot(hash, x.key, cap) == b {
          if x != e {
            assert x in bs[j];
          }
        }
      }
    }
  }

  lemma AppendLookup<K, V>(bs: seq<seq<Entry<K, V>>>, hash: K -> nat, cap: nat, e: Entry<K, V>)
    requires BucketsOk(bs, hash, cap) && Lookup(bs, e.key).None?
    ensures var j := Slot(hash, e.key, cap);
            var u := bs[j := bs[j] + [e]];
            forall k :: Lookup(u, k) == if k == e.key then Some(e.value) else Lookup(bs, k)
  {
    var j := Slot(hash, e.key, cap);
    var u := bs[j := bs[j] + [e]];
    LookupInSlot(bs, hash, cap, e.key);
    AppendBucketsOk(bs, hash, cap, e);
    forall k ensures Lookup(u, k) == if k == e.key then Some(e.value) else Lookup(bs, k) {
      LookupInSlot(bs, hash, cap, k);
      LookupInSlot(u, hash, cap, k);
      FindAppend(bs[j], [e], k);
    }
  }

  /** Removing the entry of a present key from the bucket of that key. */
  lemma RemoveBucketFacts<K, V>(bs: seq<seq<Entry<K, V>>>, hash: K -> nat, cap: nat, k: K)
    requires BucketsOk(bs, hash, cap) && Lookup(bs, k).Some?
    ensures var j := Slot(hash, k, cap);
            var u := bs[j := RemoveKey(bs[j], k)];
            && BucketsOk(u, hash, cap)
            && |Flatten(u)| + 1 == |Flatten(bs)|
            && multiset(Flatten(u)) + multiset{Entry(k, Lookup(bs, k).value)} == multiset(Flatten(bs))
            && forall k2 :: Lookup(u, k2) == if k2 == k then None else Lookup(bs, k2)
  {
    var j := Slot(hash, k, cap);
    var b := bs[j];
    var x := RemoveKey(b, k);
    var u := bs[j := x];
    LookupInSlot(bs, hash, cap, k);
    RemoveFacts(b, k);
    var d := multiset{Entry(k, Lookup(bs, k).value)};
    assert multiset(x) + d == multiset(b) + multiset{};
    assert |Flatten(u)| + 1 == |Flatten(bs)| by {
      assert |multiset(x) + d| == |multiset(b)|;
      FlattenUpdate(bs, j, x);
    }
    assert multiset(Flatten(u)) + d == multiset(Flatten(bs)) by {
      FlattenChange(bs, j, x, d, multiset{});
    }
    assert BucketsOk(u, hash, cap) by {
      assert AllInSlot(x, hash, cap, j);
    }
    forall k2 ensures Lookup(u, k2) == if k2 == k then None else Lookup(bs, k2) {
      LookupInSlot(bs, hash, cap, k2);
      LookupInSlot(u, hash, cap, k2);
    }
  }

  /** Rebuilding the buckets keeps their validity, entries and bindings. */
  lemma ResizeFacts<K, V>(t: Table<K, V>, hash: K -> nat)
    requires BucketsOk(t.buckets, hash, t.capacity) && ResizedCapacity(t) > 0
    ensures BucketsOk(Resize(t, hash).buckets, hash, ResizedCapacity(t))
    ensures multiset(Flatten(Resize(t, hash).buckets)) == multiset(Flatten(t.buckets))
    ensures |Flatten(Resize(t, hash).buckets)| == |Flatten(t.buckets)|
    ensures forall k :: Lookup(Resize(t, hash).buckets, k) == Lookup(t.buckets, k)
  {
    FlattenUnique(t.buckets, hash, t.capacity);
    RehashFacts(Flatten(t.buckets), hash, ResizedCapacity(t));
  }

  // ==================================================================
  // Lemmas: the operations

  /** `_reSize` keeps exactly the entries, puts each in the bucket of its key
      under the new capacity, keeps the old iteration order within each new
      bucket, and leaves size and the cached load factor as they were. */
  lemma ResizeSpec<K, V>(t: Table<K, V>, hash: K -> nat)
    requires BucketsOk(t.buckets, hash, t.capacity) && ResizedCapacity(t) > 0
    ensures var r := Resize(t, hash);
            && r.capacity == (if 4 * t.lf.num > 3 * t.lf.den then 2 * t.capacity else t.capacity / 2)
            && r.size == t.size && r.lf == t.lf
            && multiset(Flatten(r.buckets)) == multiset(Flatten(t.buckets))
            && WellPlaced(r.buckets, hash, r.capacity)
            && forall j | 0 <= j < r.capacity :: r.buckets[j] == Filter(Flatten(t.buckets), hash, r.capacity, j)
  {
    FlattenUnique(t.buckets, hash, t.capacity);
    RehashFacts(Flatten(t.buckets), hash, ResizedCapacity(t));
  }

  lemma EmptyValid<K, V>(hash: K -> nat)
    ensures Valid(Empty<K, V>(), hash)
    ensures forall k :: Lookup(Empty<K, V>().buckets, k) == None
  {
    var t := Empty<K, V>();
    assert IsPow2(8) && IsPow2(4) && IsPow2(2);
    EmptyBucketsFlatten(t.buckets);
  }

  /** insert keeps the invariant. */
  lemma InsertValid<K, V>(t: Table<K, V>, hash: K -> nat, k: K, v: V)
    requires Valid(t, hash)
    ensures Valid(Insert(t, hash, k, v).0, hash)
  {
    InsertSpec(t, hash, k, v);
  }

  /** insert of a present key does nothing and answers false; otherwise it
      answers true, adds exactly Entry(k, v), binds k to v and keeps every
      other binding, and size grows by one. */
  lemma InsertSpec<K, V>(t: Table<K, V>, hash: K -> nat, k: K, v: V)
    requires Valid(t, hash)
    ensures var (r, ok) := Insert(t, hash, k, v);
            && Valid(r, hash)
            && (ok <==> Lookup(t.buckets, k).None?)
            && (!ok ==> r == t)
            && (ok ==> r.size == t.size + 1
                       && multiset(Flatten(r.buckets)) == multiset(Flatten(t.buckets)) + multiset{Entry(k, v)}
                       && forall k2 :: Lookup(r.buckets, k2) == if k2 == k then Some(v) else Lookup(t.buckets, k2))
  {
    LookupInSlot(t.buckets, hash, t.capacity, k);
    var (r, ok) := Insert(t, hash, k, v);
    if ok {
      var grown := t.(size := t.size + 1, lf := Ratio(t.size + 1, t.capacity));
      var placed := if !Less(grown.lf, HigherBound) then Resize(grown, hash) else grown;
      if !Less(grown.lf, HigherBound) {
        ResizeFacts(grown, hash);
        if Less(HigherBound, grown.lf) {
          Pow2Double(t.capacity);
        } else {
          Pow2Half(t.capacity);
        }
      }
      AppendFacts(placed.buckets, hash, placed.capacity, Entry(k, v));
    }
  }

  /** When insert resizes and in which direction: the load factor is computed
      from the grown size and the old capacity, a resize happens iff it is at
      least 0.75 and doubles iff it is above 0.75, so reaching exactly 0.75
      halves the capacity.  The cached value is not recomputed afterwards. */
  lemma InsertResize<K, V>(t: Table<K, V>, hash: K -> nat, k: K, v: V)
    requires Valid(t, hash) && Lookup(t.buckets, k).None?
    ensures var r := Insert(t, hash, k, v).0;
            var s := t.size + 1;
            && r.lf == Ratio(s, t.capacity)
            && r.capacity == (if 4 * s > 3 * t.capacity then 2 * t.capacity
                              else if 4 * s == 3 * t.capacity then t.capacity / 2
                              else t.capacity)
  {
    LookupInSlot(t.buckets, hash, t.capacity, k);
  }

  /** The quirk at exactly 0.75: the capacity halves and the cached load
      factor afterwards is not size / capacity. */
  lemma InsertAtThreeQuarters<K, V>(t: Table<K, V>, hash: K -> nat, k: K, v: V)
    requires Valid(t, hash) && Lookup(t.buckets, k).None? && 4 * (t.size + 1) == 3 * t.capacity
    ensures var r := Insert(t, hash, k, v).0;
            && 2 * r.capacity == t.capacity
            && r.size == t.size + 1
            && !SameValue(r.lf, Ratio(r.size, r.capacity))
  {
    InsertResize(t, hash, k, v);
    InsertSpec(t, hash, k, v);
    var r := Insert(t, hash, k, v).0;
    HalfIsDifferent(r.size, r.capacity);
  }

  lemma HalfIsDifferent(n: nat, h: nat)
    requires n >= 1 && h >= 1
    ensures n * h != n * (2 * h)
  {
    MulMono(n, 1, h);
  }

  /** erase of an absent key does nothing and answers false; otherwise it
      answers true, removes exactly the entry of k, keeps every other binding
      and decrements size; the invariant is kept. */
  lemma EraseSpec<K, V>(t: Table<K, V>, hash: K -> nat, k: K)
    requires Valid(t, hash)
    ensures var (r, ok) := Erase(t, hash, k);
            && Valid(r, hash)
            && (ok <==> Lookup(t.buckets, k).Some?)
            && (!ok ==> r == t)
            && (ok ==> r.size + 1 == t.size
                       && multiset(Flatten(r.buckets)) + multiset{Entry(k, Lookup(t.buckets, k).value)}
                          == multiset(Flatten(t.buckets))
                       && forall k2 :: Lookup(r.buckets, k2) == if k2 == k then None else Lookup(t.buckets, k2))
  {
    LookupInSlot(t.buckets, hash, t.capacity, k);
    var (r, ok) := Erase(t, hash, k);
    if ok {
      var j := Slot(hash, k, t.capacity);
      var u := t.buckets[j := RemoveKey(t.buckets[j], k)];
      RemoveBucketFacts(t.buckets, hash, t.capacity, k);
      var shrunk := t.(buckets := u, size := t.size - 1, lf := Ratio(t.size - 1, t.capacity));
      if !Less(LowerBound, shrunk.lf) {
        ResizeFacts(shrunk, hash);
        Pow2Half(t.capacity);
      }
    }
  }

  /** The steps erase takes for a present key found at index i of its
      bucket: that entry cut out, size and load factor updated, then the
      resize when the load factor is at most 0.25. */
  lemma EraseSteps<K, V>(t: Table<K, V>, hash: K -> nat, k: K, i: nat)
    requires Counted(t)
    requires var j := Slot(hash, k, t.capacity);
             && j < |t.buckets| && i < |t.buckets[j]| && t.buckets[j][i].key == k
             && forall m | 0 <= m < i :: t.buckets[j][m].key != k
    ensures t.size >= 1 && t.capacity >= 2
    ensures var j := Slot(hash, k, t.capacity);
            var b := t.buckets[j];
            var shrunk := Table(t.buckets[j := b[..i] + b[i + 1..]], t.size - 1, t.capacity, Ratio(t.size - 1, t.capacity));
            && (!Less(LowerBound, shrunk.lf) ==> ResizedCapacity(shrunk) > 0)
            && Erase(t, hash, k) == (if !Less(LowerBound, shrunk.lf) then Resize(shrunk, hash) else shrunk, true)
  {
    var j := Slot(hash, k, t.capacity);
    var b := t.buckets[j];
    FindAt(b, k, i);
    RemoveAt(b, k, i);
    FlattenUpdate(t.buckets, j, []);
    assert t.size >= 1;
    assert t.capacity != 1;
  }

  /** When erase resizes: iff the load factor of the shrunk size over the old
      capacity is at most 0.25, and then it always halves. */
  lemma EraseResize<K, V>(t: Table<K, V>, hash: K -> nat, k: K)
    requires Valid(t, hash) && Lookup(t.buckets, k).Some?
    ensures var r := Erase(t, hash, k).0;
            var s := t.size - 1;
            && r.lf == Ratio(s, t.capacity)
            && r.capacity == (if 4 * s <= t.capacity then t.capacity / 2 else t.capacity)
  {
    LookupInSlot(t.buckets, hash, t.capacity, k);
    FlattenUpdate(t.buckets, Slot(hash, k, t.capacity), []);
  }

  /** Within the bucket of k, erase removes just that entry and keeps the
      order of the others. */
  lemma EraseBucket<K, V>(b: seq<Entry<K, V>>, k: K, i: nat)
    requires i < |b| && b[i].key == k && UniqueKeys(b)
    ensures RemoveKey(b, k) == b[..i] + b[i + 1..]
  {
    var m := FirstKeyIndex(b, k, i);
    UniqueFirst(b, k, m, i);
    RemoveAt(b, k, i);
  }

  /** The smallest index with key k, at most i. */
  function FirstKeyIndex<K(==), V>(b: seq<Entry<K, V>>, k: K, i: nat): (m: nat)
    requires i < |b| && b[i].key == k
    ensures m <= i && b[m].key == k && forall j | 0 <= j < m :: b[j].key != k
  {
    if b[0].key == k then 0 else 1 + FirstKeyIndex(b[1..], k, i - 1)
  }

  lemma {:induction false} UniqueFirst<K, V>(b: seq<Entry<K, V>>, k: K, m: nat, i: nat)
    requires m <= i < |b| && b[m].key == k && b[i].key == k && UniqueKeys(b)
    ensures m == i
  {
    if m == 0 {
      if i > 0 {
        FindAt(b[1..], k, FirstKeyIndex(b[1..], k, i - 1));
      }
    } else {
      UniqueFirst(b[1..], k, m - 1, i - 1);
    }
  }

  /** clear keeps the capacity, empties the table and keeps the invariant; on
      an empty table it changes nothing. */
  lemma ClearSpec<K, V>(t: Table<K, V>, hash: K -> nat)
    requires Valid(t, hash)
    ensures var r := Clear(t);
            && Valid(r, hash)
            && r.capacity == t.capacity && r.size == 0
            && (t.size == 0 ==> r == t)
            && forall k :: Lookup(r.buckets, k) == None
  {
    var r := Clear(t);
    if t.size == 0 {
      forall k ensures Lookup(r.buckets, k) == None {
      }
    } else {
      EmptyBucketsFlatten(r.buckets);
    }
  }

  lemma SetValueValid<K, V>(t: Table<K, V>, hash: K -> nat, k: K, v: V)
    requires Valid(t, hash) && Lookup(t.buckets, k).Some?
    ensures var r := SetValue(t, hash, k, v);
            && Valid(r, hash) && r.capacity == t.capacity && r.size == t.size
            && forall k2 :: Lookup(r.buckets, k2) == if k2 == k then Some(v) else Lookup(t.buckets, k2)
  {
    var j := Slot(hash, k, t.capacity);
    var b := t.buckets[j];
    LookupInSlot(t.buckets, hash, t.capacity, k);
    ReplaceFacts(b, k, v);
    var u := t.buckets[j := ReplaceValue(b, k, v)];
    FlattenUpdate(t.buckets, j, ReplaceValue(b, k, v));
    assert WellPlaced(u, hash, t.capacity) by {
      forall e | e in ReplaceValue(b, k, v) ensures Slot(hash, e.key, t.capacity) == j {
      }
    }
    forall k2 ensures Lookup(u, k2) == if k2 == k then Some(v) else Lookup(t.buckets, k2) {
      LookupInSlot(t.buckets, hash, t.capacity, k2);
      LookupInSlot(u, hash, t.capacity, k2);
    }
  }

  lemma SubscriptValid<K, V>(t: Table<K, V>, hash: K -> nat, dflt: V, k: K)
    requires Valid(t, hash)
    ensures Valid(Subscript(t, hash, dflt, k).0, hash)
    ensures Lookup(Subscript(t, hash, dflt, k).0.buckets, k).Some?
  {
    SubscriptSpec(t, hash, dflt, k);
  }

  /** Non-const `operator[]`: on a present key it changes nothing and yields
      the bound value; on a missing key it inserts the default value and
      yields it. */
  lemma SubscriptSpec<K, V>(t: Table<K, V>, hash: K -> nat, dflt: V, k: K)
    requires Valid(t, hash)
    ensures var (r, v) := Subscript(t, hash, dflt, k);
            && Valid(r, hash)
            && Lookup(r.buckets, k) == Some(v)
            && (Lookup(t.buckets, k).Some? ==> r == t && v == Lookup(t.buckets, k).value)
            && (Lookup(t.buckets, k).None? ==> v == dflt && r == Insert(t, hash, k, dflt).0)
  {
    LookupInSlot(t.buckets, hash, t.capacity, k);
    InsertSpec(t, hash, k, dflt);
  }

  lemma BulkStepValid<K, V>(t: Table<K, V>, hash: K -> nat, dflt: V, k: K, v: V)
    requires Valid(t, hash)
    ensures Valid(BulkStep(t, hash, dflt, k, v), hash)
    ensures forall k2 :: Lookup(BulkStep(t, hash, dflt, k, v).buckets, k2) == if k2 == k then Some(v) else Lookup(t.buckets, k2)
  {
    InsertSpec(t, hash, k, v);
    if !Insert(t, hash, k, v).1 {
      SubscriptSpec(t, hash, dflt, k);
      SetValueValid(t, hash, k, v);
    }
  }

  /** The bulk constructor's loop keeps the invariant. */
  lemma {:induction false} BulkValid<K, V>(t: Table<K, V>, hash: K -> nat, dflt: V, keys: seq<K>, values: seq<V>)
    requires Valid(t, hash) && |keys| == |values|
    ensures Valid(Bulk(t, hash, dflt, keys, values), hash)
  {
    if keys != [] {
      var n := |keys| - 1;
      BulkValid(t, hash, dflt, keys[..n], values[..n]);
      BulkStepValid(Bulk(t, hash, dflt, keys[..n], values[..n]), hash, dflt, keys[n], values[n]);
    }
  }

  /** Inserting a sequence of entries keeps the invariant. */
  lemma {:induction false} InsertAllValid<K, V>(t: Table<K, V>, hash: K -> nat, es: seq<Entry<K, V>>)
    requires Valid(t, hash)
    ensures Valid(InsertAll(t, hash, es), hash)
  {
    if es != [] {
      var n := |es| - 1;
      InsertAllValid(t, hash, es[..n]);
      InsertValid(InsertAll(t, hash, es[..n]), hash, es[n].key, es[n].value);
    }
  }

  /** The value at the last occurrence of k among the keys. */
  function LastValue<K(==), V>(keys: seq<K>, values: seq<V>, k: K): Option<V>
    requires |keys| == |values|
  {
    if keys == [] then None
    else if keys[|keys| - 1] == k then Some(values[|keys| - 1])
    else LastValue(keys[..|keys| - 1], values[..|keys| - 1], k)
  }

  /** Bulk construction binds each key to the value at its last occurrence:
      a repeated key is overwritten through `operator[]`. */
  lemma {:induction false} BulkLastWins<K, V>(t: Table<K, V>, hash: K -> nat, dflt: V, keys: seq<K>, values: seq<V>, k: K)
    requires Valid(t, hash) && |keys| == |values|
    ensures Lookup(Bulk(t, hash, dflt, keys, values).buckets, k)
            == if LastValue(keys, values, k).Some? then LastValue(keys, values, k) else Lookup(t.buckets, k)
  {
    if keys != [] {
      var n := |keys| - 1;
      BulkLastWins(t, hash, dflt, keys[..n], values[..n], k);
      BulkValid(t, hash, dflt, keys[..n], values[..n]);
      BulkStepValid(Bulk(t, hash, dflt, keys[..n], values[..n]), hash, dflt, keys[n], values[n]);
    }
  }

  /** Re-inserting entries keeps what the table had and adds the first
      binding es gives to each new key. */
  lemma {:induction false} InsertAllLookup<K, V>(t: Table<K, V>, hash: K -> nat, es: seq<Entry<K, V>>, k: K)
    requires Valid(t, hash)
    ensures Lookup(InsertAll(t, hash, es).buckets, k)
            == if Lookup(t.buckets, k).Some? then Lookup(t.buckets, k) else Find(es, k)
  {
    if es != [] {
      var n := |es| - 1;
      var r := InsertAll(t, hash, es[..n]);
      var e := es[n];
      assert InsertAll(t, hash, es) == Insert(r, hash, e.key, e.value).0;
      InsertAllValid(t, hash, es[..n]);
      InsertAllLookup(t, hash, es[..n], k);
      InsertLookup(r, hash, e.key, e.value, k);
      assert es[..n] + [e] == es;
      FindAppend(es[..n], [e], k);
    }
  }

  /** One insert seen through a single key: only an absent k becomes bound. */
  lemma InsertLookup<K, V>(t: Table<K, V>, hash: K -> nat, k: K, v: V, k2: K)
    requires Valid(t, hash)
    ensures Lookup(Insert(t, hash, k, v).0.buckets, k2)
            == if k2 == k && Lookup(t.buckets, k).None? then Some(v) else Lookup(t.buckets, k2)
  {
    InsertSpec(t, hash, k, v);
  }

  lemma TakeSnoc<T>(s: seq<T>, n: nat)
    requires n < |s|
    ensures s[..n + 1] == s[..n] + [s[n]]
  {
  }

  lemma FlattenSnoc<K, V>(bs: seq<seq<Entry<K, V>>>, i: nat)
    requires i < |bs|
    ensures Flatten(bs[..i + 1]) == Flatten(bs[..i]) + bs[i]
  {
    assert bs[..i + 1][..i] == bs[..i];
  }

  /** One more pair for the bulk constructor's loop. */
  lemma BulkSnoc<K, V>(t: Table<K, V>, hash: K -> nat, dflt: V, keys: seq<K>, values: seq<V>, i: nat)
    requires Valid(t, hash) && |keys| == |values| && i < |keys|
    ensures Valid(Bulk(t, hash, dflt, keys[..i], values[..i]), hash)
    ensures Bulk(t, hash, dflt, keys[..i + 1], values[..i + 1])
            == BulkStep(Bulk(t, hash, dflt, keys[..i], values[..i]), hash, dflt, keys[i], values[i])
  {
    BulkValid(t, hash, dflt, keys[..i], values[..i]);
    assert keys[..i + 1][..i] == keys[..i] && values[..i + 1][..i] == values[..i];
  }

  /** One more entry for the copy constructor's loop. */
  lemma InsertAllSnoc<K, V>(t: Table<K, V>, hash: K -> nat, es: seq<Entry<K, V>>, i: nat)
    requires Valid(t, hash) && i < |es|
    ensures Valid(InsertAll(t, hash, es[..i]), hash)
    ensures InsertAll(t, hash, es[..i + 1]) == Insert(InsertAll(t, hash, es[..i]), hash, es[i].key, es[i].value).0
  {
    InsertAllValid(t, hash, es[..i]);
    assert es[..i + 1][..i] == es[..i];
  }

  /** One more entry appended by `_reSize`'s loop goes to the end of the
      bucket of its key. */
  lemma RehashSnoc<K, V>(es: seq<Entry<K, V>>, e: Entry<K, V>, hash: K -> nat, cap: nat)
    requires cap > 0
    ensures var r := Rehash(es, hash, cap);
            var j := Slot(hash, e.key, cap);
            Rehash(es + [e], hash, cap) == r[j := r[j] + [e]]
  {
    assert (es + [e])[..|es|] == es;
  }

  /** A table binds no key exactly when it holds no entry (`empty`). */
  lemma LookupNoneIffEmpty<K, V>(bs: seq<seq<Entry<K, V>>>)
    ensures (forall k :: Lookup(bs, k).None?) <==> Flatten(bs) == []
  {
    if Flatten(bs) != [] {
      assert Lookup(bs, Flatten(bs)[0].key).Some?;
    }
  }

  /** The copy constructor's result binds the same keys to the same values
      (its capacity and cached load factor may differ). */
  lemma CopyLookup<K, V>(t: Table<K, V>, hash: K -> nat, k: K)
    requires Valid(t, hash)
    ensures Lookup(InsertAll(Empty(), hash, Flatten(t.buckets)).buckets, k) == Lookup(t.buckets, k)
  {
    EmptyValid<K, V>(hash);
    InsertAllLookup(Empty(), hash, Flatten(t.buckets), k);
  }

  /** Equal tables bind the same keys to the same values. */
  lemma EqualLookup<K, V>(t1: Table<K, V>, t2: Table<K, V>, k: K)
    requires Equal(t1, t2)
    ensures Lookup(t1.buckets, k) == Lookup(t2.buckets, k)
  {
  }
}
