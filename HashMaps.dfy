/** HashMap<KeyT, ValueT> and its const_iterator (HashMap.hpp) as classes over
    a mutable bucket array.  Every method that changes the map is proved to
    move its abstract state State() exactly as the transition of the same
    name in module Tables does; the properties of those transitions are
    proved there. */
module HashMaps {
  import opened Bits
  import opened Tables
  import opened Cursors

  /** The two hashExceptions the core throws. */
  datatype Error = ArityMismatch | KeyNotFound

  datatype Result<T> = Ok(value: T) | Err(error: Error)

  class HashMap<K(==), V(==)> {
    /** std::hash<KeyT> */
    const hash: K -> nat
    /** ValueT(), the value non-const operator[] inserts for a missing key */
    const dflt: V

    var capacity: nat
    var size: nat
    var table: array<seq<Entry<K, V>>>
    /** The cached load factor, as the size and capacity it was computed from. */
    var loadFactor: Ratio

    ghost function State(): Table<K, V>
      reads this, table
    {
      Table(table[..], size, capacity, loadFactor)
    }

    ghost predicate Valid()
      reads this, table
    {
      table.Length == capacity && Tables.Valid(State(), hash)
    }

    /** What the iterator needs of the map: at least one entry, and size and
        capacity agreeing with the bucket array. */
    ghost predicate Iterable()
      reads this, table
    {
      table.Length == capacity && 0 < size == |Flatten(table[..])|
    }

    /** The default constructor: 16 empty buckets. */
    constructor (hash: K -> nat, dflt: V)
      ensures Valid() && State() == Empty() && fresh(table)
      ensures this.hash == hash && this.dflt == dflt
    {
      this.hash := hash;
      this.dflt := dflt;
      capacity := StartCapacity;
      size := 0;
      table := new seq<Entry<K, V>>[StartCapacity](_ => []);
      loadFactor := Ratio(0, StartCapacity);
      new;
      assert table[..] == seq(StartCapacity, _ => []);
      EmptyValid<K, V>(hash);
    }

    /** The bulk constructor: fails when the vectors differ in length, and
        otherwise inserts each pair in order, overwriting the value of a key
        seen before through operator[]. */
    static method FromVectors(hash: K -> nat, dflt: V, keys: seq<K>, values: seq<V>) returns (r: Result<HashMap<K, V>>)
      ensures r.Err? <==> |keys| != |values|
      ensures r.Err? ==> r.error == ArityMismatch
      ensures r.Ok? ==> && fresh(r.value) && fresh(r.value.table) && r.value.Valid()
                        && r.value.hash == hash && r.value.dflt == dflt
                        && r.value.State() == Bulk(Empty(), hash, dflt, keys, values)
    {
      if |keys| != |values| {
        return Err(ArityMismatch);
      }
      var m := new HashMap(hash, dflt);
      var i := 0;
      while i < |keys|
        invariant 0 <= i <= |keys|
        invariant fresh(m) && fresh(m.table) && m.Valid() && m.hash == hash && m.dflt == dflt
        invariant m.State() == Bulk(Empty(), hash, dflt, keys[..i], values[..i])
      {
        BulkSnoc(Empty(), hash, dflt, keys, values, i);
        ghost var t := m.State();
        var inserted := m.Insert(keys[i], values[i]);
        if !inserted {
          assert t == m.State();
          m.SubscriptAssign(keys[i], values[i]);
        }
        assert m.State() == BulkStep(t, hash, dflt, keys[i], values[i]);
        i := i + 1;
      }
      assert keys[..i] == keys && values[..i] == values;
      return Ok(m);
    }

    /** The copy constructor: starts from the default table and inserts the
        entries of other in iteration order, so capacity and cached load
        factor need not be other's. */
    constructor Copy(other: HashMap<K, V>)
      requires other.Valid() && other.size > 0
      ensures Valid() && fresh(table) && hash == other.hash && dflt == other.dflt
      ensures State() == InsertAll(Empty(), other.hash, Flatten(other.table[..]))
    {
      hash := other.hash;
      dflt := other.dflt;
      capacity := StartCapacity;
      size := 0;
      table := new seq<Entry<K, V>>[StartCapacity](_ => []);
      loadFactor := Ratio(0, StartCapacity);
      new;
      assert table[..] == seq(StartCapacity, _ => []);
      assert State() == Empty();
      EmptyValid<K, V>(hash);
      ghost var bs := other.table[..];
      var it := other.Begin();
      var stop := other.End();
      InsertRange(it, stop, bs);
    }

    /** The loop of the copy constructor, `for (; it != end; ++it)
        insert(it->first, it->second)`: every entry from it to end, in
        iteration order, inserted into this table. */
    method InsertRange(it: ConstIterator<K, V>, stop: ConstIterator<K, V>, ghost bs: seq<seq<Entry<K, V>>>)
      requires Valid() && it != stop
      requires it.hashMap != this && it.hashMap.table != table
      requires it.hashMap.table.Length == it.hashMap.capacity && it.hashMap.table[..] == bs
      requires Reached(bs, it.Position(), 0) && Reached(bs, stop.Position(), |Flatten(bs)|)
      modifies this, table, it
      ensures Valid() && (table == old(table) || fresh(table))
      ensures State() == InsertAll(old(State()), hash, Flatten(bs))
    {
      ghost var t0 := State();
      ghost var F := Flatten(bs);
      ghost var last := stop.Position();
      ghost var n := 0;
      assert Tables.Valid(t0, hash) && Reached(bs, last, |F|);
      while it.NotEquals(stop)
        invariant table.Length == capacity && (table == old(table) || fresh(table)) && it.hashMap.table != table
        invariant it.hashMap.table[..] == bs && stop.Position() == last
        invariant n <= |F| && Reached(bs, it.Position(), n)
        invariant State() == InsertAll(t0, hash, F[..n])
        decreases |F| - n
      {
        CopyEntry(it, bs, n, t0, last);
        n := n + 1;
      }
      AtEnd(bs, it.Position(), last, n);
      assert F[..n] == F;
      InsertAllValid(t0, hash, F);
    }

    /** The body of the copy constructor's loop: `insert(it->first,
        it->second)`, then `++it`. */
    method CopyEntry(it: ConstIterator<K, V>, ghost bs: seq<seq<Entry<K, V>>>, ghost n: nat,
                     ghost t0: Table<K, V>, ghost last: Cursor)
      requires Tables.Valid(t0, hash) && n <= |Flatten(bs)|
      requires table.Length == capacity && State() == InsertAll(t0, hash, Flatten(bs)[..n])
      requires it.hashMap != this && it.hashMap.table != table
      requires it.hashMap.table.Length == it.hashMap.capacity && it.hashMap.table[..] == bs
      requires Reached(bs, it.Position(), n) && Reached(bs, last, |Flatten(bs)|) && !SamePosition(it.Position(), last)
      modifies this, table, it
      ensures table.Length == capacity && (table == old(table) || fresh(table))
      ensures n < |Flatten(bs)| && Reached(bs, it.Position(), n + 1)
      ensures State() == InsertAll(t0, hash, Flatten(bs)[..n + 1])
    {
      ghost var c := it.Position();
      ghost var F := Flatten(bs);
      AtEnd(bs, c, last, n);
      InsertAllSnoc(t0, hash, F, n);
      Step(bs, c, n);
      var e := it.Deref();
      assert e == F[n];
      ghost var before := State();
      var _ := Insert(e.key, e.value);
      assert State() == Tables.Insert(before, hash, e.key, e.value).0;
      it.Next();
    }

    /** `_hash`: std::hash(key) & (capacity - 1), which for a power-of-two
        capacity is the hash modulo the capacity. */
    function HashIndex(k: K): (i: nat)
      reads this
      requires IsPow2(capacity)
      ensures i == Slot(hash, k, capacity) && i < capacity
    {
      MaskIsMod(hash(k), capacity);
      BitAnd(hash(k), capacity - 1)
    }

    /** The scan of a bucket that containsKey, at and erase share: the
        position of the first entry whose key is k. */
    method SearchBucket(index: nat, k: K) returns (pos: Option<nat>)
      requires index < table.Length
      ensures pos.None? <==> !HasKey(table[index], k)
      ensures pos.Some? ==> && pos.value < |table[index]| && table[index][pos.value].key == k
                            && (forall m | 0 <= m < pos.value :: table[index][m].key != k)
                            && Find(table[index], k) == Some(table[index][pos.value].value)
    {
      var b := table[index];
      var i := 0;
      while i < |b|
        invariant i <= |b|
        invariant forall m | 0 <= m < i :: b[m].key != k
      {
        if b[i].key == k {
          FindAt(b, k, i);
          return Some(i);
        }
        i := i + 1;
      }
      FindAbsent(b, k);
      return None;
    }

    /** `containsKey`: whether the table binds k. */
    method ContainsKey(k: K) returns (found: bool)
      requires Valid()
      ensures found <==> Lookup(table[..], k).Some?
    {
      var index := HashIndex(k);
      var pos := SearchBucket(index, k);
      LookupInSlot(table[..], hash, capacity, k);
      return pos.Some?;
    }

    /** `at`: the value bound to k, or the "key not found" error. */
    method At(k: K) returns (r: Result<V>)
      requires Valid()
      ensures r.Ok? <==> Lookup(table[..], k).Some?
      ensures r.Ok? ==> Lookup(table[..], k) == Some(r.value)
      ensures r.Err? ==> r.error == KeyNotFound
    {
      var index := HashIndex(k);
      var pos := SearchBucket(index, k);
      LookupInSlot(table[..], hash, capacity, k);
      if pos.Some? {
        return Ok(table[index][pos.value].value);
      }
      return Err(KeyNotFound);
    }

    /** `bucketIndex`: the bucket of a present key, an error for an absent one. */
    method BucketIndex(k: K) returns (r: Result<nat>)
      requires Valid()
      ensures r.Ok? <==> Lookup(table[..], k).Some?
      ensures r.Ok? ==> r.value == hash(k) % capacity && r.value < capacity && HasKey(table[r.value], k)
      ensures r.Err? ==> r.error == KeyNotFound
    {
      var found := ContainsKey(k);
      if !found {
        return Err(KeyNotFound);
      }
      var index := HashIndex(k);
      LookupInSlot(table[..], hash, capacity, k);
      return Ok(index);
    }

    /** `bucketSize`: the length of the bucket of a present key. */
    method BucketSize(k: K) returns (r: Result<nat>)
      requires Valid()
      ensures r.Ok? <==> Lookup(table[..], k).Some?
      ensures r.Ok? ==> r.value == |table[hash(k) % capacity]|
      ensures r.Err? ==> r.error == KeyNotFound
    {
      var index := BucketIndex(k);
      if index.Err? {
        return Err(index.error);
      }
      return Ok(|table[index.value]|);
    }

    /** `empty`: size is 0, i.e. no key is bound. */
    method IsEmpty() returns (e: bool)
      requires Valid()
      ensures e <==> forall k :: Lookup(table[..], k).None?
    {
      LookupNoneIffEmpty(table[..]);
      return size == 0;
    }

    /** `_reSize`: a fresh array of twice the capacity when the cached load
        factor is above 0.75, of half the capacity otherwise, into which every
        entry is appended, bucket by bucket, at its new hash index. */
    method ReSize()
      requires table.Length == capacity && IsPow2(capacity) && ResizedCapacity(State()) > 0
      modifies this
      ensures fresh(table) && IsPow2(capacity) && table.Length == capacity
      ensures State() == Resize(old(State()), hash)
    {
      var oldCap := capacity;
      ghost var bs := table[..];
      if Less(HigherBound, loadFactor) {
        Pow2Double(capacity);
        capacity := capacity * 2;
      } else {
        Pow2Half(capacity);
        capacity := capacity / 2;
      }
      var temp := new seq<Entry<K, V>>[capacity](_ => []);
      assert temp[..] == Rehash(Flatten(bs[..0]), hash, capacity);
      var i := 0;
      while i < oldCap
        modifies temp
        invariant 0 <= i <= oldCap
        invariant table[..] == bs && temp.Length == capacity
        invariant temp[..] == Rehash(Flatten(bs[..i]), hash, capacity)
      {
        ghost var es := Flatten(bs[..i]);
        FlattenSnoc(bs, i);
        assert table[i] == bs[i];
        if table[i] != [] {
          RehashInto(temp, table[i], es);
        } else {
          assert es + bs[i] == es;
        }
        i := i + 1;
      }
      assert bs[..i] == bs;
      table := temp;
    }

    /** The inner loop of `_reSize`: the entries of one old bucket appended,
        in order, at their hash index under the new capacity. */
    method RehashInto(temp: array<seq<Entry<K, V>>>, b: seq<Entry<K, V>>, ghost es: seq<Entry<K, V>>)
      requires temp.Length == capacity && IsPow2(capacity)
      requires temp[..] == Rehash(es, hash, capacity)
      modifies temp
      ensures temp[..] == Rehash(es + b, hash, capacity)
    {
      var j := 0;
      assert es + b[..0] == es;
      while j < |b|
        invariant 0 <= j <= |b|
        invariant temp[..] == Rehash(es + b[..j], hash, capacity)
      {
        var newIndex := HashIndex(b[j].key);
        RehashSnoc(es + b[..j], b[j], hash, capacity);
        assert es + b[..j + 1] == es + b[..j] + [b[j]];
        temp[newIndex] := temp[newIndex] + [b[j]];
        j := j + 1;
      }
      assert b[..j] == b;
    }

    /** `insert`: false and no change for a present key; otherwise size and
        the cached load factor are updated, the table is resized when that
        load factor reaches 0.75, and the pair is appended to its bucket. */
    method Insert(k: K, v: V) returns (inserted: bool)
      requires Valid()
      modifies this, table
      ensures Valid() && (table == old(table) || fresh(table))
      ensures (State(), inserted) == Tables.Insert(old(State()), hash, k, v)
    {
      ghost var t := State();
      var present := ContainsKey(k);
      LookupInSlot(table[..], hash, capacity, k);
      if present {
        return false;
      }
      AddNew(k, v);
      InsertValid(t, hash, k, v);
      return true;
    }

    /** The part of `insert` after the key was found absent: count it, resize
        if the load factor reached 0.75, and append the entry to its bucket. */
    method AddNew(k: K, v: V)
      requires table.Length == capacity && Shaped(State()) && IsPow2(capacity)
      requires !HasKey(table[Slot(hash, k, capacity)], k)
      modifies this, table
      ensures table.Length == capacity && IsPow2(capacity) && (table == old(table) || fresh(table))
      ensures State() == Tables.Insert(old(State()), hash, k, v).0
    {
      size := size + 1;
      loadFactor := Ratio(size, capacity);
      if !Less(loadFactor, HigherBound) {
        ReSize();
      }
      var index := HashIndex(k);
      table[index] := table[index] + [Entry(k, v)];
    }

    /** `erase`: false and no change for an absent key; otherwise the entry is
        removed from its bucket, size and the cached load factor are updated,
        and the table is resized when that load factor is at most 0.25. */
    method Erase(k: K) returns (erased: bool)
      requires Valid()
      modifies this, table
      ensures Valid() && (table == old(table) || fresh(table))
      ensures (State(), erased) == Tables.Erase(old(State()), hash, k)
    {
      ghost var t := State();
      var present := ContainsKey(k);
      LookupInSlot(table[..], hash, capacity, k);
      if !present {
        return false;
      }
      var index := HashIndex(k);
      var pos := SearchBucket(index, k);
      var i := pos.value;
      EraseSteps(t, hash, k, i);
      ghost var b := table[index];
      ghost var shrunk := Table(t.buckets[index := b[..i] + b[i + 1..]], t.size - 1, t.capacity, Ratio(t.size - 1, t.capacity));
      table[index] := table[index][..i] + table[index][i + 1..];
      size := size - 1;
      loadFactor := Ratio(size, capacity);
      assert State() == shrunk;
      if !Less(LowerBound, loadFactor) {
        ReSize();
      }
      EraseSpec(t, hash, k);
      return true;
    }

    /** `clear`: nothing on an empty table; otherwise a fresh array of empty
        buckets of the same capacity. */
    method Clear()
      requires Valid()
      modifies this
      ensures Valid() && (table == old(table) || fresh(table))
      ensures State() == Tables.Clear(old(State()))
    {
      ghost var t := State();
      if size == 0 {
        return;
      }
      table := new seq<Entry<K, V>>[capacity](_ => []);
      size := 0;
      loadFactor := Ratio(0, capacity);
      assert table[..] == seq(capacity, _ => []);
      ClearSpec(t, hash);
    }

    /** Non-const `operator[]`: the value bound to k, after inserting the
        default value when k is missing. */
    method Subscript(k: K) returns (v: V)
      requires Valid()
      modifies this, table
      ensures Valid() && (table == old(table) || fresh(table))
      ensures (State(), v) == Tables.Subscript(old(State()), hash, dflt, k)
    {
      ghost var t := State();
      LookupInSlot(table[..], hash, capacity, k);
      SubscriptSpec(t, hash, dflt, k);
      var present := ContainsKey(k);
      if !present {
        InsertSpec(t, hash, k, dflt);
        var _ := Insert(k, dflt);
      }
      var r := At(k);
      v := r.value;
    }

    /** `operator[](k) = v`: an assignment through the reference that
        non-const operator[] returns. */
    method SubscriptAssign(k: K, v: V)
      requires Valid()
      modifies this, table
      ensures Valid() && (table == old(table) || fresh(table))
      ensures State() == Tables.SubscriptAssign(old(State()), hash, dflt, k, v)
    {
      ghost var t := State();
      SubscriptValid(t, hash, dflt, k);
      var _ := Subscript(k);
      ghost var t1 := State();
      var index := HashIndex(k);
      LookupInSlot(table[..], hash, capacity, k);
      var pos := SearchBucket(index, k);
      ReplaceAt(table[index], k, v, pos.value);
      table[index] := table[index][pos.value := Entry(k, v)];
      SetValueValid(t1, hash, k, v);
    }

    /** `operator=` on its by-value parameter, which is already built: the
        four fields are swapped, so this map takes the parameter's state, empty
        or not, and the parameter, destroyed on return, takes this map's old
        state. */
    method Assign(other: HashMap<K, V>)
      requires other != this && other.Valid() && other.hash == hash
      modifies this, other
      ensures Valid() && table == old(other.table)
      ensures State() == old(other.State())
      ensures other.State() == old(State())
    {
      Swap(other);
    }

    /** `a = b` for a named map b: the parameter is built from b by the copy
        constructor, then swapped in by operator=. */
    method AssignCopy(other: HashMap<K, V>)
      requires other.Valid() && other.size > 0 && other.hash == hash
      modifies this
      ensures Valid() && fresh(table)
      ensures State() == InsertAll(Empty(), hash, Flatten(old(other.table[..])))
    {
      var copy := new HashMap.Copy(other);
      Assign(copy);
    }

    /** The std::swap of the four fields in operator=. */
    method Swap(other: HashMap<K, V>)
      requires other != this
      modifies this, other
      ensures table == old(other.table) && other.table == old(table)
      ensures capacity == old(other.capacity) && other.capacity == old(capacity)
      ensures size == old(other.size) && other.size == old(size)
      ensures loadFactor == old(other.loadFactor) && other.loadFactor == old(loadFactor)
    {
      table, other.table := other.table, table;
      capacity, other.capacity := other.capacity, capacity;
      loadFactor, other.loadFactor := other.loadFactor, loadFactor;
      size, other.size := other.size, size;
    }

    /** `operator==`: false at once when size, capacity or cached load factor
        differ; otherwise the two iterations are compared entry by entry up to
        this map's end. */
    method Equals(other: HashMap<K, V>) returns (eq: bool)
      requires Valid() && other.Valid()
      requires size > 0 || other.size > 0 || capacity != other.capacity
      ensures eq <==> Tables.Equal(State(), other.State())
    {
      if size != other.size || capacity != other.capacity || !SameValue(loadFactor, other.loadFactor) {
        return false;
      }
      eq := SameIteration(other);
    }

    /** The loop of operator==: walks both maps from begin, in step, until
        this map's end, and stops at the first pair of entries that differ. */
    method SameIteration(other: HashMap<K, V>) returns (eq: bool)
      requires Iterable() && other.Iterable() && size == other.size
      ensures eq <==> Flatten(table[..]) == Flatten(other.table[..])
    {
      var it1 := Begin();
      var it2 := other.Begin();
      var stop := End();
      eq := CompareFrom(it1, it2, stop, table[..], other.table[..]);
    }

    /** The `for (; it1 != end(); ++it1, ++it2)` loop of operator==, from
        both begin iterators. */
    static method CompareFrom(it1: ConstIterator<K, V>, it2: ConstIterator<K, V>, stop: ConstIterator<K, V>,
                              ghost bs1: seq<seq<Entry<K, V>>>, ghost bs2: seq<seq<Entry<K, V>>>)
        returns (eq: bool)
      requires it1 != it2 && it1 != stop && it2 != stop
      requires it1.hashMap.table.Length == it1.hashMap.capacity && it1.hashMap.table[..] == bs1
      requires it2.hashMap.table.Length == it2.hashMap.capacity && it2.hashMap.table[..] == bs2
      requires |Flatten(bs1)| == |Flatten(bs2)|
      requires Reached(bs1, it1.Position(), 0) && Reached(bs2, it2.Position(), 0)
      requires Reached(bs1, stop.Position(), |Flatten(bs1)|)
      modifies it1, it2
      ensures eq <==> Flatten(bs1) == Flatten(bs2)
    {
      ghost var F1, F2 := Flatten(bs1), Flatten(bs2);
      ghost var last := stop.Position();
      ghost var n := 0;
      while it1.NotEquals(stop)
        invariant it1.hashMap.table[..] == bs1 && it2.hashMap.table[..] == bs2
        invariant Reached(bs1, it1.Position(), n) && Reached(bs2, it2.Position(), n)
        invariant F1[..n] == F2[..n]
        decreases |F1| - n
      {
        AtEnd(bs1, it1.Position(), last, n);
        var same := CompareAndAdvance(it1, it2, bs1, bs2, n);
        if !same {
          return false;
        }
        TakeSnoc(F1, n);
        TakeSnoc(F2, n);
        n := n + 1;
      }
      AtEnd(bs1, it1.Position(), last, n);
      assert F1 == F1[..n] && F2 == F2[..n];
      return true;
    }

    /** The body of operator=='s loop: `*it1 != *it2` decides; when the two
        entries agree, `++it1, ++it2`. */
    static method CompareAndAdvance(it1: ConstIterator<K, V>, it2: ConstIterator<K, V>,
                                    ghost bs1: seq<seq<Entry<K, V>>>, ghost bs2: seq<seq<Entry<K, V>>>, ghost n: nat)
        returns (same: bool)
      requires it1 != it2
      requires it1.hashMap.table.Length == it1.hashMap.capacity && it1.hashMap.table[..] == bs1
      requires it2.hashMap.table.Length == it2.hashMap.capacity && it2.hashMap.table[..] == bs2
      requires Reached(bs1, it1.Position(), n) && n < |Flatten(bs1)|
      requires Reached(bs2, it2.Position(), n) && n < |Flatten(bs2)|
      modifies it1, it2
      ensures same <==> Flatten(bs1)[n] == Flatten(bs2)[n]
      ensures same ==> Reached(bs1, it1.Position(), n + 1) && Reached(bs2, it2.Position(), n + 1)
    {
      ghost var c1, c2 := it1.Position(), it2.Position();
      Step(bs1, c1, n);
      Step(bs2, c2, n);
      var e1 := it1.Deref();
      var e2 := it2.Deref();
      if e1 != e2 {
        return false;
      }
      it1.Next();
      it2.Next();
      return true;
    }

    /** `operator!=` */
    method NotEquals(other: HashMap<K, V>) returns (ne: bool)
      requires Valid() && other.Valid()
      requires size > 0 || other.size > 0 || capacity != other.capacity
      ensures ne <==> !Tables.Equal(State(), other.State())
    {
      var eq := Equals(other);
      return !eq;
    }

    /** `begin`: an iterator at the first entry of the first non-empty bucket. */
    method Begin() returns (it: ConstIterator<K, V>)
      requires Iterable()
      ensures fresh(it) && it.hashMap == this && Reached(table[..], it.Position(), 0)
    {
      it := new ConstIterator(this);
      BeginAt(table[..]);
      NextNonEmptySpec(table[..], 0);
      var j := 0;
      while j < capacity
        invariant 0 <= j <= capacity
        invariant forall m | 0 <= m < j :: table[m] == []
        invariant it.hashMap == this && NextNonEmpty(table[..], 0).Some?
                  && it.Position() == Cursors.Begin(table[..])
      {
        if table[j] != [] {
          it.bucketIndex := j;
          it.indexInBucket := 0;
          break;
        }
        j := j + 1;
      }
    }

    /** `end`: the iterator of the constructor advanced size times. */
    method End() returns (it: ConstIterator<K, V>)
      requires Iterable()
      ensures fresh(it) && it.hashMap == this && Reached(table[..], it.Position(), size)
    {
      ghost var bs := table[..];
      it := new ConstIterator(this);
      BeginAt(bs);
      var i := 0;
      while i != size
        invariant 0 <= i <= size
        invariant it.hashMap == this && Reached(bs, it.Position(), i)
        decreases size - i
      {
        Step(bs, it.Position(), i);
        it.Next();
        i := i + 1;
      }
    }
  }

  /** HashMap::const_iterator: a map and a (bucket, index in bucket) cursor. */
  class ConstIterator<K(==), V(==)> {
    const hashMap: HashMap<K, V>
    var bucketIndex: nat
    var indexInBucket: nat

    function Position(): Cursor
      reads this
    {
      Cursor(bucketIndex, indexInBucket)
    }

    /** Skips the empty buckets at the front; the map must not be empty. */
    constructor (m: HashMap<K, V>)
      requires m.Iterable()
      ensures hashMap == m && NextNonEmpty(m.table[..], 0).Some? && Position() == Cursors.Begin(m.table[..])
    {
      hashMap := m;
      bucketIndex := 0;
      indexInBucket := 0;
      new;
      NonEmptyBucket(m.table[..]);
      NextNonEmptySpec(m.table[..], 0);
      ghost var first := NextNonEmpty(m.table[..], 0).value;
      while m.table[bucketIndex] == []
        invariant bucketIndex <= first && indexInBucket == 0
        decreases first - bucketIndex
      {
        bucketIndex := bucketIndex + 1;
      }
    }

    /** Prefix `++`. */
    method Next()
      requires hashMap.table.Length == hashMap.capacity && bucketIndex < hashMap.capacity
      modifies this
      ensures Position() == Advance(hashMap.table[..], old(Position()))
    {
      if |hashMap.table[bucketIndex]| > indexInBucket + 1 {
        indexInBucket := indexInBucket + 1;
      } else {
        bucketIndex := bucketIndex + 1;
        var i := bucketIndex;
        while i < hashMap.capacity
          invariant bucketIndex == old(bucketIndex) + 1 <= i <= hashMap.capacity
          invariant indexInBucket == old(indexInBucket)
          invariant forall j | bucketIndex <= j < i :: hashMap.table[j] == []
        {
          if hashMap.table[i] != [] {
            NextNonEmptyAt(hashMap.table[..], bucketIndex, i);
            bucketIndex := i;
            indexInBucket := 0;
            break;
          }
          i := i + 1;
        }
        NextNonEmptySpec(hashMap.table[..], old(bucketIndex) + 1);
      }
    }

    /** `*`: the entry at the cursor. */
    method Deref() returns (e: Entry<K, V>)
      requires bucketIndex < hashMap.table.Length && indexInBucket < |hashMap.table[bucketIndex]|
      ensures e == hashMap.table[bucketIndex][indexInBucket]
    {
      e := hashMap.table[bucketIndex][indexInBucket];
    }

    /** `==`: the same bucket index and index in bucket, whatever the maps. */
    predicate Equals(other: ConstIterator<K, V>)
      reads this, other
      ensures Equals(other) <==> Position() == other.Position()
    {
      SamePosition(Position(), other.Position())
    }

    /** `!=` */
    predicate NotEquals(other: ConstIterator<K, V>)
      reads this, other
      ensures NotEquals(other) <==> !Equals(other)
    {
      indexInBucket != other.indexInBucket || bucketIndex != other.bucketIndex
    }
  }
}
