/** The position a HashMap::const_iterator holds, as a value: a bucket index
    and an index inside that bucket, and what `begin`, prefix `++` and `end`
    do to it over a given bucket array (HashMap.hpp, class const_iterator). */
module Cursors {
  import opened Tables

  datatype Cursor = Cursor(bucket: nat, index: nat)

  /** The number of entries stored in the buckets before bucket b. */
  function Offset<K, V>(bs: seq<seq<Entry<K, V>>>, b: nat): nat
    requires b <= |bs|
  {
    if b == 0 then 0 else Offset(bs, b - 1) + |bs[b - 1]|
  }

  /** c denotes entry p of the iteration order Flatten(bs). */
  predicate Points<K, V>(bs: seq<seq<Entry<K, V>>>, c: Cursor, p: nat) {
    && c.bucket < |bs|
    && c.index < |bs[c.bucket]|
    && Offset(bs, c.bucket) + c.index == p
  }

  /** The first non-empty bucket at or after `from`. */
  function NextNonEmpty<K, V>(bs: seq<seq<Entry<K, V>>>, from: nat): Option<nat>
    decreases |bs| - from
  {
    if from >= |bs| then None
    else if bs[from] != [] then Some(from)
    else NextNonEmpty(bs, from + 1)
  }

  /** The last non-empty bucket below `upto`. */
  function LastNonEmpty<K, V>(bs: seq<seq<Entry<K, V>>>, upto: nat): Option<nat>
    requires upto <= |bs|
  {
    if upto == 0 then None
    else if bs[upto - 1] != [] then Some(upto - 1)
    else LastNonEmpty(bs, upto - 1)
  }

  /** The iterator constructor (and `begin`, which repeats its scan): the
      first entry of the first non-empty bucket. */
  function Begin<K, V>(bs: seq<seq<Entry<K, V>>>): Cursor
    requires NextNonEmpty(bs, 0).Some?
  {
    Cursor(NextNonEmpty(bs, 0).value, 0)
  }

  /** Prefix `++`: the next entry of the bucket, else the first entry of the
      next non-empty bucket; when there is none the bucket index is bumped
      and the index in the bucket is left as it was. */
  function Advance<K, V>(bs: seq<seq<Entry<K, V>>>, c: Cursor): Cursor
    requires c.bucket < |bs|
  {
    if |bs[c.bucket]| > c.index + 1 then c.(index := c.index + 1)
    else match NextNonEmpty(bs, c.bucket + 1)
      case Some(j) => Cursor(j, 0)
      case None => c.(bucket := c.bucket + 1)
  }

  /** Where `++` leaves the cursor after the last entry. */
  function EndCursor<K, V>(bs: seq<seq<Entry<K, V>>>): Cursor
    requires LastNonEmpty(bs, |bs|).Some?
  {
    LastNonEmptySpec(bs, |bs|);
    var l := LastNonEmpty(bs, |bs|).value;
    Cursor(l + 1, |bs[l]| - 1)
  }

  /** c is where iteration stands after n steps: at entry n of Flatten(bs)
      while there is one, at the end cursor after the last. */
  predicate Reached<K, V>(bs: seq<seq<Entry<K, V>>>, c: Cursor, n: nat) {
    && n <= |Flatten(bs)|
    && (n < |Flatten(bs)| ==> Points(bs, c, n))
    && (n == |Flatten(bs)| ==> LastNonEmpty(bs, |bs|).Some? && c == EndCursor(bs))
  }

  /** The cursor after `begin` and n applications of `++`. */
  function Iterate<K, V>(bs: seq<seq<Entry<K, V>>>, n: nat): (c: Cursor)
    requires 0 < |Flatten(bs)| && n <= |Flatten(bs)|
    ensures Reached(bs, c, n)
  {
    if n == 0 then
      BeginAt(bs);
      Begin(bs)
    else
      var c := Iterate(bs, n - 1);
      Step(bs, c, n - 1);
      Advance(bs, c)
  }

  /** `==` and `!=` of const_iterator compare only the two indices. */
  predicate SamePosition(a: Cursor, b: Cursor) {
    a.index == b.index && a.bucket == b.bucket
  }

  // ==================================================================
  // Lemmas

  /** NextNonEmpty finds the first non-empty bucket at or after `from`, and
      answers None exactly when every bucket from there on is empty. */
  lemma {:induction false} NextNonEmptySpec<K, V>(bs: seq<seq<Entry<K, V>>>, from: nat)
    ensures var r := NextNonEmpty(bs, from);
            && (r.Some? ==> && from <= r.value < |bs| && bs[r.value] != []
                            && forall j | from <= j < r.value :: bs[j] == [])
            && (r.None? ==> forall j | from <= j < |bs| :: bs[j] == [])
    decreases |bs| - from
  {
    if from < |bs| && bs[from] == [] {
      NextNonEmptySpec(bs, from + 1);
    }
  }

  lemma NextNonEmptyAt<K, V>(bs: seq<seq<Entry<K, V>>>, from: nat, j: nat)
    requires from <= j < |bs| && bs[j] != [] && forall m | from <= m < j :: bs[m] == []
    ensures NextNonEmpty(bs, from) == Some(j)
  {
    NextNonEmptySpec(bs, from);
  }

  /** LastNonEmpty finds the last non-empty bucket below `upto`, and answers
      None exactly when every bucket below it is empty. */
  lemma {:induction false} LastNonEmptySpec<K, V>(bs: seq<seq<Entry<K, V>>>, upto: nat)
    requires upto <= |bs|
    ensures var r := LastNonEmpty(bs, upto);
            && (r.Some? ==> && r.value < upto && bs[r.value] != []
                            && forall j | r.value < j < upto :: bs[j] == [])
            && (r.None? ==> forall j | 0 <= j < upto :: bs[j] == [])
  {
    if upto > 0 && bs[upto - 1] == [] {
      LastNonEmptySpec(bs, upto - 1);
    }
  }

  lemma LastNonEmptyAt<K, V>(bs: seq<seq<Entry<K, V>>>, upto: nat, j: nat)
    requires j < upto <= |bs| && bs[j] != [] && forall m | j < m < upto :: bs[m] == []
    ensures LastNonEmpty(bs, upto) == Some(j)
  {
    LastNonEmptySpec(bs, upto);
  }

  lemma {:induction false} FlattenSplit<K, V>(bs: seq<seq<Entry<K, V>>>, b: nat)
    requires b <= |bs|
    ensures Flatten(bs) == Flatten(bs[..b]) + Flatten(bs[b..])
    decreases |bs|
  {
    if b == |bs| {
      assert bs[..b] == bs;
      assert bs[b..] == [];
    } else {
      var n := |bs| - 1;
      FlattenSplit(bs[..n], b);
      assert bs[..n][..b] == bs[..b];
      assert bs[b..][..|bs[b..]| - 1] == bs[..n][b..];
      assert bs[b..][|bs[b..]| - 1] == bs[n];
    }
  }

  /** Offset counts the entries Flatten lists before bucket b. */
  lemma {:induction false} OffsetLength<K, V>(bs: seq<seq<Entry<K, V>>>, b: nat)
    requires b <= |bs|
    ensures Offset(bs, b) == |Flatten(bs[..b])|
  {
    if b > 0 {
      OffsetLength(bs, b - 1);
      assert bs[..b][..b - 1] == bs[..b - 1];
    }
  }

  /** Flatten(bs) has |bs[b]| entries from bucket b. */
  lemma FlattenAround<K, V>(bs: seq<seq<Entry<K, V>>>, b: nat)
    requires b < |bs|
    ensures Flatten(bs) == Flatten(bs[..b]) + bs[b] + Flatten(bs[b + 1..])
    ensures |Flatten(bs)| == Offset(bs, b) + |bs[b]| + |Flatten(bs[b + 1..])|
  {
    FlattenSplit(bs, b + 1);
    OffsetLength(bs, b);
    assert bs[..b + 1][..b] == bs[..b];
  }

  /** Buckets from a up to j all empty: same offset at a and at j. */
  lemma {:induction false} OffsetOverEmpty<K, V>(bs: seq<seq<Entry<K, V>>>, a: nat, j: nat)
    requires a <= j <= |bs| && forall m | a <= m < j :: bs[m] == []
    ensures Offset(bs, j) == Offset(bs, a)
    decreases j
  {
    if a < j {
      OffsetOverEmpty(bs, a, j - 1);
      assert bs[..j][..j - 1] == bs[..j - 1];
    }
  }

  /** A cursor denotes the entry at its position of the iteration order. */
  lemma PointsAt<K, V>(bs: seq<seq<Entry<K, V>>>, c: Cursor, p: nat)
    requires Points(bs, c, p)
    ensures p < |Flatten(bs)| && Flatten(bs)[p] == bs[c.bucket][c.index]
  {
    FlattenAround(bs, c.bucket);
  }

  lemma {:induction false} NonEmptyBucket<K, V>(bs: seq<seq<Entry<K, V>>>)
    requires 0 < |Flatten(bs)|
    ensures NextNonEmpty(bs, 0).Some? && LastNonEmpty(bs, |bs|).Some?
  {
    NextNonEmptySpec(bs, 0);
    LastNonEmptySpec(bs, |bs|);
    if NextNonEmpty(bs, 0).None? || LastNonEmpty(bs, |bs|).None? {
      EmptyBucketsFlatten(bs);
    }
  }

  lemma BeginPoints<K, V>(bs: seq<seq<Entry<K, V>>>)
    requires 0 < |Flatten(bs)|
    ensures NextNonEmpty(bs, 0).Some? && Points(bs, Begin(bs), 0)
  {
    NonEmptyBucket(bs);
    var j := NextNonEmpty(bs, 0).value;
    NextNonEmptySpec(bs, 0);
    OffsetOverEmpty(bs, 0, j);
  }

  /** `++` from entry p, when there is an entry p + 1, reaches it. */
  lemma AdvancePoints<K, V>(bs: seq<seq<Entry<K, V>>>, c: Cursor, p: nat)
    requires Points(bs, c, p) && p + 1 < |Flatten(bs)|
    ensures Points(bs, Advance(bs, c), p + 1)
  {
    if |bs[c.bucket]| <= c.index + 1 {
      FlattenAround(bs, c.bucket);
      assert Offset(bs, c.bucket + 1) == p + 1 by {
        assert bs[..c.bucket + 1][..c.bucket] == bs[..c.bucket];
      }
      NextNonEmptySpec(bs, c.bucket + 1);
      match NextNonEmpty(bs, c.bucket + 1)
      case Some(j) =>
        OffsetOverEmpty(bs, c.bucket + 1, j);
      case None =>
        var rest := bs[c.bucket + 1..];
        assert forall m | 0 <= m < |rest| :: rest[m] == [];
        EmptyBucketsFlatten(rest);
    }
  }

  /** `++` from the last entry gives the end cursor: the bucket after the
      last non-empty one, with the index of that bucket's last entry. */
  lemma AdvanceLast<K, V>(bs: seq<seq<Entry<K, V>>>, c: Cursor)
    requires 0 < |Flatten(bs)| && Points(bs, c, |Flatten(bs)| - 1)
    ensures LastNonEmpty(bs, |bs|).Some? && Advance(bs, c) == EndCursor(bs)
  {
    var b := c.bucket;
    FlattenAround(bs, b);
    assert c.index + 1 == |bs[b]| && Flatten(bs[b + 1..]) == [];
    forall m | b < m < |bs| ensures bs[m] == [] {
      FlattenAround(bs[b + 1..], m - b - 1);
    }
    LastNonEmptyAt(bs, |bs|, b);
    NextNonEmptySpec(bs, b + 1);
  }

  lemma BeginAt<K, V>(bs: seq<seq<Entry<K, V>>>)
    requires 0 < |Flatten(bs)|
    ensures NextNonEmpty(bs, 0).Some? && Reached(bs, Begin(bs), 0)
  {
    BeginPoints(bs);
  }

  /** One `++` before the end: it is allowed (the bucket index is in range),
      the cursor is not yet the end cursor, and it moves to the next step. */
  lemma Step<K, V>(bs: seq<seq<Entry<K, V>>>, c: Cursor, n: nat)
    requires Reached(bs, c, n) && n < |Flatten(bs)|
    ensures c.bucket < |bs| && Reached(bs, Advance(bs, c), n + 1)
    ensures LastNonEmpty(bs, |bs|).Some? && !SamePosition(c, EndCursor(bs))
    ensures bs[c.bucket][c.index] == Flatten(bs)[n]
  {
    PointsAt(bs, c, n);
    NonEmptyBucket(bs);
    PointsNotEnd(bs, c, n);
    if n + 1 < |Flatten(bs)| {
      AdvancePoints(bs, c, n);
    } else {
      AdvanceLast(bs, c);
    }
  }

  /** No cursor of an entry is the end cursor. */
  lemma PointsNotEnd<K, V>(bs: seq<seq<Entry<K, V>>>, c: Cursor, p: nat)
    requires Points(bs, c, p) && LastNonEmpty(bs, |bs|).Some?
    ensures !SamePosition(c, EndCursor(bs))
  {
    LastNonEmptySpec(bs, |bs|);
  }

  /** Comparing with the end cursor tells whether the iteration is over. */
  lemma AtEnd<K, V>(bs: seq<seq<Entry<K, V>>>, c: Cursor, stop: Cursor, n: nat)
    requires Reached(bs, c, n) && Reached(bs, stop, |Flatten(bs)|)
    ensures SamePosition(c, stop) <==> n == |Flatten(bs)|
  {
    if n < |Flatten(bs)| {
      PointsNotEnd(bs, c, n);
    }
  }

  /** Iteration from `begin` visits the entries in the order Flatten gives
      (bucket 0 first, each bucket in stored order), each exactly once, and
      reaches `end` exactly after size steps. */
  lemma IterationOrder<K, V>(bs: seq<seq<Entry<K, V>>>, i: nat, n: nat)
    requires 0 < |Flatten(bs)| && i <= |Flatten(bs)| && n <= |Flatten(bs)|
    ensures i < |Flatten(bs)| ==> bs[Iterate(bs, i).bucket][Iterate(bs, i).index] == Flatten(bs)[i]
    ensures SamePosition(Iterate(bs, i), Iterate(bs, n)) <==> i == n
  {
    var F := Flatten(bs);
    NonEmptyBucket(bs);
    if i < |F| {
      PointsAt(bs, Iterate(bs, i), i);
    }
    if i < |F| && n == |F| {
      PointsNotEnd(bs, Iterate(bs, i), i);
    } else if n < |F| && i == |F| {
      PointsNotEnd(bs, Iterate(bs, n), n);
    }
  }
}
