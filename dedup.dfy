/** pandas' `drop_duplicates(subset=..., keep=...)` on a table given as a sequence of rows,
    for a key function that projects a row onto the `subset` columns. */
module Dedup {

  function KeySet<T, K>(s: seq<T>, key: T -> K): set<K> {
    set i | 0 <= i < |s| :: key(s[i])
  }

  /** No two rows of `s` share a key. */
  predicate DistinctKeys<T, K(==)>(s: seq<T>, key: T -> K) {
    forall i, j :: 0 <= i < j < |s| ==> key(s[i]) != key(s[j])
  }

  /** Row `i` is the last row of `s` with its key. */
  predicate IsLastOfKey<T, K(==)>(s: seq<T>, key: T -> K, i: int)
    requires 0 <= i < |s|
  {
    forall j | i < j < |s| :: key(s[j]) != key(s[i])
  }

  /** Row `i` is the first row of `s` with its key. */
  predicate IsFirstOfKey<T, K(==)>(s: seq<T>, key: T -> K, i: int)
    requires 0 <= i < |s|
  {
    forall j | 0 <= j < i :: key(s[j]) != key(s[i])
  }

  /** `keep='last'`: the rows of `s[from..]` that no later row of `s` shares a key with, in order. */
  function KeepLastFrom<T, K(==)>(s: seq<T>, key: T -> K, from: nat): (r: seq<T>)
    requires from <= |s|
    ensures |r| <= |s| - from
    decreases |s| - from
  {
    if from == |s| then []
    else if IsLastOfKey(s, key, from) then [s[from]] + KeepLastFrom(s, key, from + 1)
    else KeepLastFrom(s, key, from + 1)
  }

  /** The table after `keep='last'`: never longer than the input, and non-empty when
      the input is (its last row always survives). */
  function KeepLast<T, K(==)>(s: seq<T>, key: T -> K): (r: seq<T>)
    ensures |r| <= |s|
    ensures s != [] ==> r != []
  {
    if s != [] then
      KeepLastFromKeeps(s, key, 0, |s| - 1);
      KeepLastFrom(s, key, 0)
    else
      KeepLastFrom(s, key, 0)
  }

  /** `keep='first'`: the rows of `s[..upto]` that no earlier row shares a key with, in order. */
  function KeepFirstUpTo<T, K(==)>(s: seq<T>, key: T -> K, upto: nat): (r: seq<T>)
    requires upto <= |s|
    ensures |r| <= upto
  {
    if upto == 0 then []
    else if IsFirstOfKey(s, key, upto - 1) then KeepFirstUpTo(s, key, upto - 1) + [s[upto - 1]]
    else KeepFirstUpTo(s, key, upto - 1)
  }

  /** The table after `keep='first'`: never longer than the input, and non-empty when
      the input is (its first row always survives). */
  function KeepFirst<T, K(==)>(s: seq<T>, key: T -> K): (r: seq<T>)
    ensures |r| <= |s|
    ensures s != [] ==> r != []
  {
    if s != [] then
      KeepFirstUpToKeeps(s, key, |s|, 0);
      KeepFirstUpTo(s, key, |s|)
    else
      KeepFirstUpTo(s, key, |s|)
  }

  /** `x` is a row of `s` that is the last row with its key. */
  ghost predicate IsLastRow<T, K>(s: seq<T>, key: T -> K, x: T) {
    exists i :: 0 <= i < |s| && s[i] == x && IsLastOfKey(s, key, i)
  }

  /** `x` is a row of `s` that is the first row with its key. */
  ghost predicate IsFirstRow<T, K>(s: seq<T>, key: T -> K, x: T) {
    exists i :: 0 <= i < |s| && s[i] == x && IsFirstOfKey(s, key, i)
  }

  /** `idx` lists positions of `s`, in increasing order, whose rows make up `r`. */
  ghost predicate Picks<T>(s: seq<T>, r: seq<T>, idx: seq<int>) {
    && |idx| == |r|
    && (forall p | 0 <= p < |idx| :: 0 <= idx[p] < |s| && r[p] == s[idx[p]])
    && (forall p, q | 0 <= p < q < |idx| :: idx[p] < idx[q])
  }

  /** Taking one more row in front of picks at later positions is again a pick. */
  lemma PicksCons<T>(s: seq<T>, r: seq<T>, idx: seq<int>, from: int)
    requires Picks(s, r, idx) && 0 <= from < |s|
    requires forall p | 0 <= p < |idx| :: from < idx[p]
    ensures Picks(s, [s[from]] + r, [from] + idx)
  {
    assert forall p | 1 <= p < |idx| + 1 :: ([from] + idx)[p] == idx[p - 1] && ([s[from]] + r)[p] == r[p - 1];
  }

  /** `r` is `s` with some rows removed and the others in their original order. */
  ghost predicate IsSubsequence<T>(r: seq<T>, s: seq<T>) {
    exists idx :: Picks(s, r, idx)
  }

  /** `r` is the rows of `s` at exactly the positions that are the last of their key,
      in increasing position order: this fixes `r` even when `s` holds equal rows. */
  ghost predicate TakesLastOfEachKey<T, K>(s: seq<T>, key: T -> K, r: seq<T>) {
    exists idx :: Picks(s, r, idx) && forall i | 0 <= i < |s| :: i in idx <==> IsLastOfKey(s, key, i)
  }

  /** The same with the first row of each key. */
  ghost predicate TakesFirstOfEachKey<T, K>(s: seq<T>, key: T -> K, r: seq<T>) {
    exists idx :: Picks(s, r, idx) && forall i | 0 <= i < |s| :: i in idx <==> IsFirstOfKey(s, key, i)
  }

  /** The positions of `s[from..]` that `keep='last'` keeps. */
  ghost function LastPositionsFrom<T, K>(s: seq<T>, key: T -> K, from: nat): seq<int>
    requires from <= |s|
    decreases |s| - from
  {
    if from == |s| then []
    else if IsLastOfKey(s, key, from) then [from] + LastPositionsFrom(s, key, from + 1)
    else LastPositionsFrom(s, key, from + 1)
  }

  /** The positions of `s[..upto]` that `keep='first'` keeps. */
  ghost function FirstPositionsUpTo<T, K>(s: seq<T>, key: T -> K, upto: nat): seq<int>
    requires upto <= |s|
  {
    if upto == 0 then []
    else if IsFirstOfKey(s, key, upto - 1) then FirstPositionsUpTo(s, key, upto - 1) + [upto - 1]
    else FirstPositionsUpTo(s, key, upto - 1)
  }

  lemma KeySetCons<T, K>(x: T, s: seq<T>, key: T -> K)
    ensures KeySet([x] + s, key) == {key(x)} + KeySet(s, key)
  {
    var c := [x] + s;
    forall k | k in KeySet(c, key) ensures k in {key(x)} + KeySet(s, key) {
      var i :| 0 <= i < |c| && key(c[i]) == k;
      if i > 0 { assert c[i] == s[i - 1]; }
    }
    forall k | k in KeySet(s, key) ensures k in KeySet(c, key) {
      var i :| 0 <= i < |s| && key(s[i]) == k;
      assert c[i + 1] == s[i];
    }
    assert c[0] == x;
  }

  lemma KeySetSnoc<T, K>(s: seq<T>, x: T, key: T -> K)
    ensures KeySet(s + [x], key) == KeySet(s, key) + {key(x)}
  {
    var c := s + [x];
    forall k | k in KeySet(c, key) ensures k in KeySet(s, key) + {key(x)} {
      var i :| 0 <= i < |c| && key(c[i]) == k;
      if i < |s| { assert c[i] == s[i]; }
    }
    forall k | k in KeySet(s, key) ensures k in KeySet(c, key) {
      var i :| 0 <= i < |s| && key(s[i]) == k;
      assert c[i] == s[i];
    }
    assert c[|s|] == x;
  }

  // ---------------------------------------------------------------------------
  // keep='last'

  /** Every kept row is the last row of `s` with its key, and the kept rows appear
      in the order of their positions in `s`. */
  lemma {:induction false} KeepLastFromOrigin<T, K>(s: seq<T>, key: T -> K, from: nat, p: int)
    requires from <= |s| && 0 <= p < |KeepLastFrom(s, key, from)|
    ensures IsLastRow(s, key, KeepLastFrom(s, key, from)[p])
    decreases |s| - from
  {
    var r := KeepLastFrom(s, key, from);
    if IsLastOfKey(s, key, from) {
      if p == 0 {
        assert s[from] == r[p];
      } else {
        KeepLastFromOrigin(s, key, from + 1, p - 1);
      }
    } else {
      KeepLastFromOrigin(s, key, from + 1, p);
    }
  }

  lemma {:induction false} KeepLastFromKeys<T, K>(s: seq<T>, key: T -> K, from: nat)
    requires from <= |s|
    ensures KeySet(KeepLastFrom(s, key, from), key) == KeySet(s[from..], key)
    ensures DistinctKeys(KeepLastFrom(s, key, from), key)
    decreases |s| - from
  {
    if from < |s| {
      var rest := KeepLastFrom(s, key, from + 1);
      KeepLastFromKeys(s, key, from + 1);
      assert s[from..] == [s[from]] + s[from + 1..];
      KeySetCons(s[from], s[from + 1..], key);
      if IsLastOfKey(s, key, from) {
        var r := [s[from]] + rest;
        KeySetCons(s[from], rest, key);
        assert key(s[from]) !in KeySet(s[from + 1..], key);
        forall i, j | 0 <= i < j < |r| ensures key(r[i]) != key(r[j]) {
          if i == 0 {
            assert r[j] == rest[j - 1];
            assert key(rest[j - 1]) in KeySet(rest, key);
          } else {
            assert r[i] == rest[i - 1] && r[j] == rest[j - 1];
          }
        }
      } else {
        var j :| from < j < |s| && key(s[j]) == key(s[from]);
        assert key(s[from]) in KeySet(s[from + 1..], key) by {
          assert s[from + 1..][j - from - 1] == s[j];
        }
      }
    }
  }

  /** Every row that is the last of its key in `s[from..]` survives. */
  lemma {:induction false} KeepLastFromKeeps<T, K>(s: seq<T>, key: T -> K, from: nat, i: int)
    requires from <= i < |s| && IsLastOfKey(s, key, i)
    ensures s[i] in KeepLastFrom(s, key, from)
    decreases |s| - from
  {
    if from < i {
      KeepLastFromKeeps(s, key, from + 1, i);
    }
  }

  /** The rows `keep='last'` keeps from `s[from..]` are taken at increasing positions. */
  lemma {:induction false} KeepLastFromOrder<T, K>(s: seq<T>, key: T -> K, from: nat)
    requires from <= |s|
    ensures Picks(s, KeepLastFrom(s, key, from), LastPositionsFrom(s, key, from))
    ensures forall p | 0 <= p < |LastPositionsFrom(s, key, from)| :: from <= LastPositionsFrom(s, key, from)[p]
    ensures forall i | 0 <= i < |s| :: i in LastPositionsFrom(s, key, from) <==> from <= i && IsLastOfKey(s, key, i)
    decreases |s| - from
  {
    if from < |s| {
      KeepLastFromOrder(s, key, from + 1);
      if IsLastOfKey(s, key, from) {
        var r, idx := KeepLastFrom(s, key, from + 1), LastPositionsFrom(s, key, from + 1);
        assert forall p | 1 <= p < |idx| + 1 :: ([from] + idx)[p] == idx[p - 1] && ([s[from]] + r)[p] == r[p - 1];
      }
    }
  }

  /** After `keep='last'`, no two rows share a key, every key of the input is still
      present, exactly the rows that are the last of their key survive, and they
      keep their relative order: the result lists the rows at the last positions of
      their keys, each taken from a strictly later position than the one before it. */
  lemma KeepLastSpec<T, K>(s: seq<T>, key: T -> K)
    ensures DistinctKeys(KeepLast(s, key), key)
    ensures KeySet(KeepLast(s, key), key) == KeySet(s, key)
    ensures forall i | 0 <= i < |s| && IsLastOfKey(s, key, i) :: s[i] in KeepLast(s, key)
    ensures forall x | x in KeepLast(s, key) :: IsLastRow(s, key, x)
    ensures IsSubsequence(KeepLast(s, key), s)
    ensures TakesLastOfEachKey(s, key, KeepLast(s, key))
  {
    KeepLastFromOrder(s, key, 0);
    KeepLastFromKeys(s, key, 0);
    assert s[0..] == s;
    forall i | 0 <= i < |s| && IsLastOfKey(s, key, i) ensures s[i] in KeepLast(s, key) {
      KeepLastFromKeeps(s, key, 0, i);
    }
    forall x | x in KeepLast(s, key) ensures IsLastRow(s, key, x) {
      var p :| 0 <= p < |KeepLast(s, key)| && KeepLast(s, key)[p] == x;
      KeepLastFromOrigin(s, key, 0, p);
    }
  }

  /** Two strictly increasing position lists holding the same positions are equal. */
  lemma {:induction false} IncreasingSamePositions(a: seq<int>, b: seq<int>)
    requires forall p, q | 0 <= p < q < |a| :: a[p] < a[q]
    requires forall p, q | 0 <= p < q < |b| :: b[p] < b[q]
    requires forall i :: i in a <==> i in b
    ensures a == b
  {
    if b != [] {
      assert b[0] in b;
    }
    if a != [] {
      assert a[0] in a;
      assert a[0] in b;
      assert b[0] in b;
      assert b[0] in a;
      assert a[0] == b[0] by {
        var p :| 0 <= p < |b| && b[p] == a[0];
        var q :| 0 <= q < |a| && a[q] == b[0];
        assert b[0] <= b[p] && a[0] <= a[q];
      }
      forall i ensures i in a[1..] <==> i in b[1..] {
        if i in a[1..] {
          var p :| 1 <= p < |a| && a[p] == i;
          assert i != a[0] && i in b;
          var q :| 0 <= q < |b| && b[q] == i;
          assert q != 0 && b[q] == b[1..][q - 1];
        }
        if i in b[1..] {
          var q :| 1 <= q < |b| && b[q] == i;
          assert i != b[0] && i in a;
          var p :| 0 <= p < |a| && a[p] == i;
          assert p != 0 && a[p] == a[1..][p - 1];
        }
      }
      IncreasingSamePositions(a[1..], b[1..]);
      assert a == [a[0]] + a[1..] && b == [b[0]] + b[1..];
    }
  }

  lemma PicksSamePositions<T>(s: seq<T>, r1: seq<T>, r2: seq<T>, idx1: seq<int>, idx2: seq<int>)
    requires Picks(s, r1, idx1) && Picks(s, r2, idx2)
    requires forall i :: i in idx1 <==> i in idx2
    ensures r1 == r2
  {
    IncreasingSamePositions(idx1, idx2);
  }

  /** The order clause of KeepLastSpec determines the result: at most one table takes
      the last row of each key in order, so KeepLast is the only one. */
  lemma TakesLastOfEachKeyUnique<T, K>(s: seq<T>, key: T -> K, r1: seq<T>, r2: seq<T>)
    requires TakesLastOfEachKey(s, key, r1) && TakesLastOfEachKey(s, key, r2)
    ensures r1 == r2
  {
    var idx1 :| Picks(s, r1, idx1) && forall i | 0 <= i < |s| :: i in idx1 <==> IsLastOfKey(s, key, i);
    var idx2 :| Picks(s, r2, idx2) && forall i | 0 <= i < |s| :: i in idx2 <==> IsLastOfKey(s, key, i);
    forall i ensures i in idx1 <==> i in idx2 {
      if i in idx1 { var p :| 0 <= p < |idx1| && idx1[p] == i; }
      if i in idx2 { var p :| 0 <= p < |idx2| && idx2[p] == i; }
    }
    PicksSamePositions(s, r1, r2, idx1, idx2);
  }

  /** The same for the order clause of KeepFirstSpec. */
  lemma TakesFirstOfEachKeyUnique<T, K>(s: seq<T>, key: T -> K, r1: seq<T>, r2: seq<T>)
    requires TakesFirstOfEachKey(s, key, r1) && TakesFirstOfEachKey(s, key, r2)
    ensures r1 == r2
  {
    var idx1 :| Picks(s, r1, idx1) && forall i | 0 <= i < |s| :: i in idx1 <==> IsFirstOfKey(s, key, i);
    var idx2 :| Picks(s, r2, idx2) && forall i | 0 <= i < |s| :: i in idx2 <==> IsFirstOfKey(s, key, i);
    forall i ensures i in idx1 <==> i in idx2 {
      if i in idx1 { var p :| 0 <= p < |idx1| && idx1[p] == i; }
      if i in idx2 { var p :| 0 <= p < |idx2| && idx2[p] == i; }
    }
    PicksSamePositions(s, r1, r2, idx1, idx2);
  }

  /** Repeated equal rows: on [1, 2, 1] keep-last gives [2, 1], and the reordered
      table [1, 2] does not meet the order clause. */
  lemma RepeatedRowsKeepLast()
    ensures KeepLast([1, 2, 1], (x: int) => x) == [2, 1]
    ensures !TakesLastOfEachKey([1, 2, 1], (x: int) => x, [1, 2])
  {
    var s, id := [1, 2, 1], (x: int) => x;
    assert id(s[2]) == id(s[0]);
    assert IsLastOfKey(s, id, 1) && IsLastOfKey(s, id, 2) && !IsLastOfKey(s, id, 0);
    assert KeepLast(s, id) == [2, 1];
    KeepLastSpec(s, id);
    if TakesLastOfEachKey(s, id, [1, 2]) {
      TakesLastOfEachKeyUnique(s, id, [1, 2], KeepLast(s, id));
    }
  }

  /** On the same rows keep-first gives [1, 2], and [2, 1] does not meet its order
      clause. */
  lemma RepeatedRowsKeepFirst()
    ensures KeepFirst([1, 2, 1], (x: int) => x) == [1, 2]
    ensures !TakesFirstOfEachKey([1, 2, 1], (x: int) => x, [2, 1])
  {
    var s, id := [1, 2, 1], (x: int) => x;
    assert id(s[0]) == id(s[2]);
    assert IsFirstOfKey(s, id, 0) && IsFirstOfKey(s, id, 1) && !IsFirstOfKey(s, id, 2);
    assert KeepFirstUpTo(s, id, 1) == [1];
    assert KeepFirstUpTo(s, id, 2) == [1, 2];
    assert KeepFirst(s, id) == KeepFirstUpTo(s, id, 3) == [1, 2];
    KeepFirstSpec(s, id);
    if TakesFirstOfEachKey(s, id, [2, 1]) {
      TakesFirstOfEachKeyUnique(s, id, [2, 1], KeepFirst(s, id));
    }
  }

  /** A table whose keys are already distinct is left as it is. */
  lemma {:induction false} KeepLastFromDistinct<T, K>(s: seq<T>, key: T -> K, from: nat)
    requires from <= |s| && DistinctKeys(s, key)
    ensures KeepLastFrom(s, key, from) == s[from..]
    decreases |s| - from
  {
    if from < |s| {
      KeepLastFromDistinct(s, key, from + 1);
      assert IsLastOfKey(s, key, from);
      assert s[from..] == [s[from]] + s[from + 1..];
    }
  }

  lemma KeepLastIdempotent<T, K>(s: seq<T>, key: T -> K)
    ensures KeepLast(KeepLast(s, key), key) == KeepLast(s, key)
  {
    var r := KeepLast(s, key);
    KeepLastSpec(s, key);
    KeepLastFromDistinct(r, key, 0);
    assert r[0..] == r;
  }

  /** Merging stored rows with a new batch under `keep='last'`, the batch overrides:
      every batch row that is the last of its key in the batch survives. */
  lemma KeepLastMergeBatchSurvives<T, K>(stored: seq<T>, batch: seq<T>, key: T -> K, j: int)
    requires 0 <= j < |batch| && IsLastOfKey(batch, key, j)
    ensures batch[j] in KeepLast(stored + batch, key)
  {
    var s := stored + batch;
    var n := |stored|;
    assert s[n + j] == batch[j];
    assert IsLastOfKey(s, key, n + j) by {
      forall m | n + j < m < |s| ensures key(s[m]) != key(s[n + j]) {
        assert s[m] == batch[m - n];
      }
    }
    KeepLastSpec(s, key);
  }

  /** A kept row is the last row of the input with its key. */
  lemma KeepLastOrigin<T, K>(s: seq<T>, key: T -> K, x: T)
    requires x in KeepLast(s, key)
    ensures IsLastRow(s, key, x)
  {
    var p :| 0 <= p < |KeepLast(s, key)| && KeepLast(s, key)[p] == x;
    KeepLastFromOrigin(s, key, 0, p);
  }

  /** ... and a surviving row whose key occurs in the batch is the batch's last row
      with that key, never a stored row. */
  lemma KeepLastMergeBatchWins<T, K>(stored: seq<T>, batch: seq<T>, key: T -> K, x: T)
    requires x in KeepLast(stored + batch, key) && key(x) in KeySet(batch, key)
    ensures IsLastRow(batch, key, x)
  {
    var s := stored + batch;
    var n := |stored|;
    KeepLastOrigin(s, key, x);
    var i :| 0 <= i < |s| && s[i] == x && IsLastOfKey(s, key, i);
    var b :| 0 <= b < |batch| && key(batch[b]) == key(x);
    assert s[n + b] == batch[b];
    assert i >= n;
    assert batch[i - n] == x;
    assert IsLastOfKey(batch, key, i - n) by {
      forall m | i - n < m < |batch| ensures key(batch[m]) != key(batch[i - n]) {
        assert s[n + m] == batch[m];
      }
    }
  }

  /** ... while a stored row that is the last of its key among the stored rows
      survives when the batch has no row with that key. */
  lemma KeepLastMergeStoredSurvives<T, K>(stored: seq<T>, batch: seq<T>, key: T -> K, i: int)
    requires 0 <= i < |stored| && IsLastOfKey(stored, key, i) && key(stored[i]) !in KeySet(batch, key)
    ensures stored[i] in KeepLast(stored + batch, key)
  {
    var s := stored + batch;
    var n := |stored|;
    assert s[i] == stored[i];
    assert IsLastOfKey(s, key, i) by {
      forall m | i < m < |s| ensures key(s[m]) != key(s[i]) {
        if m < n {
          assert s[m] == stored[m];
        } else {
          assert s[m] == batch[m - n];
          assert key(batch[m - n]) in KeySet(batch, key);
        }
      }
    }
    KeepLastSpec(s, key);
  }

  // ---------------------------------------------------------------------------
  // keep='first'

  lemma {:induction false} KeepFirstUpToOrigin<T, K>(s: seq<T>, key: T -> K, upto: nat, p: int)
    requires upto <= |s| && 0 <= p < |KeepFirstUpTo(s, key, upto)|
    ensures IsFirstRow(s, key, KeepFirstUpTo(s, key, upto)[p])
  {
    var prev := KeepFirstUpTo(s, key, upto - 1);
    if IsFirstOfKey(s, key, upto - 1) && p == |prev| {
      assert s[upto - 1] == KeepFirstUpTo(s, key, upto)[p];
    } else {
      KeepFirstUpToOrigin(s, key, upto - 1, p);
      assert KeepFirstUpTo(s, key, upto)[p] == prev[p];
    }
  }

  lemma {:induction false} KeepFirstUpToKeys<T, K>(s: seq<T>, key: T -> K, upto: nat)
    requires upto <= |s|
    ensures KeySet(KeepFirstUpTo(s, key, upto), key) == KeySet(s[..upto], key)
    ensures DistinctKeys(KeepFirstUpTo(s, key, upto), key)
  {
    if upto > 0 {
      var m := upto - 1;
      var prev := KeepFirstUpTo(s, key, m);
      KeepFirstUpToKeys(s, key, m);
      assert s[..upto] == s[..m] + [s[m]];
      KeySetSnoc(s[..m], s[m], key);
      if IsFirstOfKey(s, key, m) {
        var r := prev + [s[m]];
        KeySetSnoc(prev, s[m], key);
        assert key(s[m]) !in KeySet(s[..m], key);
        forall i, j | 0 <= i < j < |r| ensures key(r[i]) != key(r[j]) {
          if j == |prev| {
            assert r[i] == prev[i];
            assert key(prev[i]) in KeySet(prev, key);
          } else {
            assert r[i] == prev[i] && r[j] == prev[j];
          }
        }
      } else {
        var j :| 0 <= j < m && key(s[j]) == key(s[m]);
        assert key(s[m]) in KeySet(s[..m], key) by {
          assert s[..m][j] == s[j];
        }
      }
    }
  }

  lemma {:induction false} KeepFirstUpToKeeps<T, K>(s: seq<T>, key: T -> K, upto: nat, i: int)
    requires 0 <= i < upto <= |s| && IsFirstOfKey(s, key, i)
    ensures s[i] in KeepFirstUpTo(s, key, upto)
  {
    if i < upto - 1 {
      KeepFirstUpToKeeps(s, key, upto - 1, i);
    }
  }

  /** The rows `keep='first'` keeps from `s[..upto]` are taken at increasing positions. */
  lemma {:induction false} KeepFirstUpToOrder<T, K>(s: seq<T>, key: T -> K, upto: nat)
    requires upto <= |s|
    ensures Picks(s, KeepFirstUpTo(s, key, upto), FirstPositionsUpTo(s, key, upto))
    ensures forall p | 0 <= p < |FirstPositionsUpTo(s, key, upto)| :: FirstPositionsUpTo(s, key, upto)[p] < upto
    ensures forall i | 0 <= i < |s| :: i in FirstPositionsUpTo(s, key, upto) <==> i < upto && IsFirstOfKey(s, key, i)
  {
    if upto > 0 {
      KeepFirstUpToOrder(s, key, upto - 1);
      if IsFirstOfKey(s, key, upto - 1) {
        var r, idx := KeepFirstUpTo(s, key, upto - 1), FirstPositionsUpTo(s, key, upto - 1);
        assert forall p | 0 <= p < |idx| :: (idx + [upto - 1])[p] == idx[p] && (r + [s[upto - 1]])[p] == r[p];
      }
    }
  }

  /** After `keep='first'`, no two rows share a key, every key of the input is still
      present, exactly the rows that are the first of their key survive, and they
      keep their relative order: the result lists the rows at the first positions of
      their keys, in increasing position order. */
  lemma KeepFirstSpec<T, K>(s: seq<T>, key: T -> K)
    ensures DistinctKeys(KeepFirst(s, key), key)
    ensures KeySet(KeepFirst(s, key), key) == KeySet(s, key)
    ensures forall i | 0 <= i < |s| && IsFirstOfKey(s, key, i) :: s[i] in KeepFirst(s, key)
    ensures forall x | x in KeepFirst(s, key) :: IsFirstRow(s, key, x)
    ensures IsSubsequence(KeepFirst(s, key), s)
    ensures TakesFirstOfEachKey(s, key, KeepFirst(s, key))
  {
    KeepFirstUpToOrder(s, key, |s|);
    KeepFirstUpToKeys(s, key, |s|);
    assert s[..|s|] == s;
    forall i | 0 <= i < |s| && IsFirstOfKey(s, key, i) ensures s[i] in KeepFirst(s, key) {
      KeepFirstUpToKeeps(s, key, |s|, i);
    }
    forall x | x in KeepFirst(s, key) ensures IsFirstRow(s, key, x) {
      var p :| 0 <= p < |KeepFirst(s, key)| && KeepFirst(s, key)[p] == x;
      KeepFirstUpToOrigin(s, key, |s|, p);
    }
  }

  /** Merging stored rows with a new batch under `keep='first'`, the stored rows
      win: every stored row that is the first of its key among them survives. */
  lemma KeepFirstMergeStoredSurvives<T, K>(stored: seq<T>, batch: seq<T>, key: T -> K, i: int)
    requires 0 <= i < |stored| && IsFirstOfKey(stored, key, i)
    ensures stored[i] in KeepFirst(stored + batch, key)
  {
    var s := stored + batch;
    assert s[i] == stored[i];
    assert IsFirstOfKey(s, key, i) by {
      forall m | 0 <= m < i ensures key(s[m]) != key(s[i]) {
        assert s[m] == stored[m];
      }
    }
    KeepFirstSpec(s, key);
  }

  /** ... and a surviving row whose key occurs among the stored rows is the first
      stored row with that key, never a batch row. */
  lemma KeepFirstMergeStoredWins<T, K>(stored: seq<T>, batch: seq<T>, key: T -> K, x: T)
    requires x in KeepFirst(stored + batch, key) && key(x) in KeySet(stored, key)
    ensures IsFirstRow(stored, key, x)
  {
    var s := stored + batch;
    var n := |stored|;
    KeepFirstSpec(s, key);
    var i :| 0 <= i < |s| && s[i] == x && IsFirstOfKey(s, key, i);
    var a :| 0 <= a < n && key(stored[a]) == key(x);
    assert s[a] == stored[a];
    assert i < n;
    assert stored[i] == x;
    assert IsFirstOfKey(stored, key, i) by {
      forall m | 0 <= m < i ensures key(stored[m]) != key(stored[i]) {
        assert s[m] == stored[m];
      }
    }
  }

  /** ... while a batch row that is the first of its key in the batch survives when
      no stored row has that key. */
  lemma KeepFirstMergeBatchSurvives<T, K>(stored: seq<T>, batch: seq<T>, key: T -> K, j: int)
    requires 0 <= j < |batch| && IsFirstOfKey(batch, key, j) && key(batch[j]) !in KeySet(stored, key)
    ensures batch[j] in KeepFirst(stored + batch, key)
  {
    var s := stored + batch;
    var n := |stored|;
    assert s[n + j] == batch[j];
    assert IsFirstOfKey(s, key, n + j) by {
      forall m | 0 <= m < n + j ensures key(s[m]) != key(s[n + j]) {
        if m < n {
          assert s[m] == stored[m];
          assert key(stored[m]) in KeySet(stored, key);
        } else {
          assert s[m] == batch[m - n];
        }
      }
    }
    KeepFirstSpec(s, key);
  }

  // ---------------------------------------------------------------------------
  // The in-place drops, as loops over the combined table.

  /** `drop_duplicates(keep='last')`: scans the table from its end, keeping a row
      when no row after it has its key. */
  method DropDuplicatesKeepLast<T, K(==)>(s: seq<T>, key: T -> K) returns (r: seq<T>)
    ensures r == KeepLast(s, key)
  {
    var seen: set<K> := {};
    var i := |s|;
    r := [];
    while i > 0
      invariant 0 <= i <= |s|
      invariant seen == KeySet(s[i..], key)
      invariant r == KeepLastFrom(s, key, i)
    {
      i := i - 1;
      assert s[i..] == [s[i]] + s[i + 1..];
      assert IsLastOfKey(s, key, i) <==> key(s[i]) !in seen by {
        if key(s[i]) in seen {
          var j :| 0 <= j < |s[i + 1..]| && key(s[i + 1..][j]) == key(s[i]);
          assert s[i + j + 1] == s[i + 1..][j];
        }
        forall j | i < j < |s| ensures key(s[j]) in seen {
          assert s[i + 1..][j - i - 1] == s[j];
        }
      }
      if key(s[i]) !in seen {
        r := [s[i]] + r;
      }
      seen := seen + {key(s[i])};
      KeySetCons(s[i], s[i + 1..], key);
    }
  }

  /** `drop_duplicates(keep='first')`: scans the table from its start, keeping a row
      when no row before it has its key. */
  method DropDuplicatesKeepFirst<T, K(==)>(s: seq<T>, key: T -> K) returns (r: seq<T>)
    ensures r == KeepFirst(s, key)
  {
    var seen: set<K> := {};
    var i := 0;
    r := [];
    while i < |s|
      invariant 0 <= i <= |s|
      invariant seen == KeySet(s[..i], key)
      invariant r == KeepFirstUpTo(s, key, i)
    {
      assert s[..i + 1] == s[..i] + [s[i]];
      assert IsFirstOfKey(s, key, i) <==> key(s[i]) !in seen by {
        if key(s[i]) in seen {
          var j :| 0 <= j < i && key(s[..i][j]) == key(s[i]);
        }
        forall j | 0 <= j < i ensures key(s[j]) in seen {
          assert s[..i][j] == s[j];
        }
      }
      if key(s[i]) !in seen {
        r := r + [s[i]];
      }
      seen := seen + {key(s[i])};
      KeySetSnoc(s[..i], s[i], key);
      i := i + 1;
    }
  }
}
