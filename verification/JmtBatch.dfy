/** Batches of operations: their meaning as a map, and the pure helpers that cut
    them up on the way down the tree (grug/jellyfish-merkle/src/tree.rs:605-661). */
module JmtBatch {
  import opened Wrappers
  import opened JmtNode
  import opened JmtTree

  datatype Op =
    | Insert(value: Hash256)
    | Delete

  type Batch<T> = seq<(Hash256, T)>

  /** The lexicographic order of key hashes. */
  ghost predicate KeyLess(a: Bits, b: Bits) {
    |a| > 0 && |b| > 0 && if a[0] == b[0] then KeyLess(a[1..], b[1..]) else b[0]
  }

  lemma {:induction false} KeyLessIsIrreflexive(a: Bits)
    ensures !KeyLess(a, a)
  {
    if |a| == 0 {
    } else {
      KeyLessIsIrreflexive(a[1..]);
    }
  }

  /** Key hashes strictly ascend; in particular no two are the same. */
  ghost predicate Sorted<T>(batch: Batch<T>) {
    forall i, j :: 0 <= i < j < |batch| ==> KeyLess(batch[i].0, batch[j].0)
  }

  ghost predicate AllUnder<T>(batch: Batch<T>, path: Bits) {
    forall i :: 0 <= i < |batch| ==> path <= batch[i].0
  }

  ghost function ToMap<T>(batch: Batch<T>): map<Hash256, T> {
    if |batch| == 0 then map[] else ToMap(batch[1..])[batch[0].0 := batch[0].1]
  }

  ghost predicate HasKey<T>(batch: Batch<T>, k: Hash256) {
    exists i :: 0 <= i < |batch| && batch[i].0 == k
  }

  lemma {:induction false} ToMapKeys<T>(batch: Batch<T>, k: Hash256)
    ensures k in ToMap(batch) <==> HasKey(batch, k)
  {
    if |batch| == 0 {
    } else {
      ToMapKeys(batch[1..], k);
      assert batch == [batch[0]] + batch[1..];
    }
  }

  /** The first key of a sorted batch occurs nowhere else in it. */
  lemma FirstKeyIsNew<T>(batch: Batch<T>)
    requires |batch| > 0 && Sorted(batch)
    ensures batch[0].0 !in ToMap(batch[1..])
  {
    ToMapKeys(batch[1..], batch[0].0);
    KeyLessIsIrreflexive(batch[0].0);
    forall i | 0 <= i < |batch[1..]| ensures batch[1..][i].0 != batch[0].0 {
      assert KeyLess(batch[0].0, batch[i + 1].0);
    }
  }

  lemma {:induction false} ToMapConcat<T>(left: Batch<T>, right: Batch<T>)
    requires Sorted(left + right)
    ensures Sorted(left) && Sorted(right)
    ensures ToMap(left + right) == ToMap(left) + ToMap(right)
  {
    SortedConcat(left, right);
    if |left| == 0 {
      assert left + right == right;
    } else {
      assert (left + right)[1..] == left[1..] + right;
      ToMapConcat(left[1..], right);
      FirstKeyIsNew(left + right);
    }
  }

  lemma SortedConcat<T>(left: Batch<T>, right: Batch<T>)
    requires Sorted(left + right)
    ensures Sorted(left) && Sorted(right)
  {
    var batch := left + right;
    assert forall i :: 0 <= i < |left| ==> batch[i] == left[i];
    assert forall i :: 0 <= i < |right| ==> batch[|left| + i] == right[i];
  }

  /** What a batch of operations does to a key-value map. */
  ghost function ApplyOps(m: KeyValues, ops: map<Hash256, Op>): KeyValues {
    map k | k in m.Keys + ops.Keys && (k in ops ==> ops[k].Insert?) ::
      if k in ops then ops[k].value else m[k]
  }

  /** A key that is inserted has the new value, one that is deleted has none, and all others keep theirs. */
  lemma AppliedAt(m: KeyValues, ops: map<Hash256, Op>, key: Hash256)
    ensures var after := ApplyOps(m, ops);
            if key !in ops then (key in after <==> key in m) && (key in m ==> after[key] == m[key])
            else
              match ops[key]
              case Insert(value) => key in after && after[key] == value
              case Delete => key !in after
  {
  }

  /** A batch may be applied to the two halves of a map independently. */
  lemma OpsSplit(left: KeyValues, right: KeyValues, opsLeft: map<Hash256, Op>, opsRight: map<Hash256, Op>)
    requires left.Keys + opsLeft.Keys !! right.Keys + opsRight.Keys
    ensures ApplyOps(left + right, opsLeft + opsRight) == ApplyOps(left, opsLeft) + ApplyOps(right, opsRight)
  {
    var whole := ApplyOps(left + right, opsLeft + opsRight);
    var parts := ApplyOps(left, opsLeft) + ApplyOps(right, opsRight);
    assert whole.Keys == parts.Keys;
  }

  // ------------------------------ partitioning -------------------------------

  /** The number of leading entries whose key has a 0 bit at `index`. */
  function PartitionPoint<T>(batch: Batch<T>, index: nat): (n: nat)
    requires index < MAX_BIT_LENGTH
    ensures n <= |batch|
    ensures forall i :: 0 <= i < n ==> !batch[i].0[index]
    ensures n < |batch| ==> batch[n].0[index]
  {
    if |batch| == 0 || batch[0].0[index] then 0 else 1 + PartitionPoint(batch[1..], index)
  }

  function PartitionBatch<T>(batch: Batch<T>, index: nat): (parts: (Batch<T>, Batch<T>))
    requires index < MAX_BIT_LENGTH
    ensures parts.0 + parts.1 == batch
  {
    var n := PartitionPoint(batch, index);
    (batch[..n], batch[n..])
  }

  /** Keys that agree up to `path` are ordered by their next bit first. */
  lemma {:induction false} NextBitIsMonotone(path: Bits, a: Bits, b: Bits)
    requires |path| < |a| && |path| < |b| && path <= a && path <= b && KeyLess(a, b)
    ensures a[|path|] ==> b[|path|]
  {
    if |path| == 0 {
    } else {
      assert a[0] == path[0] == b[0];
      NextBitIsMonotone(path[1..], a[1..], b[1..]);
    }
  }

  /** Splitting a sorted batch at the partition point sends every entry to its own side. */
  lemma PartitionIsExact<T>(batch: Batch<T>, path: Bits)
    requires Sorted(batch) && AllUnder(batch, path) && |path| < MAX_BIT_LENGTH
    ensures var (left, right) := PartitionBatch(batch, |path|);
            && Sorted(left) && AllUnder(left, path + [false])
            && Sorted(right) && AllUnder(right, path + [true])
            && ToMap(batch) == ToMap(left) + ToMap(right)
  {
    var (left, right) := PartitionBatch(batch, |path|);
    PartitionSendsHome(batch, path);
    ToMapConcat(left, right);
  }

  lemma PartitionSendsHome<T>(batch: Batch<T>, path: Bits)
    requires Sorted(batch) && AllUnder(batch, path) && |path| < MAX_BIT_LENGTH
    ensures var (left, right) := PartitionBatch(batch, |path|);
            AllUnder(left, path + [false]) && AllUnder(right, path + [true])
  {
    var n := PartitionPoint(batch, |path|);
    forall i | 0 <= i < |batch| ensures path + [i >= n] <= batch[i].0 {
      if i > n { NextBitIsMonotone(path, batch[n].0, batch[i].0); }
      PrefixOfExtension(path, i >= n, batch[i].0);
    }
  }

  // ------------------------------- preparation -------------------------------

  /** The operation on the existing leaf, if any, is taken out; of the others
      the inserts are kept. */
  function PrepareBatch(batch: Batch<Op>, leafKey: Option<Hash256>): (Batch<Hash256>, Option<Op>) {
    if |batch| == 0 then
      ([], None)
    else
      var (key, op) := batch[0];
      var prepared := PrepareBatch(batch[1..], leafKey);
      if leafKey == Some(key) then
        (prepared.0, if prepared.1.Some? then prepared.1 else Some(op))
      else if op.Insert? then
        ([(key, op.value)] + prepared.0, prepared.1)
      else
        prepared
  }

  ghost function Inserts(ops: map<Hash256, Op>, leafKey: Option<Hash256>): KeyValues {
    map k | k in ops && ops[k].Insert? && leafKey != Some(k) :: ops[k].value
  }

  ghost function OpOnLeaf(ops: map<Hash256, Op>, leafKey: Option<Hash256>): Option<Op> {
    if leafKey.Some? && leafKey.value in ops then Some(ops[leafKey.value]) else None
  }

  /** Preparing a batch keeps entries in order: every key kept is a key of the batch. */
  lemma {:induction false} PrepareKeepsKeys(batch: Batch<Op>, leafKey: Option<Hash256>, i: nat)
    requires i < |PrepareBatch(batch, leafKey).0|
    ensures HasKey(batch, PrepareBatch(batch, leafKey).0[i].0)
  {
    var inserts := PrepareBatch(batch, leafKey).0;
    var rest := PrepareBatch(batch[1..], leafKey).0;
    assert batch == [batch[0]] + batch[1..];
    if inserts == rest {
      PrepareKeepsKeys(batch[1..], leafKey, i);
    } else if i > 0 {
      PrepareKeepsKeys(batch[1..], leafKey, i - 1);
    }
  }

  /** What is kept of the rest of a sorted batch comes after its first key. */
  lemma KeptComesAfter(batch: Batch<Op>, leafKey: Option<Hash256>, i: nat)
    requires Sorted(batch) && |batch| > 0 && i < |PrepareBatch(batch[1..], leafKey).0|
    ensures KeyLess(batch[0].0, PrepareBatch(batch[1..], leafKey).0[i].0)
  {
    PrepareKeepsKeys(batch[1..], leafKey, i);
    var j :| 0 <= j < |batch[1..]| && batch[1..][j].0 == PrepareBatch(batch[1..], leafKey).0[i].0;
    assert KeyLess(batch[0].0, batch[j + 1].0);
  }

  lemma {:induction false} PrepareKeepsOrder(batch: Batch<Op>, leafKey: Option<Hash256>, path: Bits)
    requires Sorted(batch) && AllUnder(batch, path)
    ensures Sorted(PrepareBatch(batch, leafKey).0) && AllUnder(PrepareBatch(batch, leafKey).0, path)
  {
    if |batch| == 0 {
    } else {
      var rest := PrepareBatch(batch[1..], leafKey).0;
      var inserts := PrepareBatch(batch, leafKey).0;
      PrepareKeepsOrder(batch[1..], leafKey, path);
      if inserts != rest {
        assert inserts[1..] == rest;
        forall i | 0 <= i < |rest| ensures KeyLess(batch[0].0, rest[i].0) {
          KeptComesAfter(batch, leafKey, i);
        }
      }
    }
  }

  lemma {:induction false} PrepareKeepsInserts(batch: Batch<Op>, leafKey: Option<Hash256>)
    requires Sorted(batch)
    ensures ToMap(PrepareBatch(batch, leafKey).0) == Inserts(ToMap(batch), leafKey)
    ensures PrepareBatch(batch, leafKey).1 == OpOnLeaf(ToMap(batch), leafKey)
  {
    if |batch| == 0 {
    } else {
      var (rest, inserts) := (PrepareBatch(batch[1..], leafKey).0, PrepareBatch(batch, leafKey).0);
      PrepareKeepsInserts(batch[1..], leafKey);
      FirstKeyIsNew(batch);
      if inserts != rest {
        assert inserts[1..] == rest;
      }
    }
  }

  lemma PrepareIsExact(batch: Batch<Op>, leafKey: Option<Hash256>, path: Bits)
    requires Sorted(batch) && AllUnder(batch, path)
    ensures var (inserts, op) := PrepareBatch(batch, leafKey);
            && Sorted(inserts) && AllUnder(inserts, path)
            && ToMap(inserts) == Inserts(ToMap(batch), leafKey)
            && op == OpOnLeaf(ToMap(batch), leafKey)
  {
    PrepareKeepsOrder(batch, leafKey, path);
    PrepareKeepsInserts(batch, leafKey);
  }
}
