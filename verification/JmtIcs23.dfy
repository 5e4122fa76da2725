/** ICS-23 existence proofs (grug/jellyfish-merkle/src/ics23.rs): the inner
    operations that lead from a key's leaf to the root. */
module JmtIcs23 {
  import opened Sequences
  import opened Wrappers
  import opened JmtNode
  import opened JmtTree
  import opened JmtProof

  /** What surrounds the child in an inner node's preimage. The prefix byte of
      internal nodes comes before `prefix`. */
  datatype InnerOp = InnerOp(prefix: Bits, suffix: Bits)

  ghost predicate WellFormed(op: InnerOp) {
    |op.prefix| + |op.suffix| == MAX_BIT_LENGTH
  }

  /** Hashing one level up, as an ICS-23 verifier does. */
  ghost function ApplyOp(h: Hasher, op: InnerOp, child: Hash256): Hash256
    requires WellFormed(op)
  {
    var raw := op.prefix + child + op.suffix;
    h(InternalPreimage(raw[..MAX_BIT_LENGTH], raw[MAX_BIT_LENGTH..]))
  }

  /** Hashing all the way up; the first operation is the lowest. */
  ghost function ApplyOps(h: Hasher, ops: seq<InnerOp>, leaf: Hash256): Hash256
    requires forall i :: 0 <= i < |ops| ==> WellFormed(ops[i])
  {
    if |ops| == 0 then leaf else ApplyOp(h, ops[|ops| - 1], ApplyOps(h, ops[..|ops| - 1], leaf))
  }

  /** The operation for a node whose child is on the side of `bit`. */
  function OpFor(bit: bool, sibling: Option<Hash256>): InnerOp {
    if bit then InnerOp(OrZero(sibling), []) else InnerOp([], OrZero(sibling))
  }

  /** The operations, from the bottom up, for the siblings of a proof. */
  ghost function OpsFor(key: Hash256, d: nat, siblings: Siblings): (ops: seq<InnerOp>)
    requires d + |siblings| <= MAX_BIT_LENGTH
    ensures |ops| == |siblings|
    ensures forall i :: 0 <= i < |ops| ==>
      ops[i] == OpFor(key[d + |siblings| - 1 - i], siblings[i]) && WellFormed(ops[i])
    decreases |siblings|
  {
    if |siblings| == 0 then [] else
    OpsFor(key, d + 1, siblings[..|siblings| - 1]) + [OpFor(key[d], siblings[|siblings| - 1])]
  }

  lemma OpCombines(h: Hasher, bit: bool, hash: Hash256, sibling: Option<Hash256>)
    ensures WellFormed(OpFor(bit, sibling))
    ensures ApplyOp(h, OpFor(bit, sibling), hash) == Combine(h, bit, hash, sibling)
  {
    var op := OpFor(bit, sibling);
    var raw := op.prefix + hash + op.suffix;
    if bit {
      assert raw[..MAX_BIT_LENGTH] == OrZero(sibling) && raw[MAX_BIT_LENGTH..] == hash;
    } else {
      assert raw[..MAX_BIT_LENGTH] == hash && raw[MAX_BIT_LENGTH..] == OrZero(sibling);
    }
  }

  /** Folding the operations hashes to the same value as the tree's own proof. */
  lemma {:induction false} OpsHashUp(h: Hasher, key: Hash256, d: nat, siblings: Siblings, leaf: Hash256)
    requires d + |siblings| <= MAX_BIT_LENGTH
    ensures ApplyOps(h, OpsFor(key, d, siblings), leaf) == HashAt(h, key, d, siblings, leaf)
    decreases |siblings|
  {
    if |siblings| == 0 {
    } else {
      var below := siblings[..|siblings| - 1];
      OpsHashUp(h, key, d + 1, below, leaf);
      var ops := OpsFor(key, d, siblings);
      assert ops[..|ops| - 1] == OpsFor(key, d + 1, below);
      OpCombines(h, key[d], HashAt(h, key, d + 1, below, leaf), siblings[|siblings| - 1]);
    }
  }

  /** The operations for the siblings met on the way down, the root's first. */
  ghost predicate OpsAlong(key: Hash256, siblings: Siblings, ops: seq<InnerOp>) {
    && |ops| == |siblings| <= MAX_BIT_LENGTH
    && forall i :: 0 <= i < |ops| ==> ops[i] == OpFor(key[i], siblings[i])
  }

  lemma OpsExtend(key: Hash256, siblings: Siblings, ops: seq<InnerOp>, sibling: Option<Hash256>)
    requires OpsAlong(key, siblings, ops) && |ops| < MAX_BIT_LENGTH
    ensures OpsAlong(key, siblings + [sibling], ops + [OpFor(key[|ops|], sibling)])
  {
  }

  lemma ReverseOps(key: Hash256, siblings: Siblings, ops: seq<InnerOp>)
    requires OpsAlong(key, siblings, ops)
    ensures Reverse(ops) == OpsFor(key, 0, Reverse(siblings))
  {
    var up := OpsFor(key, 0, Reverse(siblings));
    forall i | 0 <= i < |ops| ensures Reverse(ops)[i] == up[i] {
      ReverseAt(ops, i);
      ReverseAt(siblings, i);
    }
  }
}
