/** Merkle proofs: what the prover gives, how the verifier judges it, and why the
    two agree (grug/jellyfish-merkle/src/proof.rs:27-134). */
module JmtProof {
  import opened Wrappers
  import opened JmtNode
  import opened JmtTree

  type Siblings = seq<Option<Hash256>>

  datatype ProofNode =
    | InternalNode(leftHash: Option<Hash256>, rightHash: Option<Hash256>)
    | LeafNode(keyHash: Hash256, valueHash: Hash256)

  /** Sibling hashes run from the bottom of the tree to its root. */
  datatype Proof =
    | Membership(siblings: Siblings)
    | NonMembership(node: ProofNode, siblings: Siblings)

  datatype ProofError = IncorrectProofType | RootHashMismatch | UnexpectedChild | NotCommonPrefix

  /** The verifier panics when it is asked for a bit past the last one. */
  datatype Verdict = Accepted | Rejected(error: ProofError) | Panicked

  // --------------------------------- folding ----------------------------------

  function Combine(h: Hasher, bit: bool, hash: Hash256, sibling: Option<Hash256>): Hash256 {
    if bit then HashInternalNode(h, sibling, Some(hash)) else HashInternalNode(h, Some(hash), sibling)
  }

  /** The hash at depth `d` of `key`'s path, when `hash` sits below all of the
      siblings and the last sibling is at depth `d`. */
  function HashAt(h: Hasher, key: Hash256, d: nat, siblings: Siblings, hash: Hash256): Hash256
    requires d + |siblings| <= MAX_BIT_LENGTH
    decreases |siblings|
  {
    if |siblings| == 0 then
      hash
    else
      Combine(h, key[d], HashAt(h, key, d + 1, siblings[..|siblings| - 1], hash), siblings[|siblings| - 1])
  }

  /** The verifier folds from the bottom: the first sibling can be combined first. */
  lemma {:induction false} FoldFromBottom(h: Hasher, key: Hash256, d: nat, siblings: Siblings, hash: Hash256)
    requires |siblings| > 0 && d + |siblings| <= MAX_BIT_LENGTH
    ensures HashAt(h, key, d, siblings, hash)
         == HashAt(h, key, d, siblings[1..], Combine(h, key[d + |siblings| - 1], hash, siblings[0]))
    decreases |siblings|
  {
    if |siblings| > 1 {
      var n := |siblings|;
      FoldFromBottom(h, key, d + 1, siblings[..n - 1], hash);
      assert siblings[..n - 1][1..] == siblings[1..][..n - 2];
    }
  }

  method ComputeAndCompareRootHash(h: Hasher, rootHash: Hash256, key: Hash256, siblings: Siblings, leafHash: Hash256)
    returns (verdict: Verdict)
    ensures verdict == RootVerdict(h, rootHash, key, siblings, leafHash)
  {
    var n := |siblings|;
    if n > MAX_BIT_LENGTH {
      return Panicked;
    }
    var hash := leafHash;
    for i := 0 to n
      invariant HashAt(h, key, 0, siblings[i..], hash) == HashAt(h, key, 0, siblings, leafHash)
    {
      FoldFromBottom(h, key, 0, siblings[i..], hash);
      assert siblings[i..][1..] == siblings[i + 1..];
      hash := Combine(h, key[n - 1 - i], hash, siblings[i]);
    }
    assert siblings[n..] == [];
    verdict := if hash == rootHash then Accepted else Rejected(RootHashMismatch);
  }

  function RootVerdict(h: Hasher, rootHash: Hash256, key: Hash256, siblings: Siblings, leafHash: Hash256): Verdict {
    if |siblings| > MAX_BIT_LENGTH then Panicked
    else if HashAt(h, key, 0, siblings, leafHash) == rootHash then Accepted
    else Rejected(RootHashMismatch)
  }

  // -------------------------------- verifying ---------------------------------

  function MembershipVerdict(h: Hasher, rootHash: Hash256, key: Hash256, value: Hash256, siblings: Siblings): Verdict {
    RootVerdict(h, rootHash, key, siblings, HashLeafNode(h, key, value))
  }

  function NonMembershipVerdict(h: Hasher, rootHash: Hash256, key: Hash256, node: ProofNode, siblings: Siblings)
    : Verdict
  {
    var n := |siblings|;
    match node
    case InternalNode(left, right) =>
      if n >= MAX_BIT_LENGTH then Panicked
      else if (if key[n] then right.Some? else left.Some?) then Rejected(UnexpectedChild)
      else RootVerdict(h, rootHash, key, siblings, HashInternalNode(h, left, right))
    case LeafNode(keyHash, valueHash) =>
      if n > MAX_BIT_LENGTH then Panicked
      else if key[..n] != keyHash[..n] then Rejected(NotCommonPrefix)
      else RootVerdict(h, rootHash, key, siblings, HashLeafNode(h, keyHash, valueHash))
  }

  function ProofVerdict(h: Hasher, rootHash: Hash256, key: Hash256, value: Option<Hash256>, proof: Proof): Verdict {
    match (value, proof)
    case (Some(v), Membership(siblings)) => MembershipVerdict(h, rootHash, key, v, siblings)
    case (None, NonMembership(node, siblings)) => NonMembershipVerdict(h, rootHash, key, node, siblings)
    case _ => Rejected(IncorrectProofType)
  }

  /** The verifier panics on proofs that are too long, whatever they claim, and on no others. */
  lemma PanicsOnLongProofs(h: Hasher, rootHash: Hash256, key: Hash256, value: Option<Hash256>, proof: Proof)
    ensures ProofVerdict(h, rootHash, key, value, proof) == Panicked <==>
      && (value.Some? <==> proof.Membership?)
      && (|proof.siblings| > MAX_BIT_LENGTH
          || (proof.NonMembership? && proof.node.InternalNode? && |proof.siblings| == MAX_BIT_LENGTH))
  {
  }

  /** Each way of being rejected: the wrong kind of proof for what is claimed, a child where the key would be, a leaf
      that is not on the key's path, and otherwise a root hash that does not come out. */
  lemma RejectedBecause(h: Hasher, rootHash: Hash256, key: Hash256, value: Option<Hash256>, proof: Proof)
    ensures var (verdict, n) := (ProofVerdict(h, rootHash, key, value, proof), |proof.siblings|);
            && (verdict == Rejected(IncorrectProofType) <==> value.Some? != proof.Membership?)
            && (verdict == Rejected(UnexpectedChild) <==>
                  && value.None? && proof.NonMembership? && proof.node.InternalNode? && n < MAX_BIT_LENGTH
                  && ((proof.node.leftHash.Some? && !key[n]) || (proof.node.rightHash.Some? && key[n])))
            && (verdict == Rejected(NotCommonPrefix) <==>
                  && value.None? && proof.NonMembership? && proof.node.LeafNode? && n <= MAX_BIT_LENGTH
                  && exists i :: 0 <= i < n && key[i] != proof.node.keyHash[i])
  {
    var n := |proof.siblings|;
    if proof.NonMembership? && proof.node.LeafNode? && n <= MAX_BIT_LENGTH {
      var other := proof.node.keyHash;
      assert (forall i | 0 <= i < n :: key[i] == other[i]) ==> key[..n] == other[..n];
      assert forall i | 0 <= i < n :: key[i] == key[..n][i] && other[i] == other[..n][i];
    }
  }

  method VerifyProof(h: Hasher, rootHash: Hash256, key: Hash256, value: Option<Hash256>, proof: Proof)
    returns (verdict: Verdict)
    ensures verdict == ProofVerdict(h, rootHash, key, value, proof)
  {
    match (value, proof)
    case (Some(v), Membership(siblings)) =>
      verdict := ComputeAndCompareRootHash(h, rootHash, key, siblings, HashLeafNode(h, key, v));
    case (None, NonMembership(node, siblings)) =>
      verdict := VerifyNonMembershipProof(h, rootHash, key, node, siblings);
    case _ =>
      verdict := Rejected(IncorrectProofType);
  }

  method VerifyNonMembershipProof(h: Hasher, rootHash: Hash256, key: Hash256, node: ProofNode, siblings: Siblings)
    returns (verdict: Verdict)
    ensures verdict == NonMembershipVerdict(h, rootHash, key, node, siblings)
  {
    var n := |siblings|;
    var hash: Hash256;
    match node {
      case InternalNode(left, right) =>
        if n >= MAX_BIT_LENGTH {
          return Panicked;
        }
        if (!key[n] && left.Some?) || (key[n] && right.Some?) {
          return Rejected(UnexpectedChild);
        }
        hash := HashInternalNode(h, left, right);
      case LeafNode(keyHash, valueHash) =>
        if n > MAX_BIT_LENGTH {
          return Panicked;
        }
        for i := 0 to n
          invariant key[n - i..n] == keyHash[n - i..n]
        {
          if key[n - 1 - i] != keyHash[n - 1 - i] {
            assert key[..n][n - 1 - i] != keyHash[..n][n - 1 - i];
            return Rejected(NotCommonPrefix);
          }
          assert key[n - 1 - i..n] == [key[n - 1 - i]] + key[n - i..n];
          assert keyHash[n - 1 - i..n] == [keyHash[n - 1 - i]] + keyHash[n - i..n];
        }
        assert key[..n] == key[0..n] && keyHash[..n] == keyHash[0..n];
        hash := HashLeafNode(h, keyHash, valueHash);
    }
    verdict := ComputeAndCompareRootHash(h, rootHash, key, siblings, hash);
  }

  // --------------------------------- proving ----------------------------------

  /** The proof node, if the walk along `key` does not end at `key`'s own leaf,
      and the siblings met on the way, from the bottom up. */
  ghost function Walk(h: Hasher, t: Tree, key: Hash256, d: nat): (Option<ProofNode>, Siblings)
    requires d <= MAX_BIT_LENGTH && Canonical(t, key[..d]) && !t.Empty?
    decreases t
  {
    match t
    case Tip(_, k, v) => (if k == key then None else Some(LeafNode(k, v)), [])
    case Fork(_, left, right) =>
      NextStep(t, key, d);
      var child := if key[d] then right else left;
      if child.Empty? then
        (Some(InternalNode(HashOf(h, left), HashOf(h, right))), [])
      else
        var (node, siblings) := Walk(h, child, key, d + 1);
        (node, siblings + [HashOf(h, if key[d] then left else right)])
  }

  lemma NextStep(t: Tree, key: Hash256, d: nat)
    requires d <= MAX_BIT_LENGTH && Canonical(t, key[..d]) && t.Fork?
    ensures d < MAX_BIT_LENGTH
    ensures Canonical(if key[d] then t.right else t.left, key[..d + 1])
  {
    assert key[..d + 1] == key[..d] + [key[d]];
  }

  ghost function ChildAlong(t: Tree, key: Hash256, d: nat): Tree
    requires t.Fork? && d < MAX_BIT_LENGTH
  {
    if key[d] then t.right else t.left
  }

  ghost function SiblingAlong(t: Tree, key: Hash256, d: nat): Tree
    requires t.Fork? && d < MAX_BIT_LENGTH
  {
    if key[d] then t.left else t.right
  }

  /** One step of the walk, with the siblings collected on the way down so far. */
  lemma WalkStep(h: Hasher, t: Tree, key: Hash256, d: nat, above: Siblings)
    requires d <= MAX_BIT_LENGTH && Canonical(t, key[..d]) && t.Fork?
    ensures d < MAX_BIT_LENGTH
    ensures var child := ChildAlong(t, key, d);
            && Canonical(child, key[..d + 1])
            && (child.Empty? ==> Walk(h, t, key, d) == (Some(InternalNode(HashOf(h, t.left), HashOf(h, t.right))), []))
            && (!child.Empty? ==>
                  && Walk(h, t, key, d).0 == Walk(h, child, key, d + 1).0
                  && Walk(h, t, key, d).1 + above
                  == Walk(h, child, key, d + 1).1 + ([HashOf(h, SiblingAlong(t, key, d))] + above))
  {
    NextStep(t, key, d);
  }

  ghost function ProofFor(h: Hasher, t: Tree, key: Hash256): Proof
    requires Canonical(t, []) && !t.Empty?
  {
    var (node, siblings) := Walk(h, t, key, 0);
    if node.Some? then NonMembership(node.value, siblings) else Membership(siblings)
  }

  function Lookup(m: KeyValues, key: Hash256): Option<Hash256> {
    if key in m then Some(m[key]) else None
  }
}
