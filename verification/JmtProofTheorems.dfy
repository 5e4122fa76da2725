/** Completeness and soundness of Merkle proofs, and what a root hash commits to. */
module JmtProofTheorems {
  import opened Wrappers
  import opened JmtNode
  import opened JmtTree
  import opened JmtProof

  // ------------------------------- completeness --------------------------------

  /** The hash of the node at which a walk ends. */
  ghost function EndHash(h: Hasher, t: Tree, key: Hash256, node: Option<ProofNode>): Hash256
    requires node.None? ==> key in Contents(t)
  {
    match node
    case None => HashLeafNode(h, key, Contents(t)[key])
    case Some(LeafNode(k, v)) => HashLeafNode(h, k, v)
    case Some(InternalNode(left, right)) => HashInternalNode(h, left, right)
  }

  /** A walk ends at the key's leaf exactly if the key is present, and otherwise
      at a node that the verifier accepts as evidence of its absence. */
  lemma {:induction false} WalkEndsRight(h: Hasher, t: Tree, key: Hash256, d: nat)
    requires d <= MAX_BIT_LENGTH && Canonical(t, key[..d]) && !t.Empty?
    ensures var (node, siblings) := Walk(h, t, key, d);
            var n := d + |siblings|;
            && n <= MAX_BIT_LENGTH
            && (node.None? <==> key in Contents(t))
            && (node.Some? && node.value.LeafNode? ==> node.value.keyHash != key && node.value.keyHash[..n] == key[..n])
            && (node.Some? && node.value.InternalNode? ==>
                  n < MAX_BIT_LENGTH && (if key[n] then node.value.rightHash else node.value.leftHash).None?)
    decreases t
  {
    if t.Tip? {
      assert key[..d] == t.key[..d];
    } else {
      NextStep(t, key, d);
      KeyGoesOneWay(t, key, d);
      var child := if key[d] then t.right else t.left;
      if !child.Empty? {
        WalkEndsRight(h, child, key, d + 1);
      }
    }
  }

  /** A key can only be in the child its next bit leads to. */
  lemma KeyGoesOneWay(t: Tree, key: Hash256, d: nat)
    requires d < MAX_BIT_LENGTH && Canonical(t, key[..d]) && t.Fork?
    ensures var child := if key[d] then t.right else t.left;
            Lookup(Contents(t), key) == Lookup(Contents(child), key)
  {
    ForkSplitsKeys(t, key[..d]);
  }

  lemma {:induction false} WalkHashesUp(h: Hasher, t: Tree, key: Hash256, d: nat)
    requires d <= MAX_BIT_LENGTH && Canonical(t, key[..d]) && !t.Empty?
    ensures var (node, siblings) := Walk(h, t, key, d);
            && d + |siblings| <= MAX_BIT_LENGTH
            && (node.None? ==> key in Contents(t))
            && HashOf(h, t) == Some(HashAt(h, key, d, siblings, EndHash(h, t, key, node)))
    decreases t
  {
    WalkEndsRight(h, t, key, d);
    if t.Fork? {
      NextStep(t, key, d);
      KeyGoesOneWay(t, key, d);
      var child := if key[d] then t.right else t.left;
      if !child.Empty? {
        WalkHashesUp(h, child, key, d + 1);
        var siblings := Walk(h, t, key, d).1;
        assert siblings[..|siblings| - 1] == Walk(h, child, key, d + 1).1;
      }
    }
  }

  /** Whatever the key, the verifier accepts the prover's proof against the root
      hash of the map, together with the key's actual value or its absence. */
  lemma ProofsAreComplete(h: Hasher, t: Tree, key: Hash256)
    requires Canonical(t, []) && !t.Empty?
    ensures ProofVerdict(h, HashOf(h, t).value, key, Lookup(Contents(t), key), ProofFor(h, t, key)) == Accepted
  {
    assert key[..0] == [];
    WalkEndsRight(h, t, key, 0);
    WalkHashesUp(h, t, key, 0);
  }

  // --------------------------------- soundness ---------------------------------

  ghost predicate Distinguishes(h: Hasher, p: Preimage, q: Preimage) {
    h(p) == h(q) ==> p == q
  }

  ghost predicate AvoidsZero(h: Hasher, p: Preimage) {
    h(p) != ZERO
  }

  /** The hash function behaves like a perfect one on these inputs. */
  ghost predicate CollisionFree(h: Hasher, inputs: set<Preimage>) {
    && (forall p, q {:trigger Distinguishes(h, p, q)} :: p in inputs && q in inputs ==> Distinguishes(h, p, q))
    && (forall p {:trigger AvoidsZero(h, p)} :: p in inputs ==> AvoidsZero(h, p))
  }

  ghost function TopPreimage(h: Hasher, t: Tree): Preimage
    requires !t.Empty?
  {
    match t
    case Tip(_, key, value) => LeafPreimage(key, value)
    case Fork(_, left, right) => InternalPreimage(OrZero(HashOf(h, left)), OrZero(HashOf(h, right)))
  }

  /** Everything that is hashed to build the tree. */
  ghost function TreePreimages(h: Hasher, t: Tree): set<Preimage> {
    if t.Empty? then {}
    else if t.Tip? then {TopPreimage(h, t)}
    else {TopPreimage(h, t)} + TreePreimages(h, t.left) + TreePreimages(h, t.right)
  }

  ghost function CombinePreimage(bit: bool, hash: Hash256, sibling: Option<Hash256>): Preimage {
    if bit then InternalPreimage(OrZero(sibling), hash) else InternalPreimage(hash, OrZero(sibling))
  }

  /** Everything the verifier hashes, starting from the preimage `start`. */
  ghost function FoldPreimages(h: Hasher, key: Hash256, d: nat, siblings: Siblings, start: Preimage): set<Preimage>
    requires d + |siblings| <= MAX_BIT_LENGTH
    decreases |siblings|
  {
    if |siblings| == 0 then
      {start}
    else
      var below := siblings[..|siblings| - 1];
      {CombinePreimage(key[d], HashAt(h, key, d + 1, below, h(start)), siblings[|siblings| - 1])}
      + FoldPreimages(h, key, d + 1, below, start)
  }

  /** The preimage of the hash the verifier has reached at depth `d`. */
  ghost function FoldTop(h: Hasher, key: Hash256, d: nat, siblings: Siblings, start: Preimage): (p: Preimage)
    requires d + |siblings| <= MAX_BIT_LENGTH
    ensures p in FoldPreimages(h, key, d, siblings, start)
    ensures HashAt(h, key, d, siblings, h(start)) == h(p)
  {
    if |siblings| == 0 then start
    else CombinePreimage(key[d], HashAt(h, key, d + 1, siblings[..|siblings| - 1], h(start)), siblings[|siblings| - 1])
  }

  /** The subtree `n` levels down along `key`. */
  ghost function Subtree(t: Tree, key: Hash256, d: nat, n: nat): Tree
    requires d + n <= MAX_BIT_LENGTH
    decreases n
  {
    if n == 0 || !t.Fork? then t else Subtree(ChildAlong(t, key, d), key, d + 1, n - 1)
  }

  lemma TopIsHashed(h: Hasher, t: Tree)
    requires !t.Empty?
    ensures HashOf(h, t) == Some(h(TopPreimage(h, t))) && TopPreimage(h, t) in TreePreimages(h, t)
  {
  }

  lemma CollisionFreeSubset(h: Hasher, small: set<Preimage>, large: set<Preimage>)
    requires small <= large && CollisionFree(h, large)
    ensures CollisionFree(h, small)
  {
  }

  /** One level down, the fold still reproduces the tree's hash. */
  lemma FoldStep(h: Hasher, t: Tree, key: Hash256, d: nat, siblings: Siblings, start: Preimage)
    requires 0 < |siblings| && d + |siblings| <= MAX_BIT_LENGTH && !t.Empty?
    requires CollisionFree(h, TreePreimages(h, t) + FoldPreimages(h, key, d, siblings, start))
    requires HashOf(h, t) == Some(HashAt(h, key, d, siblings, h(start)))
    ensures t.Fork?
    ensures var (child, below) := (ChildAlong(t, key, d), siblings[..|siblings| - 1]);
            && !child.Empty?
            && HashOf(h, child) == Some(HashAt(h, key, d + 1, below, h(start)))
            && CollisionFree(h, TreePreimages(h, child) + FoldPreimages(h, key, d + 1, below, start))
  {
    TopIsHashed(h, t);
    assert Distinguishes(h, TopPreimage(h, t), FoldTop(h, key, d, siblings, start));
    var child, below := ChildAlong(t, key, d), siblings[..|siblings| - 1];
    var next := FoldTop(h, key, d + 1, below, start);
    assert OrZero(HashOf(h, child)) == h(next);
    assert AvoidsZero(h, next);
    CollisionFreeSubset(h, TreePreimages(h, child) + FoldPreimages(h, key, d + 1, below, start),
                        TreePreimages(h, t) + FoldPreimages(h, key, d, siblings, start));
  }

  lemma FoldEnds(h: Hasher, t: Tree, key: Hash256, d: nat, start: Preimage)
    requires d <= MAX_BIT_LENGTH && !t.Empty?
    requires CollisionFree(h, TreePreimages(h, t) + FoldPreimages(h, key, d, [], start))
    requires HashOf(h, t) == Some(HashAt(h, key, d, [], h(start)))
    ensures TopPreimage(h, t) == start
  {
    TopIsHashed(h, t);
    assert Distinguishes(h, TopPreimage(h, t), start);
  }

  /** If the fold reproduces the tree's hash, it has followed the tree down: the
      node it started from is the node of the tree at that place. */
  lemma {:induction false} FoldFollowsTree(
    h: Hasher, t: Tree, key: Hash256, d: nat, siblings: Siblings, start: Preimage)
    requires d + |siblings| <= MAX_BIT_LENGTH && Canonical(t, key[..d]) && !t.Empty?
    requires CollisionFree(h, TreePreimages(h, t) + FoldPreimages(h, key, d, siblings, start))
    requires HashOf(h, t) == Some(HashAt(h, key, d, siblings, h(start)))
    ensures var end := Subtree(t, key, d, |siblings|);
            && !end.Empty? && TopPreimage(h, end) == start
            && Canonical(end, key[..d + |siblings|])
            && Lookup(Contents(t), key) == Lookup(Contents(end), key)
    decreases |siblings|
  {
    if |siblings| == 0 {
      FoldEnds(h, t, key, d, start);
    } else {
      FoldStep(h, t, key, d, siblings, start);
      NextStep(t, key, d);
      KeyGoesOneWay(t, key, d);
      var child, below := ChildAlong(t, key, d), siblings[..|siblings| - 1];
      FoldFollowsTree(h, child, key, d + 1, below, start);
      assert Subtree(t, key, d, |siblings|) == Subtree(child, key, d + 1, |below|);
    }
  }

  /** An accepted membership proof is right about the key and the value, unless
      the hash function collides on what the tree or the verifier hashed. */
  lemma MembershipIsSound(h: Hasher, t: Tree, key: Hash256, value: Hash256, siblings: Siblings)
    requires Canonical(t, []) && !t.Empty?
    requires MembershipVerdict(h, HashOf(h, t).value, key, value, siblings) == Accepted
    requires CollisionFree(h, TreePreimages(h, t) + FoldPreimages(h, key, 0, siblings, LeafPreimage(key, value)))
    ensures Lookup(Contents(t), key) == Some(value)
  {
    assert key[..0] == [];
    FoldFollowsTree(h, t, key, 0, siblings, LeafPreimage(key, value));
  }

  ghost function ProofNodePreimage(node: ProofNode): Preimage {
    match node
    case InternalNode(left, right) => InternalPreimage(OrZero(left), OrZero(right))
    case LeafNode(k, v) => LeafPreimage(k, v)
  }

  /** An accepted non-membership proof shows that the key is absent, if and only
      if the proof node is not the key's own leaf; that the verifier leaves to
      its caller. */
  lemma NonMembershipIsSound(h: Hasher, t: Tree, key: Hash256, node: ProofNode, siblings: Siblings)
    requires Canonical(t, []) && !t.Empty?
    requires NonMembershipVerdict(h, HashOf(h, t).value, key, node, siblings) == Accepted
    requires CollisionFree(h, TreePreimages(h, t) + FoldPreimages(h, key, 0, siblings, ProofNodePreimage(node)))
    ensures key !in Contents(t) <==> !(node.LeafNode? && node.keyHash == key)
  {
    assert key[..0] == [];
    var n := |siblings|;
    FoldFollowsTree(h, t, key, 0, siblings, ProofNodePreimage(node));
    var end := Subtree(t, key, 0, n);
    if node.InternalNode? {
      var child := if key[n] then end.right else end.left;
      KeyGoesOneWay(end, key, n);
      if !child.Empty? {
        TopIsHashed(h, child);
        SubtreePreimages(h, t, key, 0, n);
        assert AvoidsZero(h, TopPreimage(h, child));
      }
    }
  }

  lemma {:induction false} SubtreePreimages(h: Hasher, t: Tree, key: Hash256, d: nat, n: nat)
    requires d + n <= MAX_BIT_LENGTH
    ensures TreePreimages(h, Subtree(t, key, d, n)) <= TreePreimages(h, t)
    decreases n
  {
    if n > 0 && t.Fork? {
      SubtreePreimages(h, if key[d] then t.right else t.left, key, d + 1, n - 1);
    }
  }

  /** What proves a key's presence proves its absence as well, if it is offered as that. */
  lemma OwnLeafIsOnPath(h: Hasher, rootHash: Hash256, key: Hash256, value: Hash256, siblings: Siblings)
    requires MembershipVerdict(h, rootHash, key, value, siblings) == Accepted
    ensures NonMembershipVerdict(h, rootHash, key, LeafNode(key, value), siblings) == Accepted
  {
  }

  /** The exception is real: for every key that is present, the verifier accepts
      the key's own leaf as a proof of its absence. */
  lemma OwnLeafIsAccepted(h: Hasher, t: Tree, key: Hash256)
    requires Canonical(t, []) && key in Contents(t)
    ensures !t.Empty?
    ensures NonMembershipVerdict(
      h, HashOf(h, t).value, key, LeafNode(key, Contents(t)[key]), ProofFor(h, t, key).siblings)
         == Accepted
  {
    assert key[..0] == [];
    WalkEndsRight(h, t, key, 0);
    ProofsAreComplete(h, t, key);
    OwnLeafIsOnPath(h, HashOf(h, t).value, key, Contents(t)[key], ProofFor(h, t, key).siblings);
  }

  /** Everything the verifier hashes for a proof of the kind that the claim needs, and nothing for the other kind. */
  ghost function VerifierPreimages(h: Hasher, key: Hash256, value: Option<Hash256>, proof: Proof): set<Preimage> {
    if |proof.siblings| > MAX_BIT_LENGTH then {}
    else
      match (value, proof)
      case (Some(v), Membership(siblings)) => FoldPreimages(h, key, 0, siblings, LeafPreimage(key, v))
      case (None, NonMembership(node, siblings)) => FoldPreimages(h, key, 0, siblings, ProofNodePreimage(node))
      case _ => {}
  }

  predicate IsOwnLeaf(proof: Proof, key: Hash256) {
    proof.NonMembership? && proof.node.LeafNode? && proof.node.keyHash == key
  }

  /** Whatever is claimed and whatever the proof: what the verifier accepts is true, if and only if the proof is not
      the key's own leaf, offered as evidence of the key's absence. */
  lemma VerifyingIsSound(h: Hasher, t: Tree, key: Hash256, value: Option<Hash256>, proof: Proof)
    requires Canonical(t, []) && !t.Empty?
    requires ProofVerdict(h, HashOf(h, t).value, key, value, proof) == Accepted
    requires CollisionFree(h, TreePreimages(h, t) + VerifierPreimages(h, key, value, proof))
    ensures value.Some? <==> proof.Membership?
    ensures value == Lookup(Contents(t), key) <==> !IsOwnLeaf(proof, key)
  {
    match (value, proof)
    case (Some(v), Membership(siblings)) =>
      MembershipIsSound(h, t, key, v, siblings);
    case (None, NonMembership(node, siblings)) =>
      NonMembershipIsSound(h, t, key, node, siblings);
    case _ =>
  }

  // ------------------------------- commitment ----------------------------------

  /** History independence: the root hash is determined by the contents alone,
      however the two trees came about. */
  lemma SameContentsSameHash(h: Hasher, t1: Tree, t2: Tree, path: Bits)
    requires Canonical(t1, path) && Canonical(t2, path) && Contents(t1) == Contents(t2)
    ensures HashOf(h, t1) == HashOf(h, t2)
  {
    CanonicalIsUnique(t1, t2, path);
    HashIgnoresVersions(h, t1);
    HashIgnoresVersions(h, t2);
  }

  /** The root hash commits to the contents: equal hashes mean equal maps, unless
      the hash function collides on what the two trees hashed. */
  lemma {:induction false} SameHashSameContents(h: Hasher, t1: Tree, t2: Tree)
    requires CollisionFree(h, TreePreimages(h, t1) + TreePreimages(h, t2))
    requires OrZero(HashOf(h, t1)) == OrZero(HashOf(h, t2))
    ensures Contents(t1) == Contents(t2)
  {
    if !t1.Empty? { TopIsHashed(h, t1); }
    if !t2.Empty? { TopIsHashed(h, t2); }
    if !t1.Empty? { assert AvoidsZero(h, TopPreimage(h, t1)); }
    if !t2.Empty? { assert AvoidsZero(h, TopPreimage(h, t2)); }
    if !t1.Empty? && !t2.Empty? { assert Distinguishes(h, TopPreimage(h, t1), TopPreimage(h, t2)); }
    if t1.Fork? && t2.Fork? {
      SameHashSameContents(h, t1.left, t2.left);
      SameHashSameContents(h, t1.right, t2.right);
    }
  }
}
