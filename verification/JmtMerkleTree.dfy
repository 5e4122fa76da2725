/** The versioned Jellyfish Merkle tree in storage
    (grug/jellyfish-merkle/src/tree.rs:122-603). */
module JmtMerkleTree {
  import opened Sequences
  import opened Wrappers
  import opened JmtNode
  import opened JmtTree
  import opened JmtBatch
  import opened JmtApply
  import opened JmtHistory
  import P = JmtProof
  import JmtProofTheorems
  import I = JmtIcs23
  import B = JmtBitArray

  /** The node to load does not exist. */
  datatype StdError = DataNotFound

  /** One step down a path that ends at the key's own leaf, with the operations collected so far. */
  lemma Ics23Step(h: Hasher, t: Tree, key: Hash256, depth: nat, siblings: P.Siblings, path: seq<I.InnerOp>)
    requires depth == |siblings| && depth <= MAX_BIT_LENGTH && Canonical(t, key[..depth]) && t.Fork?
    requires P.Walk(h, t, key, depth).0.None? && I.OpsAlong(key, siblings, path)
    ensures depth < MAX_BIT_LENGTH
    ensures var (child, sibling) := (P.ChildAlong(t, key, depth), HashOf(h, P.SiblingAlong(t, key, depth)));
            && Canonical(child, key[..depth + 1]) && !child.Empty?
            && P.Walk(h, child, key, depth + 1).0.None?
            && P.Walk(h, t, key, depth).1 + Reverse(siblings)
            == P.Walk(h, child, key, depth + 1).1 + Reverse(siblings + [sibling])
            && I.OpsAlong(key, siblings + [sibling], path + [I.OpFor(key[depth], sibling)])
  {
    P.WalkStep(h, t, key, depth, Reverse(siblings));
    ReverseAppend(siblings, HashOf(h, P.SiblingAlong(t, key, depth)));
    I.OpsExtend(key, siblings, path, HashOf(h, P.SiblingAlong(t, key, depth)));
  }

  class MerkleTree {
    const hash: Hasher

    // The storage: nodes by version and bit path, and the orphaned ones among them.
    var nodes: map<NodeKey, Node>
    var orphans: set<Orphan>

    // What the storage stands for: the versions not yet pruned, and the latest one.
    ghost var trees: Versions
    ghost var latest: nat

    ghost predicate Valid()
      reads this
    {
      ValidStore(hash, nodes, orphans, trees, latest)
    }

    /** The key-value map of the latest version. */
    ghost function Current(): KeyValues
      reads this
    {
      Contents(LatestTree(trees, latest))
    }

    constructor (hash: Hasher)
      ensures Valid() && this.hash == hash
      ensures trees == map[] && nodes == map[] && orphans == {}
    {
      this.hash := hash;
      nodes, orphans := map[], {};
      trees, latest := map[], 0;
    }

    /** The root hash depends on nothing but the key-value map at that version. */
    method RootHashAt(version: nat) returns (root: Option<Hash256>)
      requires Valid()
      ensures root == if version in trees then RootHash(hash, Contents(trees[version])) else None
    {
      RootsAreExact(hash, nodes, orphans, trees, latest, version);
      if NodeKey(version, ROOT_BITS) in nodes {
        HashOfNode(hash, trees[version]);
        root := Some(NodeHash(hash, nodes[NodeKey(version, ROOT_BITS)]));
      } else {
        root := None;
      }
      if version in trees { HashOfCanonical(hash, trees[version]); }
    }

    /** Applies a sorted batch to the latest version. The new version holds the
        updated map in its canonical tree; the nodes written are exactly the new
        nodes of that tree, and the nodes orphaned exactly those it lacks. */
    method Apply(oldVersion: nat, newVersion: nat, batch: Batch<Op>) returns (root: Option<Hash256>)
      requires Valid() && Sorted(batch)
      requires trees == map[] || (oldVersion == latest && latest < newVersion)
      modifies this
      ensures Valid()
      ensures latest == newVersion && latest in trees && trees == old(trees)[latest := trees[latest]]
      ensures Current() == ApplyOps(old(Current()), ToMap(batch))
      ensures root == RootHash(hash, Current())
      ensures nodes == old(nodes) + Flatten(hash, trees[newVersion], ROOT_BITS)
      ensures forall k :: k in nodes && k.version == newVersion ==> k in Reach(trees[newVersion], ROOT_BITS)
      ensures WritesOnly(old(nodes), nodes, newVersion)
      ensures orphans == old(orphans)
                + Orphaned(newVersion, Dropped(old(LatestTree(trees, latest)), trees[newVersion], ROOT_BITS))
    {
      ghost var next;
      BeforeApplying(hash, nodes, orphans, trees, latest, oldVersion, newVersion);
      root, next := ApplyAtRoot(oldVersion, newVersion, batch, LatestTree(trees, latest));
      HashOfCanonical(hash, next);
      NoExtraSaves(hash, old(nodes), old(orphans), trees, latest, next, newVersion);
      ApplyKeepsValid(hash, old(nodes), old(orphans), trees, latest, next, newVersion, nodes, orphans);
      trees, latest := trees[newVersion := next], newVersion;
    }

    /** Walks down the key's path and proves its presence or absence at the given version. */
    method Prove(key: Hash256, version: nat) returns (result: Result<P.Proof, StdError>)
      requires Valid()
      ensures version !in trees || trees[version].Empty? ==> result == Err(DataNotFound)
      ensures version in trees && !trees[version].Empty? ==>
                && result == Ok(P.ProofFor(hash, trees[version], key))
                && RootHash(hash, Contents(trees[version])).Some?
                && P.ProofVerdict(hash, RootHash(hash, Contents(trees[version])).value, key,
                                  P.Lookup(Contents(trees[version]), key), result.value) == P.Accepted
    {
      RootsAreExact(hash, nodes, orphans, trees, latest, version);
      if NodeKey(version, ROOT_BITS) !in nodes {
        return Err(DataNotFound);
      }
      ghost var t := trees[version];
      assert TreeIsStored(hash, nodes, t, version);
      var proofNode, siblings := WalkDown(key, version, t);
      // The siblings run from the bottom up in the proof format.
      siblings := Reverse(siblings);
      result := Ok(if proofNode.Some? then P.NonMembership(proofNode.value, siblings) else P.Membership(siblings));
      HashOfCanonical(hash, t);
      JmtProofTheorems.ProofsAreComplete(hash, t, key);
    }

    /** The walk itself: it never runs out of bits and never misses a node. */
    method WalkDown(key: Hash256, version: nat, ghost t: Tree)
      returns (proofNode: Option<P.ProofNode>, siblings: P.Siblings)
      requires Canonical(t, ROOT_BITS) && Stored(hash, nodes, t, ROOT_BITS) && !t.Empty? && t.version == version
      ensures P.Walk(hash, t, key, 0) == (proofNode, Reverse(siblings))
    {
      ghost var cur := t;
      var depth := 0;
      assert key[..0] == ROOT_BITS;
      assert NodeKey(version, ROOT_BITS) in Flatten(hash, t, ROOT_BITS);
      var node := nodes[NodeKey(version, ROOT_BITS)];
      proofNode, siblings := None, [];
      var bits := B.BitsOf(key);
      while node.Internal?
        invariant depth <= MAX_BIT_LENGTH && Canonical(cur, key[..depth]) && Stored(hash, nodes, cur, key[..depth])
        invariant !cur.Empty? && node == NodeOf(hash, cur)
        invariant P.Walk(hash, t, key, 0).0 == P.Walk(hash, cur, key, depth).0
        invariant P.Walk(hash, t, key, 0).1 == P.Walk(hash, cur, key, depth).1 + Reverse(siblings)
        decreases cur
      {
        P.WalkStep(hash, cur, key, depth, Reverse(siblings));
        StepIsStored(hash, nodes, cur, key, depth);
        var (child, sibling) :=
          if bits[depth] then (node.rightChild, node.leftChild) else (node.leftChild, node.rightChild);
        if child.None? {
          proofNode := Some(P.InternalNode(HashOfChild(node.leftChild), HashOfChild(node.rightChild)));
          assert [] + Reverse(siblings) == Reverse(siblings);
          return;
        }
        ReverseAppend(siblings, HashOfChild(sibling));
        siblings := siblings + [HashOfChild(sibling)];
        cur := P.ChildAlong(cur, key, depth);
        depth := depth + 1;
        node := nodes[NodeKey(child.value.version, key[..depth])];
      }
      if node.key != key {
        proofNode := Some(P.LeafNode(node.key, node.value));
      }
      assert [] + Reverse(siblings) == Reverse(siblings);
    }

    /** The ICS-23 path of a key that exists: its operations match the siblings of
        the key's own proof one for one, and hash the key's leaf up to the root. */
    method Ics23ProveExistence(version: nat, key: Hash256) returns (path: seq<I.InnerOp>)
      requires Valid() && version in trees && key in Contents(trees[version])
      ensures P.ProofFor(hash, trees[version], key).Membership?
      ensures var siblings := P.ProofFor(hash, trees[version], key).siblings;
              |siblings| <= MAX_BIT_LENGTH && path == I.OpsFor(key, 0, siblings)
      ensures Some(I.ApplyOps(hash, path, HashLeafNode(hash, key, Contents(trees[version])[key])))
           == RootHash(hash, Contents(trees[version]))
    {
      ghost var t := trees[version];
      RootsAreExact(hash, nodes, orphans, trees, latest, version);
      assert TreeIsStored(hash, nodes, t, version);
      assert key[..0] == ROOT_BITS;
      JmtProofTheorems.WalkEndsRight(hash, t, key, 0);
      path := Ics23WalkDown(version, key, t);
      path := Reverse(path);
      HashOfCanonical(hash, t);
      JmtProofTheorems.WalkHashesUp(hash, t, key, 0);
      I.OpsHashUp(hash, key, 0, P.Walk(hash, t, key, 0).1, HashLeafNode(hash, key, Contents(t)[key]));
    }

    method Ics23WalkDown(version: nat, key: Hash256, ghost t: Tree) returns (path: seq<I.InnerOp>)
      requires Canonical(t, ROOT_BITS) && Stored(hash, nodes, t, ROOT_BITS) && !t.Empty? && t.version == version
      requires P.Walk(hash, t, key, 0).0.None?
      ensures |P.Walk(hash, t, key, 0).1| <= MAX_BIT_LENGTH
      ensures Reverse(path) == I.OpsFor(key, 0, P.Walk(hash, t, key, 0).1)
    {
      ghost var cur := t;
      var depth := 0;
      assert key[..0] == ROOT_BITS;
      assert NodeKey(version, ROOT_BITS) in Flatten(hash, t, ROOT_BITS);
      var node := nodes[NodeKey(version, ROOT_BITS)];
      ghost var siblings: P.Siblings := [];
      path := [];
      var bits := B.BitsOf(key);
      while node.Internal?
        invariant depth <= MAX_BIT_LENGTH && Canonical(cur, key[..depth]) && Stored(hash, nodes, cur, key[..depth])
        invariant !cur.Empty? && node == NodeOf(hash, cur)
        invariant P.Walk(hash, cur, key, depth).0.None?
        invariant P.Walk(hash, t, key, 0).1 == P.Walk(hash, cur, key, depth).1 + Reverse(siblings)
        invariant I.OpsAlong(key, siblings, path) && |siblings| == depth
        decreases cur
      {
        Ics23Step(hash, cur, key, depth, siblings, path);
        StepIsStored(hash, nodes, cur, key, depth);
        var (child, sibling) :=
          if bits[depth] then (node.rightChild, node.leftChild) else (node.leftChild, node.rightChild);
        assert HashOfChild(sibling) == HashOf(hash, P.SiblingAlong(cur, key, depth));
        path := path + [I.OpFor(bits[depth], HashOfChild(sibling))];
        siblings := siblings + [HashOfChild(sibling)];
        cur := P.ChildAlong(cur, key, depth);
        depth := depth + 1;
        node := nodes[NodeKey(child.value.version, key[..depth])];
      }
      assert node.key == key;
      assert [] + Reverse(siblings) == Reverse(siblings);
      I.ReverseOps(key, siblings, path);
    }

    method ApplyAtRoot(oldVersion: nat, newVersion: nat, batch: Batch<Op>, ghost t: Tree)
      returns (root: Option<Hash256>, ghost next: Tree)
      requires Sorted(batch) && Canonical(t, ROOT_BITS) && Before(t, newVersion) && Stored(hash, nodes, t, ROOT_BITS)
      requires if t.Empty? then NodeKey(oldVersion, ROOT_BITS) !in nodes else t.version == oldVersion
      modifies this`nodes, this`orphans
      ensures NextTree(t, next, newVersion)
      ensures Contents(next) == ApplyOps(Contents(t), ToMap(batch))
      ensures root == HashOf(hash, next)
      ensures nodes == old(nodes) + Flatten(hash, next, ROOT_BITS)
      ensures WritesOnly(old(nodes), nodes, newVersion)
      ensures orphans == old(orphans) + Orphaned(newVersion, Dropped(t, next, ROOT_BITS))
    {
      assert AllUnder(batch, ROOT_BITS);
      assert !t.Empty? ==> NodeKey(oldVersion, ROOT_BITS) in Flatten(hash, t, ROOT_BITS);
      if NodeKey(oldVersion, ROOT_BITS) in nodes {
        MarkNodeAsOrphaned(newVersion, oldVersion, ROOT_BITS);
      }
      assert orphans == old(orphans) + RootRecord(t, newVersion);
      var outcome, t' := ApplyAt(newVersion, oldVersion, ROOT_BITS, batch, t);
      RecordsInAnyOrder(old(orphans), RootRecord(t, newVersion),
                        Orphaned(newVersion, ReachBelow(t, ROOT_BITS) - Reach(t', ROOT_BITS)));
      next := Rerooted(t', newVersion);
      RootReplaced(hash, outcome, t, t', batch, newVersion);
      root := SaveRoot(newVersion, outcome, next);
      RootSaved(hash, old(nodes), next);
    }

    /** If the new tree is non-empty, save its root node and return its hash. */
    method SaveRoot(newVersion: nat, outcome: Outcome, ghost next: Tree) returns (root: Option<Hash256>)
      requires NodeIn(outcome) == NodeOpt(hash, next) && (!next.Empty? ==> next.version == newVersion)
      modifies this`nodes
      ensures root == HashOf(hash, next)
      ensures nodes == SaveTop(hash, old(nodes), next, ROOT_BITS)
    {
      match NodeIn(outcome)
      case Some(rootNode) =>
        SaveNode(newVersion, ROOT_BITS, rootNode);
        HashOfNode(hash, next);
        root := Some(NodeHash(hash, rootNode));
      case None =>
        root := None;
    }

    /** Removes every node orphaned by `upTo`. What remains is exactly what the
        surviving versions need, and their trees are untouched. */
    method Prune(upTo: nat)
      requires Valid()
      modifies this
      ensures Valid()
      ensures trees == Retained(old(trees), upTo) && latest == old(latest)
      ensures nodes == PrunedNodes(old(nodes), old(orphans), upTo)
      ensures orphans == PrunedOrphans(old(orphans), upTo)
      ensures forall k :: k in nodes <==> Reachable(trees, k)
    {
      var due := set o | o in orphans && o.since <= upTo;
      ghost var all := due;
      while due != {}
        invariant due <= all
        invariant nodes == Without(old(nodes), all - due)
        invariant orphans == old(orphans) && trees == old(trees) && latest == old(latest)
        decreases due
      {
        var o :| o in due;
        WithoutOneMore(old(nodes), all - due, o);
        assert all - (due - {o}) == (all - due) + {o};
        nodes := nodes - {o.key};
        due := due - {o};
      }
      assert all - due == all;
      WithoutAllDue(old(nodes), old(orphans), upTo);
      orphans := set o | o in orphans && o.since > upTo;
      PruneKeepsValid(hash, old(nodes), old(orphans), trees, latest, upTo);
      trees := Retained(trees, upTo);
      forall k ensures k in nodes <==> Reachable(trees, k) {
        NodesAreExact(hash, nodes, orphans, trees, latest, k);
      }
    }

    method SaveNode(version: nat, bits: Bits, node: Node)
      modifies this`nodes
      ensures nodes == old(nodes)[NodeKey(version, bits) := node]
    {
      nodes := nodes[NodeKey(version, bits) := node];
    }

    method MarkNodeAsOrphaned(since: nat, version: nat, bits: Bits)
      modifies this`orphans
      ensures orphans == old(orphans) + {Orphan(since, NodeKey(version, bits))}
    {
      orphans := orphans + {Orphan(since, NodeKey(version, bits))};
    }

    method CreateSubtree(version: nat, bits: Bits, batch: Batch<Hash256>, existingLeaf: Option<LeafNode>)
      returns (outcome: Outcome, ghost t: Tree)
      requires ReadyToCreate(batch, existingLeaf, bits)
      modifies this`nodes
      ensures Canonical(t, bits) && AllNew(t, version)
      ensures Contents(t) == ToCreate(batch, existingLeaf)
      ensures nodes == old(nodes) + Below(hash, t, bits)
      ensures CreatedOutcome(hash, outcome, t)
      ensures outcome.Updated? <==> |batch| > 0
      ensures |batch| == 0 && existingLeaf.None? ==> t.Empty?
      decreases MAX_BIT_LENGTH - |bits|, 1
    {
      if |batch| == 0 && existingLeaf.None? {
        outcome, t := Unchanged(None), Empty;
      } else if |batch| == 0 {
        outcome := Unchanged(Some(Leaf(existingLeaf.value.key, existingLeaf.value.value)));
        t := Tip(version, existingLeaf.value.key, existingLeaf.value.value);
      } else if |batch| == 1 && existingLeaf.None? {
        var (key, value) := batch[0];
        outcome, t := Updated(Leaf(key, value)), Tip(version, key, value);
        assert ToCreate(batch, existingLeaf) == ToMap(batch) == map[key := value];
      } else {
        outcome, t := CreateFork(version, bits, batch, existingLeaf);
      }
    }

    /** Two or more keys: build both sides and save their roots. */
    method CreateFork(version: nat, bits: Bits, batch: Batch<Hash256>, existingLeaf: Option<LeafNode>)
      returns (outcome: Outcome, ghost t: Tree)
      requires ReadyToCreate(batch, existingLeaf, bits)
      requires |batch| >= 2 || (|batch| == 1 && existingLeaf.Some?)
      modifies this`nodes
      ensures Canonical(t, bits) && AllNew(t, version) && !t.Empty?
      ensures Contents(t) == ToCreate(batch, existingLeaf)
      ensures nodes == old(nodes) + Below(hash, t, bits)
      ensures outcome == Updated(NodeOf(hash, t))
      decreases MAX_BIT_LENGTH - |bits|, 0
    {
      TwoKeysNeedABit(batch, existingLeaf, bits);
      var (batchForLeft, batchForRight) := PartitionBatch(batch, |bits|);
      var (leafForLeft, leafForRight) := PartitionLeaf(existingLeaf, |bits|);
      SplitToCreate(batch, existingLeaf, bits);

      var leftBits := bits + [false];
      var leftOutcome, left := CreateSubtree(version, leftBits, batchForLeft, leafForLeft);
      var rightBits := bits + [true];
      var rightOutcome, right := CreateSubtree(version, rightBits, batchForRight, leafForRight);

      SaveIfAny(version, leftBits, leftOutcome, left);
      SaveIfAny(version, rightBits, rightOutcome, right);

      outcome := Updated(Internal(IntoChild(hash, version, leftOutcome), IntoChild(hash, version, rightOutcome)));
      t := Fork(version, left, right);
      SavingBothTops(hash, old(nodes), left, right, bits);
      CreatedFork(hash, leftOutcome, left, rightOutcome, right, bits, version, ToCreate(batch, existingLeaf));
    }

    /** If a subtree is non-empty, save its root node. */
    method SaveIfAny(version: nat, bits: Bits, outcome: Outcome, ghost t: Tree)
      requires CreatedOutcome(hash, outcome, t) && AllNew(t, version)
      modifies this`nodes
      ensures nodes == SaveTop(hash, old(nodes), t, bits)
    {
      if NodeIn(outcome).Some? {
        SaveNode(version, bits, NodeIn(outcome).value);
      }
    }

    method ApplyAt(newVersion: nat, oldVersion: nat, bits: Bits, batch: Batch<Op>, ghost t: Tree)
      returns (outcome: Outcome, ghost t': Tree)
      requires Ready(hash, nodes, t, bits, batch, newVersion)
      requires if t.Empty? then NodeKey(oldVersion, bits) !in nodes else t.version == oldVersion
      modifies this`nodes, this`orphans
      ensures OutcomeFits(hash, outcome, t, t', newVersion)
      ensures Replaces(t, t', bits, batch, newVersion)
      ensures nodes == old(nodes) + Below(hash, t', bits)
      ensures WritesOnly(old(nodes), nodes, newVersion)
      ensures orphans == old(orphans) + Orphaned(newVersion, ReachBelow(t, bits) - Reach(t', bits))
      decreases t, 3
    {
      if !t.Empty? {
        assert Flatten(hash, t, bits)[NodeKey(oldVersion, bits)] == NodeOf(hash, t);
      }
      if NodeKey(oldVersion, bits) in nodes {
        match nodes[NodeKey(oldVersion, bits)]
        case Leaf(key, value) =>
          outcome, t' := ApplyAtLeaf(newVersion, bits, LeafNode(key, value), batch, t);
        case Internal(leftChild, rightChild) =>
          outcome, t' := ApplyAtInternal(newVersion, bits, leftChild, rightChild, batch, t);
      } else {
        var (inserts, op) := PrepareBatch(batch, None);
        PrepareIsExact(batch, None, bits);
        OpsOnNothing(ToMap(batch));
        outcome, t' := CreateSubtree(newVersion, bits, inserts, None);
        AllNewFacts(t', bits, newVersion);
        CreatedWritesOnly(hash, old(nodes), t', bits, newVersion);
      }
    }

    method ApplyAtChild(newVersion: nat, childBits: Bits, child: Option<Child>, batch: Batch<Op>, ghost t: Tree)
      returns (outcome: Outcome, ghost t': Tree)
      requires Ready(hash, nodes, t, childBits, batch, newVersion)
      requires child == ChildOf(hash, t)
      modifies this`nodes, this`orphans
      ensures OutcomeFits(hash, outcome, t, t', newVersion)
      ensures Replaces(t, t', childBits, batch, newVersion)
      ensures nodes == old(nodes) + Below(hash, t', childBits)
      ensures WritesOnly(old(nodes), nodes, newVersion)
      ensures orphans == old(orphans) + Orphaned(newVersion, ReachBelow(t, childBits) - Reach(t', childBits))
      decreases t, 4
    {
      if |batch| == 0 {
        t' := t;
        BelowIsStored(hash, nodes, t, childBits);
        BeforeIsMonotone(t, newVersion, newVersion + 1);
        if child.None? {
          outcome := Unchanged(None);
        } else {
          assert NodeKey(child.value.version, childBits) in Flatten(hash, t, childBits);
          outcome := Unchanged(Some(nodes[NodeKey(child.value.version, childBits)]));
        }
      } else if child.None? {
        var (inserts, op) := PrepareBatch(batch, None);
        PrepareIsExact(batch, None, childBits);
        OpsOnNothing(ToMap(batch));
        outcome, t' := CreateSubtree(newVersion, childBits, inserts, None);
        AllNewFacts(t', childBits, newVersion);
        CreatedWritesOnly(hash, old(nodes), t', childBits, newVersion);
      } else {
        outcome, t' := ApplyAt(newVersion, child.value.version, childBits, batch, t);
      }
    }

    method ApplyAtLeaf(newVersion: nat, bits: Bits, leaf: LeafNode, batch: Batch<Op>, ghost t: Tree)
      returns (outcome: Outcome, ghost t': Tree)
      requires Ready(hash, nodes, t, bits, batch, newVersion)
      requires t.Tip? && leaf == LeafNode(t.key, t.value)
      modifies this`nodes
      ensures OutcomeFits(hash, outcome, t, t', newVersion)
      ensures Replaces(t, t', bits, batch, newVersion)
      ensures nodes == old(nodes) + Below(hash, t', bits)
      ensures WritesOnly(old(nodes), nodes, newVersion)
      decreases t, 2
    {
      var (inserts, op) := PrepareBatch(batch, Some(leaf.key));
      PrepareIsExact(batch, Some(leaf.key), bits);
      if |inserts| > 0 {
        PreparedLeaf(leaf, batch, bits);
        outcome, t' := CreateSubtree(newVersion, bits, inserts, LeafAfter(leaf, op));
        AllNewFacts(t', bits, newVersion);
        CreatedWritesOnly(hash, old(nodes), t', bits, newVersion);
      } else if op == Some(Delete) {
        outcome, t' := Deleted, Empty;
      } else if op.Some? && op.value.value != leaf.value {
        outcome, t' := Updated(Leaf(leaf.key, op.value.value)), Tip(newVersion, leaf.key, op.value.value);
      } else {
        // No operation on this leaf, or an overwrite with the same value.
        outcome, t' := Unchanged(Some(Leaf(leaf.key, leaf.value))), t;
      }
      LeafReplaced(t, t', batch, leaf);
    }

    method ApplyAtInternal(newVersion: nat, bits: Bits, leftChild: Option<Child>, rightChild: Option<Child>,
                           batch: Batch<Op>, ghost t: Tree)
      returns (outcome: Outcome, ghost t': Tree)
      requires Ready(hash, nodes, t, bits, batch, newVersion)
      requires t.Fork? && leftChild == ChildOf(hash, t.left) && rightChild == ChildOf(hash, t.right)
      modifies this`nodes, this`orphans
      ensures OutcomeFits(hash, outcome, t, t', newVersion)
      ensures Replaces(t, t', bits, batch, newVersion)
      ensures nodes == old(nodes) + Below(hash, t', bits)
      ensures WritesOnly(old(nodes), nodes, newVersion)
      ensures orphans == old(orphans) + Orphaned(newVersion, ReachBelow(t, bits) - Reach(t', bits))
      decreases t, 2
    {
      var leftOutcome, rightOutcome;
      ghost var left, right;
      leftOutcome, rightOutcome, left, right := ApplyAtChildren(newVersion, bits, leftChild, rightChild, batch, t);
      outcome, t' := Reassemble(newVersion, bits, leftChild, rightChild, leftOutcome, rightOutcome,
                                t, left, right, old(nodes), old(orphans));
      ForkReplaced(t, t', left, right, bits, batch, newVersion);
    }

    /** The first half of applying a batch at an internal node: apply each half
        of the batch at its child, then orphan the children that changed. */
    method ApplyAtChildren(newVersion: nat, bits: Bits, leftChild: Option<Child>, rightChild: Option<Child>,
                           batch: Batch<Op>, ghost t: Tree)
      returns (leftOutcome: Outcome, rightOutcome: Outcome, ghost left: Tree, ghost right: Tree)
      requires Ready(hash, nodes, t, bits, batch, newVersion)
      requires t.Fork? && leftChild == ChildOf(hash, t.left) && rightChild == ChildOf(hash, t.right)
      modifies this`nodes, this`orphans
      ensures OutcomeFits(hash, leftOutcome, t.left, left, newVersion)
      ensures OutcomeFits(hash, rightOutcome, t.right, right, newVersion)
      ensures ChildrenReplaced(t, left, right, bits, batch, newVersion)
      ensures nodes == old(nodes) + Below(hash, left, bits + [false]) + Below(hash, right, bits + [true])
      ensures WritesOnly(old(nodes), nodes, newVersion)
      ensures orphans == old(orphans) + Orphaned(newVersion, DroppedByChildren(t, left, right, bits))
      decreases t, 1
    {
      leftOutcome, rightOutcome, left, right := ApplyBothHalves(newVersion, bits, leftChild, rightChild, batch, t);
      OrphanChanged(newVersion, bits, leftChild, rightChild, leftOutcome, rightOutcome, t, left, right, old(orphans));
    }

    method ApplyBothHalves(newVersion: nat, bits: Bits, leftChild: Option<Child>, rightChild: Option<Child>,
                           batch: Batch<Op>, ghost t: Tree)
      returns (leftOutcome: Outcome, rightOutcome: Outcome, ghost left: Tree, ghost right: Tree)
      requires Ready(hash, nodes, t, bits, batch, newVersion)
      requires t.Fork? && leftChild == ChildOf(hash, t.left) && rightChild == ChildOf(hash, t.right)
      modifies this`nodes, this`orphans
      ensures OutcomeFits(hash, leftOutcome, t.left, left, newVersion)
      ensures OutcomeFits(hash, rightOutcome, t.right, right, newVersion)
      ensures ChildrenReplaced(t, left, right, bits, batch, newVersion)
      ensures nodes == old(nodes) + Below(hash, left, bits + [false]) + Below(hash, right, bits + [true])
      ensures WritesOnly(old(nodes), nodes, newVersion)
      ensures orphans == old(orphans)
                + Orphaned(newVersion, ReachBelow(t.left, bits + [false]) - Reach(left, bits + [false]))
                + Orphaned(newVersion, ReachBelow(t.right, bits + [true]) - Reach(right, bits + [true]))
      decreases t, 0
    {
      var (batchForLeft, batchForRight) := PartitionBatch(batch, |bits|);
      ChildrenAreReady(hash, nodes, t, bits, batch, newVersion);

      var leftBits := bits + [false];
      leftOutcome, left := ApplyAtChild(newVersion, leftBits, leftChild, batchForLeft, t.left);
      OtherChildStays(hash, old(nodes), left, t.right, bits);
      var rightBits := bits + [true];
      rightOutcome, right := ApplyAtChild(newVersion, rightBits, rightChild, batchForRight, t.right);
    }

    /** Each child that existed and was updated or deleted is orphaned. */
    method OrphanChanged(newVersion: nat, bits: Bits, leftChild: Option<Child>, rightChild: Option<Child>,
                         leftOutcome: Outcome, rightOutcome: Outcome,
                         ghost t: Tree, ghost left: Tree, ghost right: Tree, ghost orphans0: set<Orphan>)
      requires t.Fork? && Before(t, newVersion)
      requires leftChild == ChildOf(hash, t.left) && rightChild == ChildOf(hash, t.right)
      requires OutcomeFits(hash, leftOutcome, t.left, left, newVersion)
      requires OutcomeFits(hash, rightOutcome, t.right, right, newVersion)
      requires orphans == orphans0
                 + Orphaned(newVersion, ReachBelow(t.left, bits + [false]) - Reach(left, bits + [false]))
                 + Orphaned(newVersion, ReachBelow(t.right, bits + [true]) - Reach(right, bits + [true]))
      modifies this`orphans
      ensures orphans == orphans0 + Orphaned(newVersion, DroppedByChildren(t, left, right, bits))
    {
      if Changed(leftOutcome) && leftChild.Some? {
        MarkNodeAsOrphaned(newVersion, leftChild.value.version, bits + [false]);
      }
      if Changed(rightOutcome) && rightChild.Some? {
        MarkNodeAsOrphaned(newVersion, rightChild.value.version, bits + [true]);
      }
      ChildrenOrphans(hash, leftOutcome, rightOutcome, t, left, right, bits, newVersion, orphans0);
    }

    /** The second half of applying a batch at an internal node: collapse the
        path if one leaf is left, otherwise save the changed children. */
    method Reassemble(newVersion: nat, bits: Bits, leftChild: Option<Child>, rightChild: Option<Child>,
                      leftOutcome: Outcome, rightOutcome: Outcome,
                      ghost t: Tree, ghost left: Tree, ghost right: Tree,
                      ghost nodes0: map<NodeKey, Node>, ghost orphans0: set<Orphan>)
      returns (outcome: Outcome, ghost t': Tree)
      requires Before(t, newVersion) && Stored(hash, nodes0, t, bits)
      requires t.Fork? && leftChild == ChildOf(hash, t.left) && rightChild == ChildOf(hash, t.right)
      requires OutcomeFits(hash, leftOutcome, t.left, left, newVersion)
      requires OutcomeFits(hash, rightOutcome, t.right, right, newVersion)
      requires nodes == nodes0 + Below(hash, left, bits + [false]) + Below(hash, right, bits + [true])
      requires orphans == orphans0 + Orphaned(newVersion, DroppedByChildren(t, left, right, bits))
      modifies this`nodes, this`orphans
      ensures OutcomeFits(hash, outcome, t, t', newVersion)
      ensures Reassembled(t, t', left, right, newVersion)
      ensures nodes == nodes0 + Below(hash, t', bits)
      ensures WritesOnly(old(nodes), nodes, newVersion)
      ensures orphans == orphans0 + Orphaned(newVersion, ReachBelow(t, bits) - Reach(t', bits))
    {
      if leftOutcome.Unchanged? && rightOutcome.Unchanged? {
        outcome, t' := Unchanged(Some(Internal(leftChild, rightChild))), t;
        NothingReassembled(hash, nodes0, t, bits);
      } else if Collapses(leftOutcome, rightOutcome) {
        outcome, t' := CollapsePath(newVersion, bits, leftChild, rightChild, leftOutcome, rightOutcome,
                                    t, left, right, nodes0, orphans0);
      } else {
        outcome, t' := RebuildFork(newVersion, bits, leftChild, rightChild, leftOutcome, rightOutcome,
                                   t, left, right, nodes0);
      }
    }

    /** At most one leaf is left below the node. */
    method CollapsePath(newVersion: nat, bits: Bits, leftChild: Option<Child>, rightChild: Option<Child>,
                        leftOutcome: Outcome, rightOutcome: Outcome,
                        ghost t: Tree, ghost left: Tree, ghost right: Tree,
                        ghost nodes0: map<NodeKey, Node>, ghost orphans0: set<Orphan>)
      returns (outcome: Outcome, ghost t': Tree)
      requires Before(t, newVersion)
      requires t.Fork? && leftChild == ChildOf(hash, t.left) && rightChild == ChildOf(hash, t.right)
      requires OutcomeFits(hash, leftOutcome, t.left, left, newVersion)
      requires OutcomeFits(hash, rightOutcome, t.right, right, newVersion)
      requires Collapses(leftOutcome, rightOutcome) && !(leftOutcome.Unchanged? && rightOutcome.Unchanged?)
      requires nodes == nodes0 + Below(hash, left, bits + [false]) + Below(hash, right, bits + [true])
      requires orphans == orphans0 + Orphaned(newVersion, DroppedByChildren(t, left, right, bits))
      modifies this`orphans
      ensures OutcomeFits(hash, outcome, t, t', newVersion)
      ensures Reassembled(t, t', left, right, newVersion)
      ensures nodes == nodes0 + Below(hash, t', bits)
      ensures orphans == orphans0 + Orphaned(newVersion, ReachBelow(t, bits) - Reach(t', bits))
    {
      if Gone(leftOutcome) && Gone(rightOutcome) {
        outcome, t' := Deleted, Empty;
        LeafLifted(hash, t, left, right, bits, newVersion, t');
      } else if LiftsLeaf(leftOutcome, rightOutcome) {
        outcome, t' := Lift(newVersion, bits, false, leftOutcome, leftChild, t, left, right, nodes0, orphans0);
      } else {
        outcome, t' := Lift(newVersion, bits, true, rightOutcome, rightChild, t, left, right, nodes0, orphans0);
      }
    }

    /** The node is replaced by the only leaf left below it, which hangs on the
        given side. An old leaf is orphaned where it was. */
    method Lift(newVersion: nat, bits: Bits, side: bool, leafOutcome: Outcome, child: Option<Child>,
                ghost t: Tree, ghost left: Tree, ghost right: Tree,
                ghost nodes0: map<NodeKey, Node>, ghost orphans0: set<Orphan>)
      returns (outcome: Outcome, ghost t': Tree)
      requires t.Fork? && Before(t, newVersion)
      requires if side then left.Empty? && right.Tip? else left.Tip? && right.Empty?
      requires child == ChildOf(hash, if side then t.right else t.left)
      requires OutcomeFits(
        hash, leafOutcome, if side then t.right else t.left, if side then right else left, newVersion)
      requires nodes == nodes0 + Below(hash, left, bits + [false]) + Below(hash, right, bits + [true])
      requires orphans == orphans0 + Orphaned(newVersion, DroppedByChildren(t, left, right, bits))
      modifies this`orphans
      ensures var leaf := if side then right else left;
              t' == Tip(newVersion, leaf.key, leaf.value) && outcome == Updated(NodeOf(hash, t'))
      ensures nodes == nodes0 + Below(hash, t', bits)
      ensures orphans == orphans0 + Orphaned(newVersion, ReachBelow(t, bits) - Reach(t', bits))
    {
      ghost var leaf := if side then right else left;
      t' := Tip(newVersion, leaf.key, leaf.value);
      if leafOutcome.Unchanged? {
        MarkNodeAsOrphaned(newVersion, child.value.version, bits + [side]);
        outcome := Updated(leafOutcome.kept.value);
        KeptLeafLifted(hash, t, left, right, bits, newVersion, orphans0);
      } else {
        outcome := leafOutcome;
        LeafLifted(hash, t, left, right, bits, newVersion, t');
      }
    }

    /** At least one child changed and the path cannot be collapsed. */
    method RebuildFork(newVersion: nat, bits: Bits, leftChild: Option<Child>, rightChild: Option<Child>,
                       leftOutcome: Outcome, rightOutcome: Outcome,
                       ghost t: Tree, ghost left: Tree, ghost right: Tree, ghost nodes0: map<NodeKey, Node>)
      returns (outcome: Outcome, ghost t': Tree)
      requires Stored(hash, nodes0, t, bits)
      requires t.Fork? && leftChild == ChildOf(hash, t.left) && rightChild == ChildOf(hash, t.right)
      requires OutcomeFits(hash, leftOutcome, t.left, left, newVersion)
      requires OutcomeFits(hash, rightOutcome, t.right, right, newVersion)
      requires nodes == nodes0 + Below(hash, left, bits + [false]) + Below(hash, right, bits + [true])
      modifies this`nodes
      ensures t' == Fork(newVersion, left, right) && outcome == Updated(NodeOf(hash, t'))
      ensures nodes == nodes0 + Below(hash, t', bits)
      ensures WritesOnly(old(nodes), nodes, newVersion)
      ensures DroppedByChildren(t, left, right, bits) == ReachBelow(t, bits) - Reach(t', bits)
    {
      TopsStay(hash, nodes0, t, left, right, bits, leftOutcome, rightOutcome, newVersion);
      var newLeftChild := SaveIfUpdated(newVersion, bits + [false], leftOutcome, leftChild, t.left, left);
      var newRightChild := SaveIfUpdated(newVersion, bits + [true], rightOutcome, rightChild, t.right, right);
      outcome, t' := Updated(Internal(newLeftChild, newRightChild)), Fork(newVersion, left, right);
      SavingBothTops(hash, nodes0, left, right, bits);
      Rebuilt(t, left, right, bits, newVersion);
    }

    /** The child pointer after the child's outcome; a changed child is saved now. */
    method SaveIfUpdated(
      newVersion: nat, bits: Bits, outcome: Outcome, child: Option<Child>, ghost t: Tree, ghost t': Tree)
      returns (newChild: Option<Child>)
      requires child == ChildOf(hash, t) && OutcomeFits(hash, outcome, t, t', newVersion)
      requires outcome.Unchanged? && !t.Empty? ==>
                 NodeKey(t.version, bits) in nodes && nodes[NodeKey(t.version, bits)] == NodeOf(hash, t)
      modifies this`nodes
      ensures newChild == ChildOf(hash, t')
      ensures nodes == SaveTop(hash, old(nodes), t', bits)
      ensures WritesOnly(old(nodes), nodes, newVersion)
    {
      match outcome
      case Updated(node) =>
        SaveNode(newVersion, bits, node);
        HashOfNode(hash, t');
        newChild := Some(Child(newVersion, NodeHash(hash, node)));
      case Deleted =>
        newChild := None;
      case Unchanged(_) =>
        newChild := child;
    }
  }
}
