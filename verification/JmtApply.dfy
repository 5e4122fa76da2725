/** What applying a batch at a node does to the subtree below it, to the stored
    nodes and to the orphans, and why the cases of the recursion achieve it. */
module JmtApply {
  import opened Wrappers
  import opened JmtNode
  import opened JmtTree
  import opened JmtBatch

  datatype LeafNode = LeafNode(key: Hash256, value: Hash256)

  /** What happened to the node at which a batch was applied. */
  datatype Outcome =
    | Unchanged(kept: Option<Node>)
    | Updated(changed: Node)
    | Deleted

  /** A node that is no longer part of the tree since some version. */
  datatype Orphan = Orphan(since: nat, key: NodeKey)

  // --------------------------- creating a subtree ----------------------------

  function NodeIn(outcome: Outcome): Option<Node> {
    match outcome
    case Unchanged(kept) => kept
    case Updated(node) => Some(node)
    case Deleted => None
  }

  function IntoChild(h: Hasher, version: nat, outcome: Outcome): Option<Child> {
    if NodeIn(outcome).Some? then Some(Child(version, NodeHash(h, NodeIn(outcome).value))) else None
  }

  function PartitionLeaf(leaf: Option<LeafNode>, index: nat): (Option<LeafNode>, Option<LeafNode>)
    requires index < MAX_BIT_LENGTH
  {
    if leaf.Some? then
      if !leaf.value.key[index] then (leaf, None) else (None, leaf)
    else
      (None, None)
  }

  ghost function LeafMap(leaf: Option<LeafNode>): KeyValues {
    if leaf.Some? then map[leaf.value.key := leaf.value.value] else map[]
  }

  ghost function NodeOpt(h: Hasher, t: Tree): Option<Node> {
    if t.Empty? then None else Some(NodeOf(h, t))
  }

  /** All nodes of the tree were written at `version`. */
  predicate AllNew(t: Tree, version: nat) {
    match t
    case Empty => true
    case Tip(v, _, _) => v == version
    case Fork(v, left, right) => v == version && AllNew(left, version) && AllNew(right, version)
  }

  ghost predicate CreatedOutcome(h: Hasher, outcome: Outcome, t: Tree) {
    outcome == Unchanged(NodeOpt(h, t)) || (!t.Empty? && outcome == Updated(NodeOf(h, t)))
  }

  lemma HashOfNode(h: Hasher, t: Tree)
    requires !t.Empty?
    ensures Some(NodeHash(h, NodeOf(h, t))) == HashOf(h, t)
  {
  }

  ghost predicate ReadyToCreate(batch: Batch<Hash256>, leaf: Option<LeafNode>, path: Bits) {
    && Sorted(batch) && AllUnder(batch, path) && |path| <= MAX_BIT_LENGTH
    && (leaf.Some? ==> path <= leaf.value.key && leaf.value.key !in ToMap(batch))
  }

  ghost function ToCreate(batch: Batch<Hash256>, leaf: Option<LeafNode>): KeyValues {
    ToMap(batch) + LeafMap(leaf)
  }

  /** Two different keys under one path still differ in some later bit: the
      recursion never asks for a bit past the last one. */
  lemma TwoKeysNeedABit(batch: Batch<Hash256>, leaf: Option<LeafNode>, path: Bits)
    requires ReadyToCreate(batch, leaf, path)
    requires |batch| >= 2 || (|batch| == 1 && leaf.Some?)
    ensures |path| < MAX_BIT_LENGTH
    ensures !AtMostOneKey(ToCreate(batch, leaf))
  {
    var k := if |batch| >= 2 then batch[1].0 else leaf.value.key;
    KeyLessIsIrreflexive(batch[0].0);
    ToMapKeys(batch, batch[0].0);
    ToMapKeys(batch, k);
    assert k in ToCreate(batch, leaf) && batch[0].0 in ToCreate(batch, leaf) && k != batch[0].0;
    if |path| == MAX_BIT_LENGTH { FullPathHasOneKey(path, batch[0].0, k); }
  }

  lemma SplitToCreate(batch: Batch<Hash256>, leaf: Option<LeafNode>, path: Bits)
    requires ReadyToCreate(batch, leaf, path) && |path| < MAX_BIT_LENGTH
    ensures var (leafLeft, leafRight) := PartitionLeaf(leaf, |path|);
            var (batchLeft, batchRight) := PartitionBatch(batch, |path|);
            && ReadyToCreate(batchLeft, leafLeft, path + [false])
            && ReadyToCreate(batchRight, leafRight, path + [true])
            && ToCreate(batch, leaf) == ToCreate(batchLeft, leafLeft) + ToCreate(batchRight, leafRight)
  {
    PartitionIsExact(batch, path);
    var (batchLeft, batchRight) := PartitionBatch(batch, |path|);
    AddLeafToSide(ToMap(batch), ToMap(batchLeft), ToMap(batchRight), leaf, path);
  }

  lemma AddLeafToSide(m: KeyValues, left: KeyValues, right: KeyValues, leaf: Option<LeafNode>, path: Bits)
    requires m == left + right && |path| < MAX_BIT_LENGTH
    requires leaf.Some? ==> path <= leaf.value.key && leaf.value.key !in m
    ensures var (leafLeft, leafRight) := PartitionLeaf(leaf, |path|);
            && (leafLeft.Some? ==> path + [false] <= leafLeft.value.key && leafLeft.value.key !in left)
            && (leafRight.Some? ==> path + [true] <= leafRight.value.key && leafRight.value.key !in right)
            && m + LeafMap(leaf) == (left + LeafMap(leafLeft)) + (right + LeafMap(leafRight))
  {
    if leaf.Some? {
      assert leaf.value.key !in left && leaf.value.key !in right;
      PrefixOfExtension(path, leaf.value.key[|path|], leaf.value.key);
    }
  }

  /** Saving a subtree's root beside the nodes below it. */
  ghost function SaveTop(h: Hasher, nodes: map<NodeKey, Node>, t: Tree, bits: Bits): map<NodeKey, Node> {
    if t.Empty? then nodes else nodes[NodeKey(t.version, bits) := NodeOf(h, t)]
  }

  lemma SavingBothTops(h: Hasher, nodes: map<NodeKey, Node>, left: Tree, right: Tree, bits: Bits)
    ensures SaveTop(h, SaveTop(h, nodes + Below(h, left, bits + [false]) + Below(h, right, bits + [true]),
                            left, bits + [false]), right, bits + [true])
         == nodes + (Flatten(h, left, bits + [false]) + Flatten(h, right, bits + [true]))
  {
    SiblingsAreApart(left, right, bits);
    var a, b := Below(h, left, bits + [false]), Below(h, right, bits + [true]);
    assert !left.Empty? ==> NodeKey(left.version, bits + [false]) in Reach(left, bits + [false]);
    MergeThenSave(nodes, a, b);
    if !left.Empty? { SaveOver(nodes, a, b, NodeKey(left.version, bits + [false]), NodeOf(h, left)); }
    if !right.Empty? {
      SaveLast(nodes, Flatten(h, left, bits + [false]), b, NodeKey(right.version, bits + [true]), NodeOf(h, right));
    }
  }

  lemma MergeThenSave<K, V>(nodes: map<K, V>, a: map<K, V>, b: map<K, V>)
    ensures nodes + a + b == nodes + (a + b)
  {
  }

  lemma SaveOver<K, V>(nodes: map<K, V>, a: map<K, V>, b: map<K, V>, k: K, v: V)
    requires k !in b
    ensures (nodes + a + b)[k := v] == nodes + (a[k := v] + b)
  {
  }

  lemma SaveLast<K, V>(nodes: map<K, V>, a: map<K, V>, b: map<K, V>, k: K, v: V)
    ensures (nodes + (a + b))[k := v] == nodes + (a + b[k := v])
  {
  }

  /** The node built from the outcomes for the two sides is the fork of the two subtrees. */
  lemma CreatedFork(h: Hasher, leftOutcome: Outcome, left: Tree, rightOutcome: Outcome, right: Tree,
                    bits: Bits, version: nat, contents: KeyValues)
    requires |bits| < MAX_BIT_LENGTH
    requires Canonical(left, bits + [false]) && Canonical(right, bits + [true])
    requires Contents(left) + Contents(right) == contents && !AtMostOneKey(contents)
    requires AllNew(left, version) && AllNew(right, version)
    requires CreatedOutcome(h, leftOutcome, left) && CreatedOutcome(h, rightOutcome, right)
    ensures var t := Fork(version, left, right);
            && Canonical(t, bits) && AllNew(t, version) && Contents(t) == contents
            && NodeOf(h, t) == Internal(IntoChild(h, version, leftOutcome), IntoChild(h, version, rightOutcome))
  {
    TwoKeysDoNotCollapse(left, right);
    if !left.Empty? { HashOfNode(h, left); }
    if !right.Empty? { HashOfNode(h, right); }
  }

  // ---------------------- what one application achieves ----------------------

  /** A subtree and a batch for it, as an application finds them. */
  ghost predicate Ready(h: Hasher, nodes: map<NodeKey, Node>, t: Tree, bits: Bits, batch: Batch<Op>, newVersion: nat) {
    && Canonical(t, bits) && Before(t, newVersion) && Stored(h, nodes, t, bits)
    && Sorted(batch) && AllUnder(batch, bits)
  }

  ghost predicate OutcomeFits(h: Hasher, outcome: Outcome, t: Tree, t': Tree, newVersion: nat) {
    match outcome
    case Unchanged(kept) => t' == t && kept == NodeOpt(h, t)
    case Updated(changed) => !t'.Empty? && t'.version == newVersion && changed == NodeOf(h, t')
    case Deleted => t'.Empty? && !t.Empty?
  }

  /** The new subtree is canonical, holds the updated map, and shares with the
      old one every node that was not written just now. */
  ghost predicate Replaces(t: Tree, t': Tree, bits: Bits, batch: Batch<Op>, newVersion: nat) {
    && Canonical(t', bits) && Before(t', newVersion + 1)
    && Contents(t') == ApplyOps(Contents(t), ToMap(batch))
    && forall k :: k in Reach(t', bits) ==> k.version == newVersion || k in Reach(t, bits)
  }

  /** The orphan records, dated `since`, of the nodes with these keys. */
  ghost function Orphaned(since: nat, keys: set<NodeKey>): set<Orphan> {
    set k | k in keys :: Orphan(since, k)
  }

  /** Nodes of other versions than `version` are not touched. */
  ghost predicate WritesOnly(nodes: map<NodeKey, Node>, nodes': map<NodeKey, Node>, version: nat) {
    forall k :: k in nodes && k.version != version ==> k in nodes' && nodes'[k] == nodes[k]
  }

  // --------------------------------- at a leaf ---------------------------------

  lemma AllNewFacts(t: Tree, bits: Bits, version: nat)
    requires AllNew(t, version)
    ensures Before(t, version + 1)
    ensures forall k :: k in Reach(t, bits) ==> k.version == version
    ensures !t.Empty? ==> t.version == version
  {
    if t.Fork? {
      AllNewFacts(t.left, bits + [false], version);
      AllNewFacts(t.right, bits + [true], version);
    }
  }

  lemma CreatedWritesOnly(h: Hasher, nodes: map<NodeKey, Node>, t: Tree, bits: Bits, version: nat)
    requires AllNew(t, version)
    ensures WritesOnly(nodes, nodes + Below(h, t, bits), version)
  {
    AllNewFacts(t, bits, version);
  }

  /** The leaf that takes part in building the new subtree. */
  function LeafAfter(leaf: LeafNode, op: Option<Op>): Option<LeafNode> {
    match op
    case None => Some(leaf)
    case Some(Insert(value)) => Some(LeafNode(leaf.key, value))
    case Some(Delete) => None
  }

  lemma OpsOnLeaf(leaf: LeafNode, ops: map<Hash256, Op>)
    ensures ApplyOps(LeafMap(Some(leaf)), ops)
         == Inserts(ops, Some(leaf.key)) + LeafMap(LeafAfter(leaf, OpOnLeaf(ops, Some(leaf.key))))
  {
  }

  lemma PreparedLeaf(leaf: LeafNode, batch: Batch<Op>, bits: Bits)
    requires Sorted(batch) && AllUnder(batch, bits) && |bits| <= MAX_BIT_LENGTH && bits <= leaf.key
    ensures var (inserts, op) := PrepareBatch(batch, Some(leaf.key));
            ReadyToCreate(inserts, LeafAfter(leaf, op), bits)
  {
    PrepareIsExact(batch, Some(leaf.key), bits);
  }

  lemma LeafReplaced(t: Tree, t': Tree, batch: Batch<Op>, leaf: LeafNode)
    requires Sorted(batch) && t.Tip? && leaf == LeafNode(t.key, t.value)
    requires var (inserts, op) := PrepareBatch(batch, Some(leaf.key));
             Contents(t') == ToCreate(inserts, LeafAfter(leaf, op))
    ensures Contents(t') == ApplyOps(Contents(t), ToMap(batch))
  {
    assert AllUnder(batch, []);
    PrepareIsExact(batch, Some(leaf.key), []);
    OpsOnLeaf(leaf, ToMap(batch));
  }

  lemma OpsOnNothing(ops: map<Hash256, Op>)
    ensures ApplyOps(map[], ops) == Inserts(ops, None) == Inserts(ops, None) + LeafMap(None)
  {
  }

  // ---------------------------- at an internal node ----------------------------

  /** Writing below one child leaves the other child's nodes in place. */
  lemma OtherChildStays(h: Hasher, nodes: map<NodeKey, Node>, left: Tree, right: Tree, bits: Bits)
    requires Stored(h, nodes, right, bits + [true])
    ensures Stored(h, nodes + Below(h, left, bits + [false]), right, bits + [true])
  {
    SiblingsAreApart(left, right, bits);
  }

  lemma ChildrenAreReady(h: Hasher, nodes: map<NodeKey, Node>, t: Tree, bits: Bits, batch: Batch<Op>, newVersion: nat)
    requires Ready(h, nodes, t, bits, batch, newVersion) && t.Fork?
    ensures var (batchLeft, batchRight) := PartitionBatch(batch, |bits|);
            && Ready(h, nodes, t.left, bits + [false], batchLeft, newVersion)
            && Ready(h, nodes, t.right, bits + [true], batchRight, newVersion)
  {
    PartitionIsExact(batch, bits);
    ForkIsStored(h, nodes, t, bits);
  }

  lemma ForkIsStored(h: Hasher, nodes: map<NodeKey, Node>, t: Tree, bits: Bits)
    requires Stored(h, nodes, t, bits) && t.Fork?
    ensures Stored(h, nodes, t.left, bits + [false]) && Stored(h, nodes, t.right, bits + [true])
  {
    SiblingsAreApart(t.left, t.right, bits);
    ReachIsUnderPath(t, bits);
    var all, left, right := Flatten(h, t, bits), Flatten(h, t.left, bits + [false]), Flatten(h, t.right, bits + [true]);
    assert Below(h, t, bits) == left + right;
    forall k | k in left ensures k in all && all[k] == left[k] {
      assert k in ReachBelow(t, bits) && k !in right && k.bits != bits;
    }
    forall k | k in right ensures k in all && all[k] == right[k] {
      assert k in ReachBelow(t, bits) && k.bits != bits;
    }
  }

  lemma BelowIsStored(h: Hasher, nodes: map<NodeKey, Node>, t: Tree, bits: Bits)
    requires Stored(h, nodes, t, bits)
    ensures nodes + Below(h, t, bits) == nodes
  {
    if t.Fork? {
      ForkIsStored(h, nodes, t, bits);
    }
  }

  lemma KeysOnSide<T>(batch: Batch<T>, bits: Bits, bit: bool)
    requires AllUnder(batch, bits + [bit])
    ensures forall k :: k in ToMap(batch) ==> |bits| < |k| && k[|bits|] == bit
  {
    forall k | k in ToMap(batch) ensures |bits| < |k| && k[|bits|] == bit {
      ToMapKeys(batch, k);
      PrefixOfExtension(bits, bit, k);
    }
  }

  /** Applying each half of the operations to its child updates the fork's contents. */
  lemma ForkContents(t: Tree, left: Tree, right: Tree, bits: Bits,
                     opsLeft: map<Hash256, Op>, opsRight: map<Hash256, Op>)
    requires Canonical(t, bits) && t.Fork?
    requires forall k :: k in opsLeft ==> !k[|bits|]
    requires forall k :: k in opsRight ==> k[|bits|]
    requires Contents(left) == ApplyOps(Contents(t.left), opsLeft)
    requires Contents(right) == ApplyOps(Contents(t.right), opsRight)
    ensures Contents(left) + Contents(right) == ApplyOps(Contents(t), opsLeft + opsRight)
  {
    ForkSplitsKeys(t, bits);
    OpsSplit(Contents(t.left), Contents(t.right), opsLeft, opsRight);
  }

  /** Nodes of a child that are not part of the child's replacement. */
  ghost function Dropped(t: Tree, t': Tree, bits: Bits): set<NodeKey> {
    Reach(t, bits) - Reach(t', bits)
  }

  predicate Changed(outcome: Outcome) {
    outcome.Updated? || outcome.Deleted?
  }

  /** The record of the child's own node, due when the child changed. */
  ghost function OwnRecord(outcome: Outcome, t: Tree, bits: Bits, newVersion: nat): set<Orphan> {
    if Changed(outcome) && !t.Empty? then {Orphan(newVersion, NodeKey(t.version, bits))} else {}
  }

  /** With the child's own node orphaned when it changed, all dropped nodes are. */
  lemma ChildOrphans(h: Hasher, outcome: Outcome, t: Tree, t': Tree, bits: Bits, newVersion: nat)
    requires OutcomeFits(h, outcome, t, t', newVersion) && Before(t, newVersion)
    ensures Orphaned(newVersion, ReachBelow(t, bits) - Reach(t', bits)) + OwnRecord(outcome, t, bits, newVersion)
         == Orphaned(newVersion, Dropped(t, t', bits))
  {
    ReachIsUnderPath(t', bits);
    if Changed(outcome) && !t.Empty? {
      assert NodeKey(t.version, bits) !in Reach(t', bits);
      assert Dropped(t, t', bits) == (ReachBelow(t, bits) - Reach(t', bits)) + {NodeKey(t.version, bits)};
    } else {
      assert Dropped(t, t', bits) == ReachBelow(t, bits) - Reach(t', bits);
    }
  }

  lemma ChildrenOrphans(h: Hasher, leftOutcome: Outcome, rightOutcome: Outcome, t: Tree, left: Tree, right: Tree,
                        bits: Bits, newVersion: nat, orphans: set<Orphan>)
    requires t.Fork? && Before(t, newVersion)
    requires OutcomeFits(h, leftOutcome, t.left, left, newVersion)
    requires OutcomeFits(h, rightOutcome, t.right, right, newVersion)
    ensures orphans + Orphaned(newVersion, ReachBelow(t.left, bits + [false]) - Reach(left, bits + [false]))
                    + Orphaned(newVersion, ReachBelow(t.right, bits + [true]) - Reach(right, bits + [true]))
                    + OwnRecord(leftOutcome, t.left, bits + [false], newVersion)
                    + OwnRecord(rightOutcome, t.right, bits + [true], newVersion)
         == orphans + Orphaned(newVersion, DroppedByChildren(t, left, right, bits))
  {
    ChildOrphans(h, leftOutcome, t.left, left, bits + [false], newVersion);
    ChildOrphans(h, rightOutcome, t.right, right, bits + [true], newVersion);
    OrphanedUnion(newVersion, Dropped(t.left, left, bits + [false]), Dropped(t.right, right, bits + [true]));
    SumsInAnyOrder(orphans,
                   Orphaned(newVersion, ReachBelow(t.left, bits + [false]) - Reach(left, bits + [false])),
                   Orphaned(newVersion, ReachBelow(t.right, bits + [true]) - Reach(right, bits + [true])),
                   OwnRecord(leftOutcome, t.left, bits + [false], newVersion),
                   OwnRecord(rightOutcome, t.right, bits + [true], newVersion));
  }

  lemma OrphanedUnion(since: nat, a: set<NodeKey>, b: set<NodeKey>)
    ensures Orphaned(since, a + b) == Orphaned(since, a) + Orphaned(since, b)
  {
  }

  lemma SumsInAnyOrder<T>(s: set<T>, a: set<T>, b: set<T>, c: set<T>, d: set<T>)
    ensures s + a + b + c + d == s + ((a + c) + (b + d))
  {
  }

  ghost function DroppedByChildren(t: Tree, left: Tree, right: Tree, bits: Bits): set<NodeKey>
    requires t.Fork?
  {
    Dropped(t.left, left, bits + [false]) + Dropped(t.right, right, bits + [true])
  }

  /** Both children are replaced under a new fork. */
  lemma Rebuilt(t: Tree, left: Tree, right: Tree, bits: Bits, newVersion: nat)
    requires t.Fork?
    ensures var t' := Fork(newVersion, left, right);
            ReachBelow(t, bits) - Reach(t', bits) == DroppedByChildren(t, left, right, bits)
  {
    SiblingsAreApart(t.left, right, bits);
    SiblingsAreApart(left, t.right, bits);
    ReachIsUnderPath(t, bits);
  }

  /** The only leaf left below the node takes the node's place. */
  lemma Lifted(t: Tree, key: Hash256, value: Hash256, bits: Bits, newVersion: nat)
    ensures ReachBelow(t, bits) - Reach(Tip(newVersion, key, value), bits) == ReachBelow(t, bits)
  {
    ReachIsUnderPath(t, bits);
  }

  lemma TipIsDropped(t: Tree, t': Tree, bits: Bits, newVersion: nat)
    requires Before(t, newVersion)
    requires t'.Empty? || (t'.Tip? && t'.version == newVersion)
    ensures Dropped(t, t', bits) == Reach(t, bits)
  {
    ReachIsBefore(t, bits, newVersion);
    assert Reach(t', bits) <= {NodeKey(newVersion, bits)};
  }

  /** What becomes of a fork whose children became `left` and `right`. */
  ghost predicate Reassembled(t: Tree, t': Tree, left: Tree, right: Tree, newVersion: nat)
    requires t.Fork?
  {
    if t' == t then
      left == t.left && right == t.right
    else if Collapsible(left, right) then
      t' == if left.Tip? then Tip(newVersion, left.key, left.value)
            else if right.Tip? then Tip(newVersion, right.key, right.value)
            else Empty
    else
      t' == Fork(newVersion, left, right)
  }

  ghost predicate ChildrenReplaced(t: Tree, left: Tree, right: Tree, bits: Bits, batch: Batch<Op>, newVersion: nat)
    requires t.Fork? && |bits| < MAX_BIT_LENGTH
  {
    var (batchLeft, batchRight) := PartitionBatch(batch, |bits|);
    && Replaces(t.left, left, bits + [false], batchLeft, newVersion)
    && Replaces(t.right, right, bits + [true], batchRight, newVersion)
  }

  lemma ForkReplaced(t: Tree, t': Tree, left: Tree, right: Tree, bits: Bits, batch: Batch<Op>, newVersion: nat)
    requires Canonical(t, bits) && Before(t, newVersion) && t.Fork? && Sorted(batch) && AllUnder(batch, bits)
    requires ChildrenReplaced(t, left, right, bits, batch, newVersion)
    requires Reassembled(t, t', left, right, newVersion)
    ensures Replaces(t, t', bits, batch, newVersion)
  {
    var (batchLeft, batchRight) := PartitionBatch(batch, |bits|);
    PartitionIsExact(batch, bits);
    KeysOnSide(batchLeft, bits, false);
    KeysOnSide(batchRight, bits, true);
    ForkContents(t, left, right, bits, ToMap(batchLeft), ToMap(batchRight));
    ReassembledShape(t, t', left, right, bits, newVersion);
  }

  lemma ReassembledShape(t: Tree, t': Tree, left: Tree, right: Tree, bits: Bits, newVersion: nat)
    requires Canonical(t, bits) && Before(t, newVersion) && t.Fork?
    requires Canonical(left, bits + [false]) && Before(left, newVersion + 1)
    requires Canonical(right, bits + [true]) && Before(right, newVersion + 1)
    requires forall k :: k in Reach(left, bits + [false]) ==>
      k.version == newVersion || k in Reach(t.left, bits + [false])
    requires forall k :: k in Reach(right, bits + [true]) ==>
      k.version == newVersion || k in Reach(t.right, bits + [true])
    requires Reassembled(t, t', left, right, newVersion)
    ensures Canonical(t', bits) && Before(t', newVersion + 1)
    ensures Contents(t') == Contents(left) + Contents(right)
    ensures forall k :: k in Reach(t', bits) ==> k.version == newVersion || k in Reach(t, bits)
  {
    BeforeIsMonotone(t, newVersion, newVersion + 1);
    if t' != t && left.Tip? { PrefixOfExtension(bits, false, left.key); }
    if t' != t && right.Tip? { PrefixOfExtension(bits, true, right.key); }
  }

  predicate Gone(outcome: Outcome) {
    outcome.Deleted? || outcome == Unchanged(None)
  }

  /** A leaf is all that is left: it is new and its sibling is gone, or it is
      old and its sibling has just been deleted. */
  predicate LiftsLeaf(leafOutcome: Outcome, siblingOutcome: Outcome) {
    match leafOutcome
    case Updated(node) => node.Leaf? && Gone(siblingOutcome)
    case Unchanged(Some(node)) => node.Leaf? && siblingOutcome.Deleted?
    case _ => false
  }

  /** At most a leaf is left of both children. */
  predicate Collapses(leftOutcome: Outcome, rightOutcome: Outcome) {
    || (Gone(leftOutcome) && Gone(rightOutcome))
    || LiftsLeaf(leftOutcome, rightOutcome)
    || LiftsLeaf(rightOutcome, leftOutcome)
  }

  lemma NothingReassembled(h: Hasher, nodes: map<NodeKey, Node>, t: Tree, bits: Bits)
    requires t.Fork? && Stored(h, nodes, t, bits)
    ensures nodes + Below(h, t.left, bits + [false]) + Below(h, t.right, bits + [true]) == nodes + Below(h, t, bits)
    ensures DroppedByChildren(t, t.left, t.right, bits) == {} == ReachBelow(t, bits) - Reach(t, bits)
  {
    ForkIsStored(h, nodes, t, bits);
    BelowIsStored(h, nodes, t.left, bits + [false]);
    BelowIsStored(h, nodes, t.right, bits + [true]);
    BelowIsStored(h, nodes, t, bits);
  }

  /** One new leaf, or nothing at all, is left below the node. */
  lemma LeafLifted(h: Hasher, t: Tree, left: Tree, right: Tree, bits: Bits, newVersion: nat, t': Tree)
    requires t.Fork? && Before(t, newVersion)
    requires left.Empty? || (left.Tip? && left.version == newVersion)
    requires right.Empty? || (right.Tip? && right.version == newVersion)
    requires t'.Empty? || (t'.Tip? && t'.version == newVersion)
    ensures DroppedByChildren(t, left, right, bits) == ReachBelow(t, bits) - Reach(t', bits)
    ensures Below(h, left, bits + [false]) == Below(h, right, bits + [true]) == Below(h, t', bits) == map[]
  {
    TipIsDropped(t.left, left, bits + [false], newVersion);
    TipIsDropped(t.right, right, bits + [true], newVersion);
    assert DroppedByChildren(t, left, right, bits) == ReachBelow(t, bits);
    if t'.Tip? {
      Lifted(t, t'.key, t'.value, bits, newVersion);
    } else {
      assert Reach(t', bits) == {};
    }
  }

  /** An old leaf is left below the node: it moves up, and its old copy is orphaned too. */
  lemma KeptLeafLifted(h: Hasher, t: Tree, left: Tree, right: Tree, bits: Bits, newVersion: nat, orphans: set<Orphan>)
    requires t.Fork? && Before(t, newVersion)
    requires (left == t.left && left.Tip? && right.Empty?) || (right == t.right && right.Tip? && left.Empty?)
    ensures var (leaf, side) := if left.Tip? then (left, false) else (right, true);
            orphans + Orphaned(newVersion, DroppedByChildren(t, left, right, bits))
                    + {Orphan(newVersion, NodeKey(leaf.version, bits + [side]))}
            == orphans + Orphaned(newVersion, ReachBelow(t, bits) - Reach(Tip(newVersion, leaf.key, leaf.value), bits))
  {
    var (leaf, side) := if left.Tip? then (left, false) else (right, true);
    Lifted(t, leaf.key, leaf.value, bits, newVersion);
    assert Reach(leaf, bits + [side]) == {NodeKey(leaf.version, bits + [side])};
    assert DroppedByChildren(t, left, right, bits) + Reach(leaf, bits + [side]) == ReachBelow(t, bits);
    OrphanedUnion(newVersion, DroppedByChildren(t, left, right, bits), Reach(leaf, bits + [side]));
  }

  /** An unchanged child is still where the fork's pointer says. */
  lemma TopsStay(h: Hasher, nodes: map<NodeKey, Node>, t: Tree, left: Tree, right: Tree, bits: Bits,
                 leftOutcome: Outcome, rightOutcome: Outcome, newVersion: nat)
    requires t.Fork? && Stored(h, nodes, t, bits)
    requires OutcomeFits(h, leftOutcome, t.left, left, newVersion)
    requires OutcomeFits(h, rightOutcome, t.right, right, newVersion)
    ensures var all := nodes + Below(h, left, bits + [false]) + Below(h, right, bits + [true]);
            && (leftOutcome.Unchanged? ==> TopIsIn(h, all, t.left, bits + [false]))
            && (rightOutcome.Unchanged? ==> TopIsIn(h, SaveTop(h, all, left, bits + [false]), t.right, bits + [true]))
  {
    ForkIsStored(h, nodes, t, bits);
    ReachIsUnderPath(left, bits + [false]);
    ReachIsUnderPath(right, bits + [true]);
    SiblingsAreApart(left, t.right, bits);
    SiblingsAreApart(t.left, right, bits);
    if !t.left.Empty? {
      assert NodeKey(t.left.version, bits + [false]) in Flatten(h, t.left, bits + [false]);
    }
    if !t.right.Empty? {
      assert NodeKey(t.right.version, bits + [true]) in Flatten(h, t.right, bits + [true]);
    }
  }

  ghost predicate TopIsIn(h: Hasher, nodes: map<NodeKey, Node>, t: Tree, bits: Bits) {
    !t.Empty? ==> NodeKey(t.version, bits) in nodes && nodes[NodeKey(t.version, bits)] == NodeOf(h, t)
  }
}
