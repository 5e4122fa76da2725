/** The store over a whole run: which versions it still answers for, which nodes
    are kept for them, and what pruning may remove. */
module JmtHistory {
  import opened Wrappers
  import opened JmtNode
  import opened JmtTree
  import opened JmtBatch
  import opened JmtApply
  import opened JmtProof

  const ROOT_BITS: Bits := []

  /** The versions still available, each with its tree. */
  type Versions = map<nat, Tree>

  /** The node left the tree at or before version `v`. */
  ghost predicate OrphanedBy(orphans: set<Orphan>, key: NodeKey, v: nat) {
    exists since: nat :: since <= v && Orphan(since, key) in orphans
  }

  ghost predicate Reachable(trees: Versions, key: NodeKey) {
    exists v :: v in trees && key in Reach(trees[v], ROOT_BITS)
  }

  ghost predicate TreeIsStored(h: Hasher, nodes: map<NodeKey, Node>, t: Tree, v: nat) {
    && Canonical(t, ROOT_BITS) && Before(t, v + 1)
    && (!t.Empty? ==> t.version == v)
    && Stored(h, nodes, t, ROOT_BITS)
  }

  ghost predicate TreesAreStored(h: Hasher, nodes: map<NodeKey, Node>, trees: Versions, latest: nat) {
    && (forall v :: v in trees ==> v <= latest && TreeIsStored(h, nodes, trees[v], v))
    && (trees != map[] ==> latest in trees)
  }

  /** A node belongs to version `v` exactly if it was written by then and not yet orphaned. */
  ghost predicate LivesAt(orphans: set<Orphan>, t: Tree, v: nat, k: NodeKey) {
    k in Reach(t, ROOT_BITS) <==> k.version <= v && !OrphanedBy(orphans, k, v)
  }

  ghost predicate LifetimesAreExact(nodes: map<NodeKey, Node>, orphans: set<Orphan>, trees: Versions) {
    forall v, k {:trigger LivesAt(orphans, trees[v], v, k)} ::
      v in trees && k in nodes ==> LivesAt(orphans, trees[v], v, k)
  }

  ghost predicate OrphansAreDated(orphans: set<Orphan>, trees: Versions) {
    forall o :: o in orphans ==> o.since in trees && o.key.version < o.since
  }

  ghost predicate ValidStore(h: Hasher, nodes: map<NodeKey, Node>, orphans: set<Orphan>, trees: Versions, latest: nat) {
    && TreesAreStored(h, nodes, trees, latest)
    && (forall k {:trigger Reachable(trees, k)} :: k in nodes ==> Reachable(trees, k))
    && LifetimesAreExact(nodes, orphans, trees)
    && OrphansAreDated(orphans, trees)
  }

  /** What the store currently holds. */
  ghost function LatestTree(trees: Versions, latest: nat): Tree {
    if latest in trees then trees[latest] else Empty
  }

  /** There is a root node at exactly the versions with a non-empty tree. */
  lemma RootsAreExact(h: Hasher, nodes: map<NodeKey, Node>, orphans: set<Orphan>, trees: Versions, latest: nat, v: nat)
    requires ValidStore(h, nodes, orphans, trees, latest)
    ensures NodeKey(v, ROOT_BITS) in nodes <==> v in trees && !trees[v].Empty?
    ensures v in trees && !trees[v].Empty? ==> nodes[NodeKey(v, ROOT_BITS)] == NodeOf(h, trees[v])
  {
    var root := NodeKey(v, ROOT_BITS);
    if root in nodes {
      assert Reachable(trees, root);
      var w :| w in trees && root in Reach(trees[w], ROOT_BITS);
      ReachIsUnderPath(trees[w], ROOT_BITS);
    }
    if v in trees && !trees[v].Empty? {
      assert root in Flatten(h, trees[v], ROOT_BITS);
    }
  }

  /** The stored nodes are exactly those some available version still needs. */
  lemma NodesAreExact(
    h: Hasher, nodes: map<NodeKey, Node>, orphans: set<Orphan>, trees: Versions, latest: nat, k: NodeKey)
    requires ValidStore(h, nodes, orphans, trees, latest)
    ensures k in nodes <==> Reachable(trees, k)
  {
    if Reachable(trees, k) {
      var v :| v in trees && k in Reach(trees[v], ROOT_BITS);
      assert k in Flatten(h, trees[v], ROOT_BITS);
    }
  }

  /** The tree as it stands with its root rewritten at `version`. */
  function Rerooted(t: Tree, version: nat): Tree {
    match t
    case Empty => Empty
    case Tip(_, key, value) => Tip(version, key, value)
    case Fork(_, left, right) => Fork(version, left, right)
  }

  // --------------------------------- applying ----------------------------------

  ghost predicate NextTree(t: Tree, t': Tree, newVersion: nat) {
    && Canonical(t', ROOT_BITS) && Before(t', newVersion + 1)
    && (!t'.Empty? ==> t'.version == newVersion)
    && forall k :: k in Reach(t', ROOT_BITS) ==> k.version == newVersion || k in Reach(t, ROOT_BITS)
  }

  lemma StaysStored(h: Hasher, nodes: map<NodeKey, Node>, nodes': map<NodeKey, Node>, t: Tree, version: nat)
    requires Stored(h, nodes, t, ROOT_BITS) && Before(t, version) && WritesOnly(nodes, nodes', version)
    ensures Stored(h, nodes', t, ROOT_BITS)
  {
    ReachIsBefore(t, ROOT_BITS, version);
  }

  /** Records dated `newVersion` matter from `newVersion` on, and not before. */
  lemma OrphanedLater(orphans: set<Orphan>, keys: set<NodeKey>, k: NodeKey, v: nat, newVersion: nat)
    ensures OrphanedBy(orphans + Orphaned(newVersion, keys), k, v)
       <==> OrphanedBy(orphans, k, v) || (newVersion <= v && k in keys)
  {
    if newVersion <= v && k in keys {
      assert Orphan(newVersion, k) in orphans + Orphaned(newVersion, keys);
    }
    if OrphanedBy(orphans, k, v) {
      var since: nat :| since <= v && Orphan(since, k) in orphans;
      assert Orphan(since, k) in orphans + Orphaned(newVersion, keys);
    }
  }

  lemma OrphanedByLatest(orphans: set<Orphan>, trees: Versions, latest: nat, k: NodeKey, v: nat)
    requires OrphansAreDated(orphans, trees) && latest <= v
    requires forall w :: w in trees ==> w <= latest
    ensures OrphanedBy(orphans, k, v) <==> OrphanedBy(orphans, k, latest)
  {
    if OrphanedBy(orphans, k, v) {
      var since: nat :| since <= v && Orphan(since, k) in orphans;
      assert Orphan(since, k).since in trees;
    }
  }

  lemma NodeIsOld(h: Hasher, nodes: map<NodeKey, Node>, orphans: set<Orphan>, trees: Versions, latest: nat, k: NodeKey)
    requires ValidStore(h, nodes, orphans, trees, latest) && k in nodes
    ensures latest in trees && k.version <= latest
  {
    assert Reachable(trees, k);
    var v :| v in trees && k in Reach(trees[v], ROOT_BITS);
    ReachIsBefore(trees[v], ROOT_BITS, v + 1);
  }

  /** The lifetime of a node as seen from the version just written. */
  lemma LatestLifetime(h: Hasher, nodes: map<NodeKey, Node>, orphans: set<Orphan>, trees: Versions, latest: nat,
                       t': Tree, newVersion: nat, k: NodeKey)
    requires ValidStore(h, nodes, orphans, trees, latest)
    requires trees == map[] || latest < newVersion
    requires NextTree(LatestTree(trees, latest), t', newVersion)
    requires k in nodes || k in Reach(t', ROOT_BITS)
    ensures var orphans' := orphans + Orphaned(newVersion, Dropped(LatestTree(trees, latest), t', ROOT_BITS));
            LivesAt(orphans', t', newVersion, k)
  {
    var t := LatestTree(trees, latest);
    OrphanedLater(orphans, Dropped(t, t', ROOT_BITS), k, newVersion, newVersion);
    ReachIsBefore(t', ROOT_BITS, newVersion + 1);
    NodesAreExact(h, nodes, orphans, trees, latest, k);
    if k in nodes {
      NodeIsOld(h, nodes, orphans, trees, latest, k);
      OrphanedByLatest(orphans, trees, latest, k, newVersion);
      assert LivesAt(orphans, trees[latest], latest, k);
      assert k in Reach(t, ROOT_BITS) <==> !OrphanedBy(orphans, k, latest);
    } else {
      assert k !in Reach(t, ROOT_BITS) by { assert !Reachable(trees, k); }
      assert !OrphanedBy(orphans, k, newVersion) by {
        forall since: nat | Orphan(since, k) in orphans ensures newVersion < since {
          assert Orphan(since, k).since in trees && Orphan(since, k).key.version < since;
        }
      }
    }
  }

  /** The lifetime of a node as seen from an earlier version does not change. */
  lemma EarlierLifetime(h: Hasher, nodes: map<NodeKey, Node>, orphans: set<Orphan>, trees: Versions,
                        dropped: set<NodeKey>, newVersion: nat, k: NodeKey, v: nat)
    requires LifetimesAreExact(nodes, orphans, trees)
    requires v in trees && v < newVersion && Before(trees[v], v + 1)
    requires k in nodes || k.version == newVersion
    ensures LivesAt(orphans + Orphaned(newVersion, dropped), trees[v], v, k)
  {
    OrphanedLater(orphans, dropped, k, v, newVersion);
    assert k in nodes ==> LivesAt(orphans, trees[v], v, k);
    ReachIsBefore(trees[v], ROOT_BITS, v + 1);
  }

  /** Applying a batch to the latest version keeps the store valid. */
  lemma ApplyKeepsValid(h: Hasher, nodes: map<NodeKey, Node>, orphans: set<Orphan>, trees: Versions, latest: nat,
                        t': Tree, newVersion: nat, nodes': map<NodeKey, Node>, orphans': set<Orphan>)
    requires ValidStore(h, nodes, orphans, trees, latest)
    requires trees == map[] || latest < newVersion
    requires NextTree(LatestTree(trees, latest), t', newVersion)
    requires WritesOnly(nodes, nodes', newVersion)
    requires nodes' == nodes + Flatten(h, t', ROOT_BITS)
    requires orphans' == orphans + Orphaned(newVersion, Dropped(LatestTree(trees, latest), t', ROOT_BITS))
    ensures ValidStore(h, nodes', orphans', trees[newVersion := t'], newVersion)
  {
    ApplyKeepsTrees(h, nodes, trees, latest, t', newVersion, nodes');
    forall k | k in nodes' ensures Reachable(trees[newVersion := t'], k) {
      ApplyKeepsReachable(h, nodes, orphans, trees, latest, t', newVersion, k);
    }
    ApplyKeepsLifetimes(h, nodes, orphans, trees, latest, t', newVersion, nodes');
    ApplyKeepsDates(h, nodes, orphans, trees, latest, t', newVersion);
  }

  lemma ApplyKeepsTrees(h: Hasher, nodes: map<NodeKey, Node>, trees: Versions, latest: nat,
                        t': Tree, newVersion: nat, nodes': map<NodeKey, Node>)
    requires TreesAreStored(h, nodes, trees, latest)
    requires trees == map[] || latest < newVersion
    requires Canonical(t', ROOT_BITS) && Before(t', newVersion + 1) && (!t'.Empty? ==> t'.version == newVersion)
    requires WritesOnly(nodes, nodes', newVersion)
    requires nodes' == nodes + Flatten(h, t', ROOT_BITS)
    ensures TreesAreStored(h, nodes', trees[newVersion := t'], newVersion)
  {
    var trees' := trees[newVersion := t'];
    forall v | v in trees' ensures Stored(h, nodes', trees'[v], ROOT_BITS) {
      if v != newVersion {
        BeforeIsMonotone(trees[v], v + 1, newVersion);
        StaysStored(h, nodes, nodes', trees[v], newVersion);
      }
    }
  }

  lemma ApplyKeepsLifetimes(h: Hasher, nodes: map<NodeKey, Node>, orphans: set<Orphan>, trees: Versions, latest: nat,
                            t': Tree, newVersion: nat, nodes': map<NodeKey, Node>)
    requires ValidStore(h, nodes, orphans, trees, latest)
    requires trees == map[] || latest < newVersion
    requires NextTree(LatestTree(trees, latest), t', newVersion)
    requires nodes'.Keys == nodes.Keys + Reach(t', ROOT_BITS)
    ensures LifetimesAreExact(nodes', orphans + Orphaned(newVersion, Dropped(LatestTree(trees, latest), t', ROOT_BITS)),
                              trees[newVersion := t'])
  {
    var trees' := trees[newVersion := t'];
    var orphans' := orphans + Orphaned(newVersion, Dropped(LatestTree(trees, latest), t', ROOT_BITS));
    forall v, k | v in trees' && k in nodes'
      ensures LivesAt(orphans', trees'[v], v, k)
    {
      LifetimeAfterApply(h, nodes, orphans, trees, latest, t', newVersion, v, k);
    }
  }

  lemma LifetimeAfterApply(h: Hasher, nodes: map<NodeKey, Node>, orphans: set<Orphan>, trees: Versions, latest: nat,
                           t': Tree, newVersion: nat, v: nat, k: NodeKey)
    requires ValidStore(h, nodes, orphans, trees, latest)
    requires trees == map[] || latest < newVersion
    requires NextTree(LatestTree(trees, latest), t', newVersion)
    requires (v in trees || v == newVersion) && (k in nodes || k in Reach(t', ROOT_BITS))
    ensures LivesAt(orphans + Orphaned(newVersion, Dropped(LatestTree(trees, latest), t', ROOT_BITS)),
                    trees[newVersion := t'][v], v, k)
  {
    if v == newVersion {
      LatestLifetime(h, nodes, orphans, trees, latest, t', newVersion, k);
    } else {
      NewKeys(h, nodes, orphans, trees, latest, t', newVersion, k);
      assert TreeIsStored(h, nodes, trees[v], v);
      EarlierLifetime(h, nodes, orphans, trees, Dropped(LatestTree(trees, latest), t', ROOT_BITS), newVersion, k, v);
    }
  }

  lemma NewKeys(h: Hasher, nodes: map<NodeKey, Node>, orphans: set<Orphan>, trees: Versions, latest: nat,
                t': Tree, newVersion: nat, k: NodeKey)
    requires ValidStore(h, nodes, orphans, trees, latest)
    requires NextTree(LatestTree(trees, latest), t', newVersion)
    requires k in nodes || k in Reach(t', ROOT_BITS)
    ensures k in nodes || k.version == newVersion
  {
    if k in Reach(LatestTree(trees, latest), ROOT_BITS) {
      assert Reachable(trees, k);
      NodesAreExact(h, nodes, orphans, trees, latest, k);
    }
  }

  lemma ApplyKeepsReachable(h: Hasher, nodes: map<NodeKey, Node>, orphans: set<Orphan>, trees: Versions, latest: nat,
                            t': Tree, newVersion: nat, k: NodeKey)
    requires ValidStore(h, nodes, orphans, trees, latest)
    requires trees == map[] || latest < newVersion
    requires k in nodes || k in Reach(t', ROOT_BITS)
    ensures Reachable(trees[newVersion := t'], k)
  {
    var trees' := trees[newVersion := t'];
    if k in Reach(t', ROOT_BITS) {
      assert newVersion in trees' && k in Reach(trees'[newVersion], ROOT_BITS);
    } else {
      assert Reachable(trees, k);
      var v :| v in trees && k in Reach(trees[v], ROOT_BITS);
      assert v in trees' && k in Reach(trees'[v], ROOT_BITS);
    }
  }

  lemma ApplyKeepsDates(h: Hasher, nodes: map<NodeKey, Node>, orphans: set<Orphan>, trees: Versions, latest: nat,
                        t': Tree, newVersion: nat)
    requires ValidStore(h, nodes, orphans, trees, latest)
    requires trees == map[] || latest < newVersion
    ensures OrphansAreDated(orphans + Orphaned(newVersion, Dropped(LatestTree(trees, latest), t', ROOT_BITS)),
                            trees[newVersion := t'])
  {
    var t := LatestTree(trees, latest);
    if latest in trees {
      BeforeIsMonotone(t, latest + 1, newVersion);
    }
    ReachIsBefore(t, ROOT_BITS, newVersion);
  }

  /** Rewriting the root at the new version gives the next tree, and orphaning
      the old root completes the orphan records. */
  lemma RootReplaced(h: Hasher, outcome: Outcome, t: Tree, t': Tree, batch: Batch<Op>, newVersion: nat)
    requires OutcomeFits(h, outcome, t, t', newVersion) && Before(t, newVersion)
    requires Sorted(batch) && Replaces(t, t', ROOT_BITS, batch, newVersion)
    ensures var next := Rerooted(t', newVersion);
            && NextTree(t, next, newVersion)
            && Contents(next) == Contents(t')
            && NodeIn(outcome) == NodeOpt(h, next)
            && Below(h, next, ROOT_BITS) == Below(h, t', ROOT_BITS)
            && HashOf(h, next) == HashOf(h, t')
            && Orphaned(newVersion, ReachBelow(t, ROOT_BITS) - Reach(t', ROOT_BITS)) + RootRecord(t, newVersion)
            == Orphaned(newVersion, Dropped(t, next, ROOT_BITS))
  {
    var next := Rerooted(t', newVersion);
    ReachIsUnderPath(t, ROOT_BITS);
    ReachIsUnderPath(next, ROOT_BITS);
    ReachIsUnderPath(t', ROOT_BITS);
    assert ReachBelow(next, ROOT_BITS) == ReachBelow(t', ROOT_BITS);
    RootDrops(t, t', newVersion);
  }

  ghost function RootRecord(t: Tree, newVersion: nat): set<Orphan> {
    if t.Empty? then {} else {Orphan(newVersion, NodeKey(t.version, ROOT_BITS))}
  }

  lemma RecordsInAnyOrder(s: set<Orphan>, a: set<Orphan>, b: set<Orphan>)
    ensures s + a + b == s + (b + a)
  {
  }

  lemma RootDrops(t: Tree, t': Tree, newVersion: nat)
    requires Before(t, newVersion)
    ensures Orphaned(newVersion, ReachBelow(t, ROOT_BITS) - Reach(t', ROOT_BITS)) + RootRecord(t, newVersion)
         == Orphaned(newVersion, Dropped(t, Rerooted(t', newVersion), ROOT_BITS))
  {
    var next := Rerooted(t', newVersion);
    ReachIsUnderPath(t, ROOT_BITS);
    ReachIsUnderPath(t', ROOT_BITS);
    assert ReachBelow(next, ROOT_BITS) == ReachBelow(t', ROOT_BITS);
    if !t.Empty? {
      assert NodeKey(t.version, ROOT_BITS) !in Reach(next, ROOT_BITS);
      assert Dropped(t, next, ROOT_BITS)
          == (ReachBelow(t, ROOT_BITS) - Reach(t', ROOT_BITS)) + {NodeKey(t.version, ROOT_BITS)};
    }
  }

  lemma RootSaved(h: Hasher, nodes: map<NodeKey, Node>, t: Tree)
    ensures SaveTop(h, nodes + Below(h, t, ROOT_BITS), t, ROOT_BITS) == nodes + Flatten(h, t, ROOT_BITS)
  {
  }

  /** What an application may assume about the latest tree. */
  lemma BeforeApplying(h: Hasher, nodes: map<NodeKey, Node>, orphans: set<Orphan>, trees: Versions, latest: nat,
                       oldVersion: nat, newVersion: nat)
    requires ValidStore(h, nodes, orphans, trees, latest)
    requires trees == map[] || (oldVersion == latest && latest < newVersion)
    ensures var t := LatestTree(trees, latest);
            && Canonical(t, ROOT_BITS) && Before(t, newVersion) && Stored(h, nodes, t, ROOT_BITS)
            && (if t.Empty? then NodeKey(oldVersion, ROOT_BITS) !in nodes else t.version == oldVersion)
  {
    RootsAreExact(h, nodes, orphans, trees, latest, oldVersion);
    if latest in trees { BeforeIsMonotone(trees[latest], latest + 1, newVersion); }
  }

  lemma NoExtraSaves(h: Hasher, nodes: map<NodeKey, Node>, orphans: set<Orphan>, trees: Versions, latest: nat,
                     t': Tree, newVersion: nat)
    requires ValidStore(h, nodes, orphans, trees, latest)
    requires trees == map[] || latest < newVersion
    ensures forall k :: k in nodes + Flatten(h, t', ROOT_BITS) && k.version == newVersion ==> k in Reach(t', ROOT_BITS)
  {
    forall k | k in nodes ensures k.version < newVersion {
      NodeIsOld(h, nodes, orphans, trees, latest, k);
    }
  }

  /** Removing the nodes of all due records one by one. */
  ghost function Without(nodes: map<NodeKey, Node>, records: set<Orphan>): map<NodeKey, Node> {
    nodes - set o | o in records :: o.key
  }

  lemma WithoutOneMore(nodes: map<NodeKey, Node>, records: set<Orphan>, o: Orphan)
    ensures Without(nodes, records) - {o.key} == Without(nodes, records + {o})
  {
  }

  lemma WithoutAllDue(nodes: map<NodeKey, Node>, orphans: set<Orphan>, upTo: nat)
    ensures Without(nodes, set o | o in orphans && o.since <= upTo) == PrunedNodes(nodes, orphans, upTo)
  {
    var due := set o | o in orphans && o.since <= upTo;
    forall k | k in nodes ensures OrphanedBy(orphans, k, upTo) <==> k in set o | o in due :: o.key {
      if OrphanedBy(orphans, k, upTo) {
        var since: nat :| since <= upTo && Orphan(since, k) in orphans;
        assert Orphan(since, k) in due;
      }
      if o :| o in due && o.key == k {
        assert Orphan(o.since, k) in orphans;
      }
    }
  }

  /** One step down the path of a key, the child's node is in storage. */
  lemma StepIsStored(h: Hasher, nodes: map<NodeKey, Node>, t: Tree, key: Hash256, d: nat)
    requires d < MAX_BIT_LENGTH && Canonical(t, key[..d]) && Stored(h, nodes, t, key[..d]) && t.Fork?
    ensures var child := ChildAlong(t, key, d);
            && Stored(h, nodes, child, key[..d + 1])
            && (!child.Empty? ==>
                  && NodeKey(child.version, key[..d + 1]) in nodes
                  && nodes[NodeKey(child.version, key[..d + 1])] == NodeOf(h, child))
  {
    assert key[..d + 1] == key[..d] + [key[d]];
    ForkIsStored(h, nodes, t, key[..d]);
    var child := ChildAlong(t, key, d);
    if !child.Empty? {
      assert NodeKey(child.version, key[..d + 1]) in Flatten(h, child, key[..d + 1]);
    }
  }

  // ---------------------------------- pruning ----------------------------------

  /** A later version is already in force at `upTo`. */
  ghost predicate Superseded(versions: set<nat>, v: nat, upTo: nat) {
    exists w :: w in versions && v < w <= upTo
  }

  /** The versions that survive pruning: those after `upTo`, and the one in force at `upTo`. */
  ghost function Retained(trees: Versions, upTo: nat): Versions {
    map v | v in trees && !Superseded(trees.Keys, v, upTo) :: trees[v]
  }

  ghost function PrunedNodes(nodes: map<NodeKey, Node>, orphans: set<Orphan>, upTo: nat): map<NodeKey, Node> {
    map k | k in nodes && !OrphanedBy(orphans, k, upTo) :: nodes[k]
  }

  ghost function PrunedOrphans(orphans: set<Orphan>, upTo: nat): set<Orphan> {
    set o | o in orphans && o.since > upTo
  }

  /** Some version that is not superseded is at least as late. */
  lemma {:induction false} LastInForce(versions: set<nat>, v: nat, upTo: nat) returns (w: nat)
    requires v in versions
    ensures w in versions && v <= w && !Superseded(versions, w, upTo) && (w == v || w <= upTo)
    decreases upTo - v
  {
    w := v;
    if u :| u in versions && v < u <= upTo {
      w := LastInForce(versions, u, upTo);
    }
  }

  /** A node a surviving version needs has not been orphaned by `upTo`. */
  lemma SurvivorsNeedNoOrphans(h: Hasher, nodes: map<NodeKey, Node>, orphans: set<Orphan>, trees: Versions, latest: nat,
                               upTo: nat, v: nat, k: NodeKey)
    requires ValidStore(h, nodes, orphans, trees, latest)
    requires v in Retained(trees, upTo) && k in nodes && k in Reach(trees[v], ROOT_BITS)
    ensures !OrphanedBy(orphans, k, upTo)
  {
    assert LivesAt(orphans, trees[v], v, k);
    forall since: nat | Orphan(since, k) in orphans ensures upTo < since {
      assert Orphan(since, k).since in trees.Keys;
      assert v < since by { assert !OrphanedBy(orphans, k, v); }
    }
  }

  /** Once the due orphans are gone, only the remaining records matter. */
  lemma OrphanedAfterPruning(orphans: set<Orphan>, k: NodeKey, v: nat, upTo: nat)
    requires !OrphanedBy(orphans, k, upTo)
    ensures OrphanedBy(PrunedOrphans(orphans, upTo), k, v) <==> OrphanedBy(orphans, k, v)
  {
    if OrphanedBy(orphans, k, v) {
      var since: nat :| since <= v && Orphan(since, k) in orphans;
      assert Orphan(since, k) in PrunedOrphans(orphans, upTo);
    }
  }

  lemma PruneKeepsReachable(h: Hasher, nodes: map<NodeKey, Node>, orphans: set<Orphan>, trees: Versions, latest: nat,
                            upTo: nat, k: NodeKey)
    requires ValidStore(h, nodes, orphans, trees, latest)
    requires k in nodes && !OrphanedBy(orphans, k, upTo)
    ensures Reachable(Retained(trees, upTo), k)
  {
    assert Reachable(trees, k);
    var v :| v in trees && k in Reach(trees[v], ROOT_BITS);
    var w := LastInForce(trees.Keys, v, upTo);
    StillReached(nodes, orphans, trees, k, v, w, upTo);
    assert w in Retained(trees, upTo) && k in Reach(Retained(trees, upTo)[w], ROOT_BITS);
  }

  lemma StillReached(
    nodes: map<NodeKey, Node>, orphans: set<Orphan>, trees: Versions, k: NodeKey, v: nat, w: nat, upTo: nat)
    requires LifetimesAreExact(nodes, orphans, trees)
    requires k in nodes && !OrphanedBy(orphans, k, upTo)
    requires v in trees && k in Reach(trees[v], ROOT_BITS)
    requires w in trees && v <= w && (w == v || w <= upTo)
    ensures k in Reach(trees[w], ROOT_BITS)
  {
    assert LivesAt(orphans, trees[v], v, k) && LivesAt(orphans, trees[w], w, k);
    if w != v {
      assert !OrphanedBy(orphans, k, w) by {
        forall since: nat | Orphan(since, k) in orphans ensures w < since {
          assert upTo < since;
        }
      }
    }
  }

  lemma PruneKeepsTree(h: Hasher, nodes: map<NodeKey, Node>, orphans: set<Orphan>, upTo: nat, t: Tree, v: nat)
    requires TreeIsStored(h, nodes, t, v)
    requires forall k :: k in Reach(t, ROOT_BITS) ==> !OrphanedBy(orphans, k, upTo)
    ensures TreeIsStored(h, PrunedNodes(nodes, orphans, upTo), t, v)
  {
  }

  lemma PruneKeepsTrees(
    h: Hasher, nodes: map<NodeKey, Node>, orphans: set<Orphan>, trees: Versions, latest: nat, upTo: nat)
    requires ValidStore(h, nodes, orphans, trees, latest)
    ensures TreesAreStored(h, PrunedNodes(nodes, orphans, upTo), Retained(trees, upTo), latest)
  {
    forall v | v in Retained(trees, upTo) ensures TreeIsStored(h, PrunedNodes(nodes, orphans, upTo), trees[v], v) {
      forall k | k in Reach(trees[v], ROOT_BITS) ensures !OrphanedBy(orphans, k, upTo) {
        assert k in Flatten(h, trees[v], ROOT_BITS);
        SurvivorsNeedNoOrphans(h, nodes, orphans, trees, latest, upTo, v, k);
      }
      PruneKeepsTree(h, nodes, orphans, upTo, trees[v], v);
    }
    if trees != map[] {
      assert !Superseded(trees.Keys, latest, upTo);
    }
  }

  lemma PruneKeepsLifetimes(nodes: map<NodeKey, Node>, orphans: set<Orphan>, trees: Versions, upTo: nat)
    requires LifetimesAreExact(nodes, orphans, trees)
    ensures LifetimesAreExact(PrunedNodes(nodes, orphans, upTo), PrunedOrphans(orphans, upTo), Retained(trees, upTo))
  {
    forall v, k | v in Retained(trees, upTo) && k in PrunedNodes(nodes, orphans, upTo)
      ensures LivesAt(PrunedOrphans(orphans, upTo), trees[v], v, k)
    {
      OrphanedAfterPruning(orphans, k, v, upTo);
      assert LivesAt(orphans, trees[v], v, k);
    }
  }

  /** Pruning keeps the store valid for every version that survives it. */
  lemma PruneKeepsValid(
    h: Hasher, nodes: map<NodeKey, Node>, orphans: set<Orphan>, trees: Versions, latest: nat, upTo: nat)
    requires ValidStore(h, nodes, orphans, trees, latest)
    ensures ValidStore(
      h, PrunedNodes(nodes, orphans, upTo), PrunedOrphans(orphans, upTo), Retained(trees, upTo), latest)
  {
    PruneKeepsTrees(h, nodes, orphans, trees, latest, upTo);
    forall k | k in PrunedNodes(nodes, orphans, upTo) ensures Reachable(Retained(trees, upTo), k) {
      PruneKeepsReachable(h, nodes, orphans, trees, latest, upTo, k);
    }
    PruneKeepsLifetimes(nodes, orphans, trees, upTo);
  }
}
