/** What the Jellyfish Merkle tree stores, as a mathematical tree: the canonical
    compressed tree of a key-value map, its nodes in storage, and its hash. */
module JmtTree {
  import opened Wrappers
  import opened JmtNode

  type KeyValues = map<Hash256, Hash256>

  /** A tree whose nodes remember the version at which they were written. */
  datatype Tree =
    | Empty
    | Tip(version: nat, key: Hash256, value: Hash256)
    | Fork(version: nat, left: Tree, right: Tree)

  ghost function Contents(t: Tree): KeyValues {
    if t.Empty? then map[]
    else if t.Tip? then map[t.key := t.value]
    else Contents(t.left) + Contents(t.right)
  }

  /** A fork with these children would have to be collapsed. */
  predicate Collapsible(left: Tree, right: Tree) {
    (left.Empty? && !right.Fork?) || (right.Empty? && !left.Fork?)
  }

  /** Every leaf lies on its key's bit path, and no path can be collapsed. */
  ghost predicate Canonical(t: Tree, path: Bits) {
    && |path| <= MAX_BIT_LENGTH
    && (t.Tip? ==> path <= t.key)
    && (t.Fork? ==>
          && |path| < MAX_BIT_LENGTH
          && Canonical(t.left, path + [false])
          && Canonical(t.right, path + [true])
          && !Collapsible(t.left, t.right))
  }

  /** The tree without its versions. */
  function Erase(t: Tree): Tree {
    match t
    case Empty => Empty
    case Tip(_, key, value) => Tip(0, key, value)
    case Fork(_, left, right) => Fork(0, Erase(left), Erase(right))
  }

  // ------------------------------- hashing -------------------------------

  function HashOf(h: Hasher, t: Tree): Option<Hash256> {
    match t
    case Empty => None
    case Tip(_, key, value) => Some(HashLeafNode(h, key, value))
    case Fork(_, left, right) => Some(HashInternalNode(h, HashOf(h, left), HashOf(h, right)))
  }

  lemma {:induction false} HashIgnoresVersions(h: Hasher, t: Tree)
    ensures HashOf(h, Erase(t)) == HashOf(h, t)
  {
    if !t.Fork? {
    } else {
      HashIgnoresVersions(h, t.left);
      HashIgnoresVersions(h, t.right);
    }
  }

  // ------------------------- keys of a canonical tree --------------------------

  lemma {:induction false} KeysHavePrefix(t: Tree, path: Bits)
    requires Canonical(t, path)
    ensures forall k :: k in Contents(t) ==> path <= k
  {
    if !t.Fork? {
    } else {
      KeysHavePrefix(t.left, path + [false]);
      KeysHavePrefix(t.right, path + [true]);
      forall k | k in Contents(t) ensures path <= k {
        assert k in Contents(t.left) || k in Contents(t.right);
        PrefixOfExtension(path, k in Contents(t.right), k);
        assert path + [k in Contents(t.right)] <= k;
      }
    }
  }

  lemma PrefixOfExtension(path: Bits, bit: bool, k: Hash256)
    ensures path + [bit] <= k <==> path <= k && |path| < MAX_BIT_LENGTH && k[|path|] == bit
  {
    if path + [bit] <= k {
      assert (path + [bit])[|path|] == k[|path|];
      assert forall i :: 0 <= i < |path| ==> (path + [bit])[i] == path[i];
    }
    if path <= k && |path| < MAX_BIT_LENGTH && k[|path|] == bit {
      assert forall i :: 0 <= i < |path| + 1 ==> (path + [bit])[i] == k[i];
    }
  }

  /** A fork's keys are split between its children by the next bit. */
  lemma ForkSplitsKeys(t: Tree, path: Bits)
    requires Canonical(t, path) && t.Fork?
    ensures forall k :: k in Contents(t.left) ==> path <= k && !k[|path|]
    ensures forall k :: k in Contents(t.right) ==> path <= k && k[|path|]
  {
    KeysHavePrefix(t.left, path + [false]);
    KeysHavePrefix(t.right, path + [true]);
    forall k | k in Contents(t.left) ensures path <= k && !k[|path|] { PrefixOfExtension(path, false, k); }
    forall k | k in Contents(t.right) ensures path <= k && k[|path|] { PrefixOfExtension(path, true, k); }
  }

  /** The part of a map whose keys have the given bit at the given index. */
  ghost function Side(m: KeyValues, index: nat, bit: bool): KeyValues
    requires index < MAX_BIT_LENGTH
  {
    map k | k in m && k[index] == bit :: m[k]
  }

  lemma ForkContentsAreSides(t: Tree, path: Bits)
    requires Canonical(t, path) && t.Fork?
    ensures Contents(t.left) == Side(Contents(t), |path|, false)
    ensures Contents(t.right) == Side(Contents(t), |path|, true)
  {
    ForkSplitsKeys(t, path);
  }

  lemma {:induction false} NonEmptyHasKey(t: Tree, path: Bits) returns (k: Hash256)
    requires Canonical(t, path) && !t.Empty?
    ensures k in Contents(t)
  {
    if t.Tip? {
      k := t.key;
    } else if t.left.Empty? {
      k := NonEmptyHasKey(t.right, path + [true]);
    } else {
      k := NonEmptyHasKey(t.left, path + [false]);
    }
  }

  lemma {:induction false} ForkHasTwoKeys(t: Tree, path: Bits) returns (k1: Hash256, k2: Hash256)
    requires Canonical(t, path) && t.Fork?
    ensures k1 in Contents(t) && k2 in Contents(t) && k1 != k2
  {
    if t.left.Empty? {
      k1, k2 := ForkHasTwoKeys(t.right, path + [true]);
    } else if t.right.Empty? {
      k1, k2 := ForkHasTwoKeys(t.left, path + [false]);
    } else {
      k1 := NonEmptyHasKey(t.left, path + [false]);
      k2 := NonEmptyHasKey(t.right, path + [true]);
      ForkSplitsKeys(t, path);
    }
  }

  // --------------------------- the canonical tree ----------------------------

  /** Two canonical trees with the same contents differ in versions only. */
  lemma {:induction false} CanonicalIsUnique(t1: Tree, t2: Tree, path: Bits)
    requires Canonical(t1, path) && Canonical(t2, path)
    requires Contents(t1) == Contents(t2)
    ensures Erase(t1) == Erase(t2)
  {
    if t1.Fork? && t2.Fork? {
      ForkContentsAreSides(t1, path);
      ForkContentsAreSides(t2, path);
      CanonicalIsUnique(t1.left, t2.left, path + [false]);
      CanonicalIsUnique(t1.right, t2.right, path + [true]);
    } else if t1.Fork? {
      var k1, k2 := ForkHasTwoKeys(t1, path);
    } else if t2.Fork? {
      var k1, k2 := ForkHasTwoKeys(t2, path);
    } else {
      assert t1.Tip? ==> t1.key in Contents(t1);
      assert t2.Tip? ==> t2.key in Contents(t2);
    }
  }

  ghost predicate UnderPath(m: KeyValues, path: Bits) {
    && |path| <= MAX_BIT_LENGTH
    && forall k :: k in m ==> path <= k
  }

  /** At full length a path leaves room for one key only. */
  lemma FullPathHasOneKey(path: Bits, k1: Hash256, k2: Hash256)
    requires |path| == MAX_BIT_LENGTH && path <= k1 && path <= k2
    ensures k1 == k2
  {
    assert k1 == path == k2;
  }

  ghost predicate AtMostOneKey(m: KeyValues) {
    forall k1, k2 :: k1 in m && k2 in m ==> k1 == k2
  }

  ghost function AnyKey(m: KeyValues): (k: Hash256)
    requires m != map[]
    ensures k in m
  {
    var k :| k in m;
    k
  }

  /** The canonical tree of a map. */
  ghost function Build(m: KeyValues, path: Bits): (t: Tree)
    requires UnderPath(m, path)
    ensures Canonical(t, path)
    ensures Contents(t) == m
    decreases MAX_BIT_LENGTH - |path|
  {
    if m == map[] then
      Empty
    else if AtMostOneKey(m) then
      Tip(0, AnyKey(m), m[AnyKey(m)])
    else
      SidesUnderPath(m, path);
      var left := Build(Side(m, |path|, false), path + [false]);
      var right := Build(Side(m, |path|, true), path + [true]);
      assert Contents(left) + Contents(right) == m;
      TwoKeysDoNotCollapse(left, right);
      Fork(0, left, right)
  }

  lemma TwoKeysDoNotCollapse(left: Tree, right: Tree)
    requires !AtMostOneKey(Contents(left) + Contents(right))
    ensures !Collapsible(left, right)
  {
  }

  lemma SidesUnderPath(m: KeyValues, path: Bits)
    requires UnderPath(m, path) && !AtMostOneKey(m)
    ensures |path| < MAX_BIT_LENGTH
    ensures UnderPath(Side(m, |path|, false), path + [false])
    ensures UnderPath(Side(m, |path|, true), path + [true])
  {
    var k1, k2 :| k1 in m && k2 in m && k1 != k2;
    if |path| == MAX_BIT_LENGTH { FullPathHasOneKey(path, k1, k2); }
    forall k | k in Side(m, |path|, false) ensures path + [false] <= k { PrefixOfExtension(path, false, k); }
    forall k | k in Side(m, |path|, true) ensures path + [true] <= k { PrefixOfExtension(path, true, k); }
  }

  /** The root hash of a map: nothing but the map and the hash function matter. */
  ghost function RootHash(h: Hasher, m: KeyValues): Option<Hash256> {
    HashOf(h, Build(m, []))
  }

  lemma HashOfCanonical(h: Hasher, t: Tree)
    requires Canonical(t, [])
    ensures HashOf(h, t) == RootHash(h, Contents(t))
    ensures t.Empty? <==> Contents(t) == map[]
  {
    CanonicalIsUnique(t, Build(Contents(t), []), []);
    HashIgnoresVersions(h, t);
    HashIgnoresVersions(h, Build(Contents(t), []));
    if !t.Empty? {
      var k := NonEmptyHasKey(t, []);
    }
  }

  // ---------------------------- nodes in storage -----------------------------

  function ChildOf(h: Hasher, t: Tree): Option<Child> {
    if t.Empty? then None else Some(Child(t.version, HashOf(h, t).value))
  }

  function NodeOf(h: Hasher, t: Tree): Node
    requires !t.Empty?
  {
    match t
    case Tip(_, key, value) => Leaf(key, value)
    case Fork(_, left, right) => Internal(ChildOf(h, left), ChildOf(h, right))
  }

  /** The storage keys of all nodes of the tree at `path`. */
  ghost function Reach(t: Tree, path: Bits): set<NodeKey>
    decreases t, 1
  {
    if t.Empty? then {} else {NodeKey(t.version, path)} + ReachBelow(t, path)
  }

  /** The same without the tree's own root. */
  ghost function ReachBelow(t: Tree, path: Bits): set<NodeKey>
    decreases t, 0
  {
    if t.Fork? then Reach(t.left, path + [false]) + Reach(t.right, path + [true]) else {}
  }

  /** The nodes of the tree at `path`, as they are stored. */
  ghost function Flatten(h: Hasher, t: Tree, path: Bits): (nodes: map<NodeKey, Node>)
    ensures nodes.Keys == Reach(t, path)
    decreases t, 1
  {
    if t.Empty? then map[] else Below(h, t, path)[NodeKey(t.version, path) := NodeOf(h, t)]
  }

  ghost function Below(h: Hasher, t: Tree, path: Bits): (nodes: map<NodeKey, Node>)
    ensures nodes.Keys == ReachBelow(t, path)
    decreases t, 0
  {
    if t.Fork? then Flatten(h, t.left, path + [false]) + Flatten(h, t.right, path + [true]) else map[]
  }

  ghost predicate Stored(h: Hasher, nodes: map<NodeKey, Node>, t: Tree, path: Bits) {
    forall k :: k in Flatten(h, t, path) ==> k in nodes && nodes[k] == Flatten(h, t, path)[k]
  }

  /** Every node of the tree is older than `version`. */
  predicate Before(t: Tree, version: nat) {
    match t
    case Empty => true
    case Tip(v, _, _) => v < version
    case Fork(v, left, right) => v < version && Before(left, version) && Before(right, version)
  }

  lemma {:induction false} ReachIsUnderPath(t: Tree, path: Bits)
    ensures forall k :: k in Reach(t, path) ==> path <= k.bits
    ensures forall k :: k in ReachBelow(t, path) ==> path < k.bits
  {
    if !t.Fork? {
    } else {
      ReachIsUnderPath(t.left, path + [false]);
      ReachIsUnderPath(t.right, path + [true]);
      forall k | k in ReachBelow(t, path) ensures path < k.bits {
        if k in Reach(t.left, path + [false]) {
          assert path < path + [false] <= k.bits;
        } else {
          assert path < path + [true] <= k.bits;
        }
      }
    }
  }

  /** The two subtrees of a fork have no storage key in common. */
  lemma SiblingsAreApart(left: Tree, right: Tree, path: Bits)
    ensures Reach(left, path + [false]) !! Reach(right, path + [true])
  {
    ReachIsUnderPath(left, path + [false]);
    ReachIsUnderPath(right, path + [true]);
    forall k | k in Reach(left, path + [false]) ensures |path| < |k.bits| && !k.bits[|path|] {
      assert k.bits[|path|] == (path + [false])[|path|];
    }
    forall k | k in Reach(right, path + [true]) ensures |path| < |k.bits| && k.bits[|path|] {
      assert k.bits[|path|] == (path + [true])[|path|];
    }
  }

  lemma {:induction false} ReachIsBefore(t: Tree, path: Bits, version: nat)
    requires Before(t, version)
    ensures forall k :: k in Reach(t, path) ==> k.version < version
  {
    if !t.Fork? {
    } else {
      ReachIsBefore(t.left, path + [false], version);
      ReachIsBefore(t.right, path + [true], version);
    }
  }

  lemma {:induction false} BeforeIsMonotone(t: Tree, v1: nat, v2: nat)
    requires Before(t, v1) && v1 <= v2
    ensures Before(t, v2)
  {
    if !t.Fork? {
    } else {
      BeforeIsMonotone(t.left, v1, v2);
      BeforeIsMonotone(t.right, v1, v2);
    }
  }
}
