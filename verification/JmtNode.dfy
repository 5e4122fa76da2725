/** Nodes of the Jellyfish Merkle tree and how they are hashed
    (grug/jellyfish-merkle/src/node.rs).

    A 256-bit string is a sequence of 256 booleans, most significant bit first;
    `false` is the bit 0, which leads to the left child. */
module JmtNode {
  import opened Wrappers

  const MAX_BIT_LENGTH: nat := 256

  type Bits = seq<bool>

  function Zeros(n: nat): (bits: Bits)
    ensures |bits| == n
    ensures forall i :: 0 <= i < n ==> !bits[i]
  {
    if n == 0 then [] else Zeros(n - 1) + [false]
  }

  type Hash256 = h: Bits | |h| == MAX_BIT_LENGTH witness Zeros(MAX_BIT_LENGTH)

  const ZERO: Hash256 := Zeros(MAX_BIT_LENGTH)

  /** What is fed to the hash function. The program writes a prefix byte, 0 for an
      internal node and 1 for a leaf, and then exactly two 32-byte strings; the
      constructor stands for the prefix byte. */
  datatype Preimage =
    | InternalPreimage(left: Hash256, right: Hash256)
    | LeafPreimage(key: Hash256, value: Hash256)

  /** The hash function. Nothing is assumed about it here. */
  type Hasher = Preimage -> Hash256

  datatype Child = Child(version: nat, hash: Hash256)

  datatype Node =
    | Internal(leftChild: Option<Child>, rightChild: Option<Child>)
    | Leaf(key: Hash256, value: Hash256)

  /** A node's storage key. */
  datatype NodeKey = NodeKey(version: nat, bits: Bits)

  function OrZero(hash: Option<Hash256>): Hash256 {
    if hash.Some? then hash.value else ZERO
  }

  function HashInternalNode(h: Hasher, left: Option<Hash256>, right: Option<Hash256>): Hash256 {
    h(InternalPreimage(OrZero(left), OrZero(right)))
  }

  function HashLeafNode(h: Hasher, key: Hash256, value: Hash256): Hash256 {
    h(LeafPreimage(key, value))
  }

  function HashOfChild(child: Option<Child>): Option<Hash256> {
    if child.Some? then Some(child.value.hash) else None
  }

  function NodeHash(h: Hasher, node: Node): Hash256 {
    match node
    case Internal(left, right) => HashInternalNode(h, HashOfChild(left), HashOfChild(right))
    case Leaf(key, value) => HashLeafNode(h, key, value)
  }
}
