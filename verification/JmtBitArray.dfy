/** Bit arrays of at most 256 bits packed into 32 bytes, and the iterator over
    their bits (grug/jellyfish-merkle/src/bitarray.rs). */
module JmtBitArray {
  import opened Sequences
  import opened Wrappers
  import opened JmtNode
  import opened JmtBatch

  const MAX_BYTE_LENGTH: nat := 32

  // ------------------------------ bits of a byte -------------------------------

  /** 7 - r, as the byte by which the program shifts. */
  function ShiftFor(r: nat): (shift: bv8)
    requires r < 8
    ensures shift < 8
  {
    if r == 0 then 7 else if r == 1 then 6 else if r == 2 then 5 else if r == 3 then 4
    else if r == 4 then 3 else if r == 5 then 2 else if r == 6 then 1 else 0
  }

  function TestBit(byte: bv8, shift: bv8): bool
    requires shift < 8
  {
    (byte >> shift) & 1 == 1
  }

  function WriteBit(byte: bv8, shift: bv8, bit: bool): bv8
    requires shift < 8
  {
    if bit then byte | (1 << shift) else byte & !(1 << shift)
  }

  lemma WriteBitIsLocal(byte: bv8, shift: bv8, other: bv8, bit: bool)
    requires shift < 8 && other < 8
    ensures TestBit(WriteBit(byte, shift, bit), other) == if other == shift then bit else TestBit(byte, other)
  {
  }

  function ByteBit(byte: bv8, r: nat): bool
    requires r < 8
  {
    TestBit(byte, ShiftFor(r))
  }

  function SetByteBit(byte: bv8, r: nat, bit: bool): bv8
    requires r < 8
  {
    WriteBit(byte, ShiftFor(r), bit)
  }

  lemma SetByteBitIsLocal(byte: bv8, r: nat, s: nat, bit: bool)
    requires r < 8 && s < 8
    ensures ByteBit(SetByteBit(byte, r, bit), s) == if s == r then bit else ByteBit(byte, s)
  {
    WriteBitIsLocal(byte, ShiftFor(r), ShiftFor(s), bit);
  }

  lemma ZeroByteHasNoBits(r: nat)
    requires r < 8
    ensures !ByteBit(0, r)
  {
  }

  // ----------------------------- bits of the bytes -----------------------------

  function BitAt(bytes: seq<bv8>, i: nat): bool
    requires i < 8 * |bytes|
  {
    ByteBit(bytes[i / 8], i % 8)
  }

  /** The bits with index from `lo` up to, but not including, `hi`. */
  function Slice(bytes: seq<bv8>, lo: nat, hi: nat): (bits: Bits)
    requires lo <= hi <= 8 * |bytes|
    ensures |bits| == hi - lo
    decreases hi - lo
  {
    if lo == hi then [] else Slice(bytes, lo, hi - 1) + [BitAt(bytes, hi - 1)]
  }

  lemma {:induction false} SliceAt(bytes: seq<bv8>, lo: nat, hi: nat, i: nat)
    requires lo <= hi <= 8 * |bytes| && i < hi - lo
    ensures Slice(bytes, lo, hi)[i] == BitAt(bytes, lo + i)
    decreases hi - lo
  {
    if i >= hi - 1 - lo {
    } else {
      SliceAt(bytes, lo, hi - 1, i);
    }
  }

  ghost predicate Agree(a: seq<bv8>, aLo: nat, b: seq<bv8>, bLo: nat, i: nat) {
    aLo + i < 8 * |a| && bLo + i < 8 * |b| && BitAt(a, aLo + i) == BitAt(b, bLo + i)
  }

  lemma SameAt(a: seq<bv8>, aLo: nat, b: seq<bv8>, bLo: nat, n: nat, i: nat)
    requires aLo + n <= 8 * |a| && bLo + n <= 8 * |b| && i < n
    requires Agree(a, aLo, b, bLo, i)
    ensures Slice(a, aLo, aLo + n)[i] == Slice(b, bLo, bLo + n)[i]
  {
    SliceAt(a, aLo, aLo + n, i);
    SliceAt(b, bLo, bLo + n, i);
  }

  lemma SliceSame(a: seq<bv8>, aLo: nat, b: seq<bv8>, bLo: nat, n: nat)
    requires aLo + n <= 8 * |a| && bLo + n <= 8 * |b|
    requires forall i: nat {:trigger Agree(a, aLo, b, bLo, i)} :: i < n ==> Agree(a, aLo, b, bLo, i)
    ensures Slice(a, aLo, aLo + n) == Slice(b, bLo, bLo + n)
  {
    var x, y := Slice(a, aLo, aLo + n), Slice(b, bLo, bLo + n);
    forall i | 0 <= i < n ensures x[i] == y[i] {
      SameAt(a, aLo, b, bLo, n, i);
    }
  }

  lemma {:induction false} SliceConcat(bytes: seq<bv8>, lo: nat, mid: nat, hi: nat)
    requires lo <= mid <= hi <= 8 * |bytes|
    ensures Slice(bytes, lo, hi) == Slice(bytes, lo, mid) + Slice(bytes, mid, hi)
    decreases hi - mid
  {
    if mid >= hi {
    } else {
      SliceConcat(bytes, lo, mid, hi - 1);
    }
  }

  lemma SliceOfSlice(bytes: seq<bv8>, lo: nat, hi: nat, n: nat)
    requires lo <= hi <= n <= 8 * |bytes|
    ensures Slice(bytes, 0, n)[lo..hi] == Slice(bytes, lo, hi)
  {
    SliceConcat(bytes, 0, hi, n);
    SliceConcat(bytes, 0, lo, hi);
  }

  /** Bits beyond the length of the array are never set, so that equal bit
      sequences have equal representations. */
  ghost predicate UnusedBitsAreZero(bytes: seq<bv8>, numBits: nat) {
    forall i: nat :: numBits <= i < 8 * |bytes| ==> !BitAt(bytes, i)
  }

  lemma EightBitsDetermineByte(a: bv8, b: bv8)
    requires TestBit(a, 7) == TestBit(b, 7) && TestBit(a, 6) == TestBit(b, 6)
    requires TestBit(a, 5) == TestBit(b, 5) && TestBit(a, 4) == TestBit(b, 4)
    requires TestBit(a, 3) == TestBit(b, 3) && TestBit(a, 2) == TestBit(b, 2)
    requires TestBit(a, 1) == TestBit(b, 1) && TestBit(a, 0) == TestBit(b, 0)
    ensures a == b
  {
  }

  /** The storage key of a node determines its path and the other way round: with
      unused bits zero, bytes and length are a function of the bits. */
  lemma RepresentationIsUnique(a: seq<bv8>, b: seq<bv8>, numBits: nat)
    requires |a| == |b| && numBits <= 8 * |a|
    requires UnusedBitsAreZero(a, numBits) && UnusedBitsAreZero(b, numBits)
    requires Slice(a, 0, numBits) == Slice(b, 0, numBits)
    ensures a == b
  {
    forall i: nat | i < 8 * |a| ensures BitAt(a, i) == BitAt(b, i) {
      BitIsDetermined(a, b, numBits, i);
    }
    forall q: nat | q < |a| ensures a[q] == b[q] {
      SameBitsSameByte(a, b, q);
    }
  }

  lemma BitIsDetermined(a: seq<bv8>, b: seq<bv8>, numBits: nat, i: nat)
    requires |a| == |b| && numBits <= 8 * |a| && i < 8 * |a|
    requires UnusedBitsAreZero(a, numBits) && UnusedBitsAreZero(b, numBits)
    requires Slice(a, 0, numBits) == Slice(b, 0, numBits)
    ensures BitAt(a, i) == BitAt(b, i)
  {
    if i < numBits {
      SliceAt(a, 0, numBits, i);
      SliceAt(b, 0, numBits, i);
      assert BitAt(a, i) == Slice(a, 0, numBits)[i] == BitAt(b, i);
    } else {
      assert !BitAt(a, i) && !BitAt(b, i);
    }
  }

  lemma SameBitsSameByte(a: seq<bv8>, b: seq<bv8>, q: nat)
    requires q < |a| == |b|
    requires forall i: nat :: i < 8 * |a| ==> BitAt(a, i) == BitAt(b, i)
    ensures a[q] == b[q]
  {
    SameBit(a, b, q, 0);
    SameBit(a, b, q, 1);
    SameBit(a, b, q, 2);
    SameBit(a, b, q, 3);
    SameBit(a, b, q, 4);
    SameBit(a, b, q, 5);
    SameBit(a, b, q, 6);
    SameBit(a, b, q, 7);
    EightBitsDetermineByte(a[q], b[q]);
  }

  lemma SameBit(a: seq<bv8>, b: seq<bv8>, q: nat, r: nat)
    requires q < |a| == |b| && r < 8
    requires forall i: nat :: i < 8 * |a| ==> BitAt(a, i) == BitAt(b, i)
    ensures TestBit(a[q], ShiftFor(r)) == TestBit(b[q], ShiftFor(r))
  {
    var i := 8 * q + r;
    assert i / 8 == q && i % 8 == r;
    assert BitAt(a, i) == BitAt(b, i);
  }

  lemma BitAfterPush(before: seq<bv8>, after: seq<bv8>, numBits: nat, bit: bool, i: nat)
    requires numBits < 8 * |before| && i < 8 * |before| && UnusedBitsAreZero(before, numBits)
    requires after == before[numBits / 8 := SetByteBit(before[numBits / 8], numBits % 8, bit)]
    ensures BitAt(after, i) == if i == numBits then bit else BitAt(before, i)
  {
    SetByteBitIsLocal(before[numBits / 8], numBits % 8, i % 8, bit);
  }

  /** Setting the first unused bit appends it to the sequence. */
  lemma PushedBits(before: seq<bv8>, after: seq<bv8>, numBits: nat, bit: bool)
    requires numBits < 8 * |before| && UnusedBitsAreZero(before, numBits)
    requires after == before[numBits / 8 := SetByteBit(before[numBits / 8], numBits % 8, bit)]
    ensures UnusedBitsAreZero(after, numBits + 1)
    ensures Slice(after, 0, numBits + 1) == Slice(before, 0, numBits) + [bit]
  {
    forall i: nat | i < 8 * |before|
      ensures BitAt(after, i) == if i == numBits then bit else BitAt(before, i)
    {
      BitAfterPush(before, after, numBits, bit, i);
    }
    forall i: nat | i < numBits ensures Agree(after, 0, before, 0, i) {
      assert BitAt(after, i) == BitAt(before, i);
    }
    SliceSame(after, 0, before, 0, numBits);
  }

  // ------------------------------- the bit array -------------------------------

  class BitArray {
    var numBits: nat
    const bytes: array<bv8>

    ghost predicate Valid()
      reads this, bytes
    {
      && bytes.Length == MAX_BYTE_LENGTH && numBits <= MAX_BIT_LENGTH
      && UnusedBitsAreZero(bytes[..], numBits)
    }

    ghost function Contents(): Bits
      reads this, bytes
      requires Valid()
    {
      Slice(bytes[..], 0, numBits)
    }

    constructor Empty()
      ensures Valid() && fresh(bytes) && Contents() == []
    {
      bytes := new bv8[MAX_BYTE_LENGTH](_ => 0);
      numBits := 0;
      new;
      forall i: nat | i < 8 * MAX_BYTE_LENGTH ensures !BitAt(bytes[..], i) { ZeroByteHasNoBits(i % 8); }
    }

    method BitAtIndex(index: nat) returns (bit: bool)
      requires Valid() && index < numBits
      ensures bit == Contents()[index]
    {
      bit := ByteBit(bytes[index / 8], index % 8);
      SliceAt(bytes[..], 0, numBits, index);
    }

    method Push(bit: bool)
      requires Valid() && numBits < MAX_BIT_LENGTH
      modifies this, bytes
      ensures Valid()
      ensures Contents() == old(Contents()) + [bit]
    {
      var quotient, remainder := numBits / 8, numBits % 8;
      bytes[quotient] := SetByteBit(bytes[quotient], remainder, bit);
      assert bytes[..] == old(bytes[..])[quotient := SetByteBit(old(bytes[..])[quotient], remainder, bit)];
      PushedBits(old(bytes[..]), bytes[..], numBits, bit);
      numBits := numBits + 1;
    }

    /** The bits of the child's path: a copy with one more bit, 0 for the left child. */
    method ExtendOneBit(isLeft: bool) returns (child: BitArray)
      requires Valid() && numBits < MAX_BIT_LENGTH
      ensures child.Valid() && fresh(child) && fresh(child.bytes)
      ensures child.Contents() == Contents() + [!isLeft]
    {
      child := new BitArray.Copy(this);
      child.Push(!isLeft);
    }

    /** The bits from `min` to `max`, in either direction. */
    method Range(min: nat, max: nat, ascending: bool) returns (bits: BitIterator)
      requires Valid() && (min < max ==> max <= MAX_BIT_LENGTH)
      ensures fresh(bits) && bits.Valid()
      ensures min >= max ==> bits.Pending() == []
      ensures min < max <= numBits ==>
        bits.Pending() == if ascending then Contents()[min..max] else Reverse(Contents()[min..max])
    {
      bits := new BitIterator(bytes[..], min, max, ascending);
      if min < max <= numBits {
        SliceOfSlice(bytes[..], min, max, numBits);
      }
    }

    constructor Copy(other: BitArray)
      requires other.Valid()
      ensures Valid() && fresh(bytes) && Contents() == other.Contents() && numBits == other.numBits
    {
      bytes := new bv8[MAX_BYTE_LENGTH](
        i requires 0 <= i < MAX_BYTE_LENGTH && other.Valid() reads other, other.bytes => other.bytes[i]);
      numBits := other.numBits;
      new;
      assert bytes[..] == other.bytes[..];
    }

    constructor FromBytes(slice: seq<bv8>)
      requires |slice| <= MAX_BYTE_LENGTH
      ensures Valid() && fresh(bytes) && Contents() == Slice(slice, 0, 8 * |slice|)
    {
      bytes := new bv8[MAX_BYTE_LENGTH](i => if 0 <= i < |slice| then slice[i] else 0);
      numBits := 8 * |slice|;
      new;
      forall i: nat | numBits <= i < 8 * MAX_BYTE_LENGTH ensures !BitAt(bytes[..], i) { ZeroByteHasNoBits(i % 8); }
      forall i: nat | i < numBits ensures Agree(bytes[..], 0, slice, 0, i) {}
      SliceSame(bytes[..], 0, slice, 0, numBits);
    }

    constructor FromBits(bits: Bits)
      requires |bits| <= MAX_BIT_LENGTH
      ensures Valid() && fresh(bytes) && Contents() == bits
    {
      bytes := new bv8[MAX_BYTE_LENGTH](_ => 0);
      numBits := |bits|;
      new;
      var i := 0;
      while 8 * i < |bits|
        invariant i <= MAX_BYTE_LENGTH && numBits == |bits|
        invariant forall k: nat :: k < 8 * i ==> BitAt(bytes[..], k) == (k < |bits| && bits[k])
        invariant forall q :: i <= q < MAX_BYTE_LENGTH ==> bytes[q] == 0
      {
        var byte := ByteFromChunk(bits[8 * i..]);
        bytes[i] := byte;
        forall k: nat | k < 8 * (i + 1) ensures BitAt(bytes[..], k) == (k < |bits| && bits[k]) {
          assert k / 8 == i ==> k == 8 * i + k % 8;
        }
        i := i + 1;
      }
      forall k: nat | k < 8 * MAX_BYTE_LENGTH ensures BitAt(bytes[..], k) == (k < |bits| && bits[k]) {
        ZeroByteHasNoBits(k % 8);
      }
      forall k: nat | k < |bits| ensures Contents()[k] == bits[k] { SliceAt(bytes[..], 0, numBits, k); }
    }
  }

  /** The byte with the first eight of these bits; missing ones are zero. */
  method ByteFromChunk(chunk: Bits) returns (byte: bv8)
    ensures forall r: nat :: r < 8 ==> ByteBit(byte, r) == (r < |chunk| && chunk[r])
  {
    byte := 0;
    forall r: nat | r < 8 ensures !ByteBit(byte, r) { ZeroByteHasNoBits(r); }
    var j := 0;
    while j < 8 && j < |chunk|
      invariant j <= 8 && j <= |chunk|
      invariant forall r: nat :: r < 8 ==> ByteBit(byte, r) == (r < j && chunk[r])
    {
      if chunk[j] {
        forall r: nat | r < 8 ensures ByteBit(SetByteBit(byte, j, true), r) == (r <= j && chunk[r]) {
          SetByteBitIsLocal(byte, j, r, true);
        }
        byte := SetByteBit(byte, j, true);
      }
      j := j + 1;
    }
  }

  // -------------------------------- the iterator -------------------------------

  /** A bit position: the byte, and the bit within the byte. */
  type Position = p: (nat, nat) | p.1 < 8 witness (0, 0)

  function IndexOf(p: Position): nat {
    8 * p.0 + p.1
  }

  function PositionOf(i: nat): Position {
    (i / 8, i % 8)
  }

  lemma PositionRoundTrip(i: nat)
    ensures IndexOf(PositionOf(i)) == i
  {
  }

  predicate PositionLess(a: Position, b: Position) {
    a.0 < b.0 || (a.0 == b.0 && a.1 < b.1)
  }

  /** Positions are ordered like the indices they stand for. */
  lemma PositionsAreOrdered(a: Position, b: Position)
    ensures PositionLess(a, b) <==> IndexOf(a) < IndexOf(b)
  {
  }

  /** The bits from `lo` to `hi`, in either direction; none if the range is empty. */
  function Up(bytes: seq<bv8>, lo: nat, hi: nat): Bits
    requires lo < hi ==> hi <= 8 * |bytes|
  {
    if lo < hi then Slice(bytes, lo, hi) else []
  }

  function Down(bytes: seq<bv8>, lo: nat, hi: nat): Bits
    requires lo < hi ==> hi <= 8 * |bytes|
  {
    if lo < hi then Reverse(Slice(bytes, lo, hi)) else []
  }

  lemma UpStep(bytes: seq<bv8>, lo: nat, hi: nat)
    requires lo < hi <= 8 * |bytes|
    ensures var bits := Up(bytes, lo, hi);
            bits != [] && bits[0] == BitAt(bytes, lo) && bits[1..] == Up(bytes, lo + 1, hi)
  {
    SliceConcat(bytes, lo, lo + 1, hi);
    assert Slice(bytes, lo, lo + 1) == [] + [BitAt(bytes, lo)];
  }

  lemma DownStep(bytes: seq<bv8>, lo: nat, hi: nat)
    requires lo < hi <= 8 * |bytes|
    ensures var bits := Down(bytes, lo, hi);
            bits != [] && bits[0] == BitAt(bytes, hi - 1) && bits[1..] == Down(bytes, lo, hi - 1)
  {
    ReverseAppend(Slice(bytes, lo, hi - 1), BitAt(bytes, hi - 1));
  }

  lemma BitAtPosition(bytes: seq<bv8>, p: Position)
    requires IndexOf(p) < 8 * |bytes|
    ensures p.0 < |bytes| && BitAt(bytes, IndexOf(p)) == ByteBit(bytes[p.0], p.1)
  {
  }

  class BitIterator {
    const bytes: seq<bv8>
    var current: Option<Position>  // None until the first bit is asked for
    const min: Position
    const max: Position
    const ascending: bool

    ghost predicate Valid()
      reads this
    {
      && (IndexOf(min) < IndexOf(max) ==> IndexOf(max) <= 8 * |bytes|)
      && (current.Some? ==>
            if ascending then IndexOf(min) <= IndexOf(current.value) else IndexOf(current.value) <= IndexOf(max))
    }

    /** The next bit's index going up; one past it going down. */
    ghost function Cursor(): nat
      reads this
    {
      if current.None? then IndexOf(if ascending then min else max)
      else if ascending then IndexOf(current.value) + 1 else IndexOf(current.value)
    }

    /** The bits still to come. */
    ghost function Pending(): Bits
      reads this
      requires Valid()
    {
      if ascending then Up(bytes, Cursor(), IndexOf(max)) else Down(bytes, IndexOf(min), Cursor())
    }

    /** The bits in the given range, from either end; none if it is empty. */
    constructor (bytes: seq<bv8>, min: nat, max: nat, ascending: bool)
      requires min < max ==> max <= 8 * |bytes|
      ensures Valid() && this.ascending == ascending
      ensures Pending() == if min >= max then []
                           else if ascending then Slice(bytes, min, max) else Reverse(Slice(bytes, min, max))
    {
      this.bytes, this.current := bytes, None;
      this.min, this.max := PositionOf(min), PositionOf(max);
      this.ascending := ascending;
      new;
      PositionRoundTrip(min);
      PositionRoundTrip(max);
    }

    method Next() returns (bit: Option<bool>)
      requires Valid()
      modifies this
      ensures Valid()
      ensures if old(Pending()) == [] then bit == None && Pending() == []
              else bit == Some(old(Pending())[0]) && Pending() == old(Pending())[1..]
    {
      var position := Advance();
      if position.None? {
        return None;
      }
      BitAtPosition(bytes, position.value);
      bit := Some(ByteBit(bytes[position.value.0], position.value.1));
    }

    /** The position of the next bit, if any is left. */
    method Advance() returns (position: Option<Position>)
      requires Valid()
      modifies this
      ensures Valid()
      ensures if old(Pending()) == [] then position == None && Pending() == []
              else && position.Some? && IndexOf(position.value) < 8 * |bytes|
                   && BitAt(bytes, IndexOf(position.value)) == old(Pending())[0] && Pending() == old(Pending())[1..]
    {
      if ascending {
        position := AdvanceUp();
      } else {
        position := AdvanceDown();
      }
    }

    method AdvanceUp() returns (position: Option<Position>)
      requires Valid() && ascending
      modifies this
      ensures Valid()
      ensures if old(Pending()) == [] then position == None && Pending() == []
              else && position.Some? && IndexOf(position.value) < 8 * |bytes|
                   && BitAt(bytes, IndexOf(position.value)) == old(Pending())[0] && Pending() == old(Pending())[1..]
    {
      if Cursor() < IndexOf(max) { UpStep(bytes, Cursor(), IndexOf(max)); }
      position := IncrementQuotientAndRemainder();
    }

    method AdvanceDown() returns (position: Option<Position>)
      requires Valid() && !ascending
      modifies this
      ensures Valid()
      ensures if old(Pending()) == [] then position == None && Pending() == []
              else && position.Some? && IndexOf(position.value) < 8 * |bytes|
                   && BitAt(bytes, IndexOf(position.value)) == old(Pending())[0] && Pending() == old(Pending())[1..]
    {
      if IndexOf(min) < Cursor() { DownStep(bytes, IndexOf(min), Cursor()); }
      position := DecrementQuotientAndRemainder();
    }

    method IncrementQuotientAndRemainder() returns (position: Option<Position>)
      requires Valid() && ascending
      modifies this
      ensures Valid()
      ensures if old(Cursor()) < IndexOf(max)
              then position.Some? && IndexOf(position.value) == old(Cursor()) && Cursor() == old(Cursor()) + 1
              else position == None && Cursor() >= IndexOf(max)
    {
      PositionsAreOrdered(min, max);
      if current.None? {
        if PositionLess(min, max) {
          current := Some(min);
          return current;
        }
        return None;
      }
      var (q, r) := current.value;
      current := Some(if r == 7 then (q + 1, 0) else (q, r + 1));
      PositionsAreOrdered(current.value, max);
      position := if PositionLess(current.value, max) then current else None;
    }

    method DecrementQuotientAndRemainder() returns (position: Option<Position>)
      requires Valid() && !ascending
      modifies this
      ensures Valid()
      ensures if IndexOf(min) < old(Cursor())
              then position.Some? && IndexOf(position.value) == Cursor() == old(Cursor()) - 1
              else position == None && Cursor() <= IndexOf(min)
    {
      if current.None? {
        current := Some(max);
      }
      var (q, r) := current.value;
      if r == 0 {
        if q == 0 {
          return None;
        }
        current := Some((q - 1, 7));
      } else {
        current := Some((q, r - 1));
      }
      PositionsAreOrdered(current.value, min);
      position := if !PositionLess(current.value, min) then current else None;
    }

    /** Asking until nothing comes any more yields exactly the pending bits. */
    method Drain() returns (bits: Bits)
      requires Valid()
      modifies this
      ensures Valid() && bits == old(Pending()) && Pending() == []
      decreases |Pending()|
    {
      var bit := Next();
      if bit.None? {
        bits := [];
      } else {
        bits := Drain();
        bits := [bit.value] + bits;
      }
    }
  }

  // -------------------------------- key bits -----------------------------------

  /** The 32 bytes of a key. */
  method BytesOf(key: Hash256) returns (bytes: seq<bv8>)
    ensures |bytes| == MAX_BYTE_LENGTH && Slice(bytes, 0, MAX_BIT_LENGTH) == key
  {
    var packed := new BitArray.FromBits(key);
    bytes := packed.bytes[..];
    SliceIsWhole(bytes, packed.numBits, key);
  }

  lemma SliceIsWhole(bytes: seq<bv8>, n: nat, key: Hash256)
    requires n <= 8 * |bytes| && Slice(bytes, 0, n) == key
    ensures Slice(bytes, 0, MAX_BIT_LENGTH) == key
  {
    assert |Slice(bytes, 0, n)| == n;
  }

  /** What the iterator over a key's bytes yields, from first to last, are the bits of the key. */
  method BitsOf(key: Hash256) returns (bits: Bits)
    ensures bits == key
  {
    var bytes := BytesOf(key);
    var packed := new BitArray.FromBytes(bytes);
    var iter := packed.Range(0, packed.numBits, true);
    assert key[0..MAX_BIT_LENGTH] == key;
    bits := iter.Drain();
  }

  // -------------------------------- key order ----------------------------------

  /** The order of key hashes as byte strings. */
  ghost predicate BytesLess(a: seq<bv8>, b: seq<bv8>) {
    |a| > 0 && |b| > 0 && if a[0] == b[0] then BytesLess(a[1..], b[1..]) else a[0] < b[0]
  }

  lemma {:induction false} CommonPrefix(p: Bits, a: Bits, b: Bits)
    ensures KeyLess(p + a, p + b) <==> KeyLess(a, b)
  {
    if |p| == 0 {
      assert p + a == a && p + b == b;
    } else {
      assert (p + a)[1..] == p[1..] + a && (p + b)[1..] == p[1..] + b;
      CommonPrefix(p[1..], a, b);
    }
  }

  lemma {:induction false} FirstDifference(a: Bits, b: Bits, d: nat)
    requires d < |a| && d < |b| && a[..d] == b[..d] && a[d] != b[d]
    ensures KeyLess(a, b) <==> b[d]
  {
    if d == 0 {
    } else {
      assert a[0] == a[..d][0] == b[..d][0] == b[0];
      assert a[1..][..d - 1] == a[..d][1..] && b[1..][..d - 1] == b[..d][1..];
      FirstDifference(a[1..], b[1..], d - 1);
    }
  }

  /** Different bytes are ordered by the highest bit in which they differ. */
  lemma HighestDifferingBit(a: bv8, b: bv8) returns (shift: bv8)
    requires a != b
    ensures shift < 8 && TestBit(a, shift) != TestBit(b, shift)
    ensures shift < 7 ==> TestBit(a, 7) == TestBit(b, 7)
    ensures shift < 6 ==> TestBit(a, 6) == TestBit(b, 6)
    ensures shift < 5 ==> TestBit(a, 5) == TestBit(b, 5)
    ensures shift < 4 ==> TestBit(a, 4) == TestBit(b, 4)
    ensures shift < 3 ==> TestBit(a, 3) == TestBit(b, 3)
    ensures shift < 2 ==> TestBit(a, 2) == TestBit(b, 2)
    ensures shift < 1 ==> TestBit(a, 1) == TestBit(b, 1)
    ensures a < b <==> TestBit(b, shift)
  {
    shift := if TestBit(a, 7) != TestBit(b, 7) then 7 else if TestBit(a, 6) != TestBit(b, 6) then 6
             else if TestBit(a, 5) != TestBit(b, 5) then 5 else if TestBit(a, 4) != TestBit(b, 4) then 4
             else if TestBit(a, 3) != TestBit(b, 3) then 3 else if TestBit(a, 2) != TestBit(b, 2) then 2
             else if TestBit(a, 1) != TestBit(b, 1) then 1 else 0;
  }

  /** The same bit, counted from the top. */
  lemma FirstDifferingBit(a: bv8, b: bv8) returns (r: nat)
    requires a != b
    ensures r < 8 && ByteBit(a, r) != ByteBit(b, r)
    ensures forall s: nat :: s < r ==> ByteBit(a, s) == ByteBit(b, s)
    ensures a < b <==> ByteBit(b, r)
  {
    var shift := HighestDifferingBit(a, b);
    r := if shift == 7 then 0 else if shift == 6 then 1 else if shift == 5 then 2 else if shift == 4 then 3
         else if shift == 3 then 4 else if shift == 2 then 5 else if shift == 1 then 6 else 7;
    assert ShiftFor(r) == shift;
  }

  lemma FirstBits(bytes: seq<bv8>, n: nat, i: nat)
    requires n <= 8 * |bytes| && i < 8 && i < n
    ensures Slice(bytes, 0, n)[i] == ByteBit(bytes[0], i)
  {
    SliceAt(bytes, 0, n, i);
    BitAtPosition(bytes, (0, i));
  }

  lemma FirstByteSlice(bytes: seq<bv8>)
    requires |bytes| > 0
    ensures Slice(bytes, 0, 8) == Slice(bytes[..1], 0, 8)
  {
    forall i: nat | i < 8 ensures Agree(bytes, 0, bytes[..1], 0, i) {}
    SliceSame(bytes, 0, bytes[..1], 0, 8);
  }

  lemma RestSlice(bytes: seq<bv8>)
    requires |bytes| > 0
    ensures Slice(bytes, 8, 8 * |bytes|) == Slice(bytes[1..], 0, 8 * |bytes[1..]|)
  {
    var n := 8 * |bytes[1..]|;
    forall i: nat | i < n ensures Agree(bytes, 8, bytes[1..], 0, i) {
      assert (8 + i) / 8 == 1 + i / 8 && (8 + i) % 8 == i % 8;
    }
    SliceSame(bytes, 8, bytes[1..], 0, n);
  }

  lemma SplitFirstByte(bytes: seq<bv8>)
    requires |bytes| > 0
    ensures Slice(bytes, 0, 8 * |bytes|) == Slice(bytes[..1], 0, 8) + Slice(bytes[1..], 0, 8 * |bytes[1..]|)
  {
    SliceConcat(bytes, 0, 8, 8 * |bytes|);
    FirstByteSlice(bytes);
    RestSlice(bytes);
  }

  /** Sorting key hashes as byte strings sorts them by their bits. */
  lemma {:induction false} ByteOrderIsBitOrder(a: seq<bv8>, b: seq<bv8>)
    requires |a| == |b|
    ensures BytesLess(a, b) <==> KeyLess(Slice(a, 0, 8 * |a|), Slice(b, 0, 8 * |b|))
  {
    if |a| == 0 {
    } else {
      SplitFirstByte(a);
      SplitFirstByte(b);
      var (x, y) := (Slice(a[..1], 0, 8), Slice(b[..1], 0, 8));
      if a[0] == b[0] {
        assert a[..1] == b[..1];
        ByteOrderIsBitOrder(a[1..], b[1..]);
        CommonPrefix(x, Slice(a[1..], 0, 8 * |a[1..]|), Slice(b[1..], 0, 8 * |b[1..]|));
      } else {
        FirstByteDecides(a, b);
      }
    }
  }

  lemma FirstByteDecides(a: seq<bv8>, b: seq<bv8>)
    requires 0 < |a| == |b| && a[0] != b[0]
    ensures KeyLess(Slice(a, 0, 8 * |a|), Slice(b, 0, 8 * |b|)) <==> a[0] < b[0]
  {
    var r := FirstDifferingBit(a[0], b[0]);
    var x, y := Slice(a, 0, 8 * |a|), Slice(b, 0, 8 * |b|);
    FirstBits(a, 8 * |a|, r);
    FirstBits(b, 8 * |b|, r);
    forall i: nat | i < r ensures x[i] == y[i] {
      FirstBits(a, 8 * |a|, i);
      FirstBits(b, 8 * |b|, i);
    }
    assert x[..r] == y[..r];
    FirstDifference(x, y, r);
  }
}
