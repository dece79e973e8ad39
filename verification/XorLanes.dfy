/** XOR of byte strings: the byte-wise meaning, and the 64-bit lanes that compute it. */
module XorLanes {
  import opened Bits
  import opened ByteTypes

  // ---------- Reference meaning ----------

  function ByteXor(a: Byte, b: Byte): Byte {
    Pow2Of8();
    BitXorBound(a, b, 8);
    BitXor(a, b)
  }

  /** XOR, byte by byte. */
  function Xor(a: Bytes, b: Bytes): (r: Bytes)
    requires |a| == |b|
    ensures |r| == |a|
    ensures forall i :: 0 <= i < |r| ==> r[i] == ByteXor(a[i], b[i])
  {
    seq(|a|, i requires 0 <= i < |a| => ByteXor(a[i], b[i]))
  }

  lemma XorTwice(a: Bytes, b: Bytes)
    requires |a| == |b|
    ensures Xor(Xor(a, b), b) == a
  {
    forall i | 0 <= i < |a|
      ensures Xor(Xor(a, b), b)[i] == a[i]
    {
      BitXorTwice(a[i], b[i]);
    }
  }

  lemma XorAppend(a: Bytes, a': Bytes, b: Bytes, b': Bytes)
    requires |a| == |a'| && |b| == |b'|
    ensures Xor(a + b, a' + b') == Xor(a, a') + Xor(b, b')
  {
  }

  // ---------- 64-bit lanes ----------

  const LANE_BYTES: nat := 8
  const BLOCK_BYTES: nat := 32

  type Lane = x: nat | x < 0x1_0000_0000_0000_0000

  /** The order in which memcpy maps the bytes of memory to the bytes of an integer. */
  datatype ByteOrder = LittleEndian | BigEndian

  function Reversed(b: Bytes): (r: Bytes)
    ensures |r| == |b|
    ensures forall i :: 0 <= i < |b| ==> r[i] == b[|b| - 1 - i]
  {
    seq(|b|, i requires 0 <= i < |b| => b[|b| - 1 - i])
  }

  /** The integer with these bytes, least significant first. */
  function FromBytes(b: Bytes): nat {
    if b == [] then 0 else b[0] + 256 * FromBytes(b[1..])
  }

  /** The `n` low bytes of an integer, least significant first. */
  function ToBytes(x: nat, n: nat): (b: Bytes)
    ensures |b| == n
  {
    if n == 0 then [] else [x % 256] + ToBytes(x / 256, n - 1)
  }

  lemma {:induction false} FromBytesBound(b: Bytes)
    ensures FromBytes(b) < Pow2(8 * |b|)
  {
    if b != [] {
      FromBytesBound(b[1..]);
      Pow2Of8();
      Pow2Add(8, 8 * |b[1..]|);
    }
  }

  lemma {:induction false} ToBytesFromBytes(b: Bytes)
    ensures ToBytes(FromBytes(b), |b|) == b
  {
    if b != [] {
      ToBytesFromBytes(b[1..]);
      assert FromBytes(b) % 256 == b[0] && FromBytes(b) / 256 == FromBytes(b[1..]);
    }
  }

  lemma {:induction false} XorOfIntegers(a: Bytes, b: Bytes)
    requires |a| == |b|
    ensures BitXor(FromBytes(a), FromBytes(b)) == FromBytes(Xor(a, b))
  {
    if a != [] {
      var x, y := FromBytes(a[1..]), FromBytes(b[1..]);
      XorOfIntegers(a[1..], b[1..]);
      assert Xor(a, b)[1..] == Xor(a[1..], b[1..]);
      XorOfDigits(a[0], x, b[0], y);
    }
  }

  lemma XorOfDigits(a: Byte, x: nat, b: Byte, y: nat)
    ensures BitXor(a + 256 * x, b + 256 * y) == ByteXor(a, b) + 256 * BitXor(x, y)
  {
    Pow2Of8();
    BitXorSplit(a, x, b, y, 8);
  }

  function Load(order: ByteOrder, b: Bytes): Lane
    requires |b| == LANE_BYTES
  {
    FromBytesBound(b);
    FromBytesBound(Reversed(b));
    Pow2Of64();
    match order
    case LittleEndian => FromBytes(b)
    case BigEndian => FromBytes(Reversed(b))
  }

  function Store(order: ByteOrder, x: Lane): (b: Bytes)
    ensures |b| == LANE_BYTES
  {
    match order
    case LittleEndian => ToBytes(x, LANE_BYTES)
    case BigEndian => Reversed(ToBytes(x, LANE_BYTES))
  }

  function LaneXor(x: Lane, y: Lane): Lane {
    Pow2Of64();
    BitXorBound(x, y, 64);
    BitXor(x, y)
  }

  /** One lane: XOR of the integers, stored back, is XOR of the bytes, in either byte order. */
  lemma LaneXorIsXor(order: ByteOrder, a: Bytes, b: Bytes)
    requires |a| == |b| == LANE_BYTES
    ensures Store(order, LaneXor(Load(order, a), Load(order, b))) == Xor(a, b)
  {
    match order
    case LittleEndian =>
      XorOfIntegers(a, b);
      ToBytesFromBytes(Xor(a, b));
    case BigEndian =>
      var a', b' := Reversed(a), Reversed(b);
      XorOfIntegers(a', b');
      ToBytesFromBytes(Xor(a', b'));
      assert Reversed(Xor(a', b')) == Xor(a, b);
  }

  /** The four-lane fast path on one 32-byte block. */
  method XorFourLanes(order: ByteOrder, a: Bytes, b: Bytes) returns (r: Bytes)
    requires |a| == |b| == BLOCK_BYTES
    ensures r == Xor(a, b)
  {
    var x := [Load(order, a[0..8]), Load(order, a[8..16]), Load(order, a[16..24]), Load(order, a[24..32])];
    var y := [Load(order, b[0..8]), Load(order, b[8..16]), Load(order, b[16..24]), Load(order, b[24..32])];
    x := x[0 := LaneXor(x[0], y[0])];
    x := x[1 := LaneXor(x[1], y[1])];
    x := x[2 := LaneXor(x[2], y[2])];
    x := x[3 := LaneXor(x[3], y[3])];
    LaneXorIsXor(order, a[0..8], b[0..8]);
    LaneXorIsXor(order, a[8..16], b[8..16]);
    LaneXorIsXor(order, a[16..24], b[16..24]);
    LaneXorIsXor(order, a[24..32], b[24..32]);
    r := Store(order, x[0]) + Store(order, x[1]) + Store(order, x[2]) + Store(order, x[3]);
  }
}
