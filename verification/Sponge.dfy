/**
 The sponge of FIPS 202: bytes of the state, padding at bit level, absorbing whole messages, and the output
 stream. The permutation appears here only by name.
 */
module Sponge {
  import opened Arithmetic
  import opened Fips202
  import opened Keccak

  type Bytes = seq<bv8>

  const STATE_BYTES: nat := 200

  function ZeroState(): State {
    seq(25, _ => 0)
  }

  // ---- Bytes of the state ----

  /** Byte `k` of a lane, the least significant first: `(lane >> (8 * k)) & 0xFF`. */
  function Pick(lane: Lane, k: nat): bv8
    requires k < 8
  {
    match k
    case 0 => (lane & 0xFF) as bv8
    case 1 => ((lane >> 8) & 0xFF) as bv8
    case 2 => ((lane >> 16) & 0xFF) as bv8
    case 3 => ((lane >> 24) & 0xFF) as bv8
    case 4 => ((lane >> 32) & 0xFF) as bv8
    case 5 => ((lane >> 40) & 0xFF) as bv8
    case 6 => ((lane >> 48) & 0xFF) as bv8
    case _ => ((lane >> 56) & 0xFF) as bv8
  }

  /** A byte moved to place `k` of a lane: `byte << (8 * k)`. */
  function Place(b: bv8, k: nat): Lane
    requires k < 8
  {
    var x := b as bv64;
    match k
    case 0 => x
    case 1 => x << 8
    case 2 => x << 16
    case 3 => x << 24
    case 4 => x << 32
    case 5 => x << 40
    case 6 => x << 48
    case _ => x << 56
  }

  function XorByte(a: bv8, b: bv8): bv8 {
    a ^ b
  }

  // One byte at a time, so that each is a single bit-vector question.

  lemma PickXor0(a: Lane, b: Lane)
    ensures Pick(Xor(a, b), 0) == XorByte(Pick(a, 0), Pick(b, 0))
  {
  }

  lemma PickXor1(a: Lane, b: Lane)
    ensures Pick(Xor(a, b), 1) == XorByte(Pick(a, 1), Pick(b, 1))
  {
  }

  lemma PickXor2(a: Lane, b: Lane)
    ensures Pick(Xor(a, b), 2) == XorByte(Pick(a, 2), Pick(b, 2))
  {
  }

  lemma PickXor3(a: Lane, b: Lane)
    ensures Pick(Xor(a, b), 3) == XorByte(Pick(a, 3), Pick(b, 3))
  {
  }

  lemma PickXor4(a: Lane, b: Lane)
    ensures Pick(Xor(a, b), 4) == XorByte(Pick(a, 4), Pick(b, 4))
  {
  }

  lemma PickXor5(a: Lane, b: Lane)
    ensures Pick(Xor(a, b), 5) == XorByte(Pick(a, 5), Pick(b, 5))
  {
  }

  lemma PickXor6(a: Lane, b: Lane)
    ensures Pick(Xor(a, b), 6) == XorByte(Pick(a, 6), Pick(b, 6))
  {
  }

  lemma PickXor7(a: Lane, b: Lane)
    ensures Pick(Xor(a, b), 7) == XorByte(Pick(a, 7), Pick(b, 7))
  {
  }

  /** Reading a byte of a sum of lanes. */
  lemma PickXor(a: Lane, b: Lane, k: nat)
    requires k < 8
    ensures Pick(Xor(a, b), k) == XorByte(Pick(a, k), Pick(b, k))
  {
    hide Xor, XorByte, Pick;
    match k
    case 0 => PickXor0(a, b);
    case 1 => PickXor1(a, b);
    case 2 => PickXor2(a, b);
    case 3 => PickXor3(a, b);
    case 4 => PickXor4(a, b);
    case 5 => PickXor5(a, b);
    case 6 => PickXor6(a, b);
    case _ => PickXor7(a, b);
  }

  lemma XorZero(b: bv8)
    ensures XorByte(b, 0) == b
  {
  }

  lemma PlacedAt01(b: bv8, k: nat, j: nat)
    requires k < 2 && j < 8
    ensures Pick(Place(b, k), j) == if j == k then b else 0
  {
  }

  lemma PlacedAt23(b: bv8, k: nat, j: nat)
    requires 2 <= k < 4 && j < 8
    ensures Pick(Place(b, k), j) == if j == k then b else 0
  {
  }

  lemma PlacedAt45(b: bv8, k: nat, j: nat)
    requires 4 <= k < 6 && j < 8
    ensures Pick(Place(b, k), j) == if j == k then b else 0
  {
  }

  lemma PlacedAt67(b: bv8, k: nat, j: nat)
    requires 6 <= k < 8 && j < 8
    ensures Pick(Place(b, k), j) == if j == k then b else 0
  {
  }

  lemma PlacedAt(b: bv8, k: nat, j: nat)
    requires k < 8 && j < 8
    ensures Pick(Place(b, k), j) == if j == k then b else 0
  {
    hide Pick, Place;
    if k < 2 {
      PlacedAt01(b, k, j);
    } else if k < 4 {
      PlacedAt23(b, k, j);
    } else if k < 6 {
      PlacedAt45(b, k, j);
    } else {
      PlacedAt67(b, k, j);
    }
  }

  /** Adding a placed byte to a lane changes that byte only. */
  lemma PickPlaced(lane: Lane, b: bv8, k: nat, j: nat)
    requires k < 8 && j < 8
    ensures Pick(Xor(lane, Place(b, k)), j) == if j == k then XorByte(Pick(lane, j), b) else Pick(lane, j)
  {
    hide Pick, Place, Xor, XorByte;
    PickXor(lane, Place(b, k), j);
    PlacedAt(b, k, j);
    XorZero(Pick(lane, j));
  }

  lemma LaneOfBytes(a: Lane, b: Lane)
    requires forall k | 0 <= k < 8 :: Pick(a, k) == Pick(b, k)
    ensures a == b
  {
    assert Pick(a, 0) == Pick(b, 0) && Pick(a, 1) == Pick(b, 1) && Pick(a, 2) == Pick(b, 2) && Pick(a, 3) == Pick(b, 3);
    assert Pick(a, 4) == Pick(b, 4) && Pick(a, 5) == Pick(b, 5) && Pick(a, 6) == Pick(b, 6) && Pick(a, 7) == Pick(b, 7);
  }

  /** Byte `i` of the state string. */
  function StateByte(s: State, i: nat): bv8
    requires i < STATE_BYTES
  {
    Pick(s[i / 8], i % 8)
  }

  /** A state is determined by its bytes. */
  lemma StateOfBytes(s: State, t: State)
    requires forall i: nat | i < STATE_BYTES :: StateByte(s, i) == StateByte(t, i)
    ensures s == t
  {
    forall l | 0 <= l < 25 ensures s[l] == t[l] {
      forall k | 0 <= k < 8 ensures Pick(s[l], k) == Pick(t[l], k) {
        assert StateByte(s, 8 * l + k) == StateByte(t, 8 * l + k);
        assert (8 * l + k) / 8 == l && (8 * l + k) % 8 == k;
      }
      LaneOfBytes(s[l], t[l]);
    }
  }

  /** `data` added to the first `n` bytes of the state, byte by byte. */
  function XorBytes(s: State, data: Bytes, n: nat): State
    requires n <= |data| <= STATE_BYTES
  {
    if n == 0 then s
    else
      var t := XorBytes(s, data, n - 1);
      t[(n - 1) / 8 := Xor(t[(n - 1) / 8], Place(data[n - 1], (n - 1) % 8))]
  }

  /** What that means for the state string: byte `i` gains `data[i]`, the rest stays. */
  lemma {:induction false} XorBytesMeaning(s: State, data: Bytes, n: nat, i: nat)
    requires n <= |data| <= STATE_BYTES && i < STATE_BYTES
    ensures StateByte(XorBytes(s, data, n), i)
            == if i < n then XorByte(StateByte(s, i), data[i]) else StateByte(s, i)
  {
    hide Pick, Place, Xor, XorByte;
    if n > 0 {
      XorBytesMeaning(s, data, n - 1, i);
      var t, m := XorBytes(s, data, n - 1), n - 1;
      if i / 8 == m / 8 {
        PickPlaced(t[m / 8], data[m], m % 8, i % 8);
        assert i % 8 == m % 8 <==> i == m;
      }
    }
  }

  /** One call of the sponge's inner step: add a rate block, then permute. */
  function AbsorbBlock(s: State, block: Bytes): State
    requires |block| <= STATE_BYTES
  {
    KeccakF(XorBytes(s, block, |block|))
  }

  // ---- Absorbing a message of any length ----

  /** Absorbs the whole rate blocks of `m`, leaving its tail. */
  function Absorb(s: State, m: Bytes, rate: nat): State
    requires 0 < rate <= STATE_BYTES
    decreases |m|
  {
    if |m| < rate then s else Absorb(AbsorbBlock(s, m[..rate]), m[rate..], rate)
  }

  /** What is left of `m` after its whole rate blocks. */
  function Tail(m: Bytes, rate: nat): (t: Bytes)
    requires 0 < rate
    ensures |t| < rate && |t| <= |m|
    decreases |m|
  {
    if |m| < rate then m else Tail(m[rate..], rate)
  }

  /** Absorbing more continues from the tail. */
  lemma {:induction false} AbsorbMore(s: State, m: Bytes, x: Bytes, rate: nat)
    requires 0 < rate <= STATE_BYTES
    ensures Absorb(s, m + x, rate) == Absorb(Absorb(s, m, rate), Tail(m, rate) + x, rate)
    ensures Tail(m + x, rate) == Tail(Tail(m, rate) + x, rate)
    decreases |m|
  {
    hide AbsorbBlock;
    if |m| >= rate {
      assert (m + x)[..rate] == m[..rate] && (m + x)[rate..] == m[rate..] + x;
      AbsorbMore(AbsorbBlock(s, m[..rate]), m[rate..], x, rate);
    }
  }

  lemma AbsorbOne(s: State, block: Bytes, rest: Bytes, rate: nat)
    requires 0 < rate <= STATE_BYTES && |block| == rate
    ensures Absorb(s, block + rest, rate) == Absorb(AbsorbBlock(s, block), rest, rate)
    ensures Tail(block + rest, rate) == Tail(rest, rate)
  {
    assert (block + rest)[..rate] == block && (block + rest)[rate..] == rest;
  }

  /** The tail's length is the message length modulo the rate. */
  lemma {:induction false} TailLength(m: Bytes, rate: nat)
    requires 0 < rate
    ensures |Tail(m, rate)| == |m| % rate
    decreases |m|
  {
    if |m| >= rate {
      TailLength(m[rate..], rate);
      ModMinus(|m|, rate);
    }
  }

  // ---- Padding ----

  /** A member of the family: its suffix bits, and the byte the code appends for them and the first pad bit. */
  datatype Suffix = Sha3Suffix | ShakeSuffix {
    function Bits(): seq<bool> {
      match this case Sha3Suffix => [false, true] case ShakeSuffix => [true, true, true, true]
    }

    function Code(): bv8 {
      match this case Sha3Suffix => 0x06 case ShakeSuffix => 0x1F
    }
  }

  function ByteBits(b: bv8): (r: seq<bool>)
    ensures |r| == 8
  {
    [b & 1 != 0, b & 2 != 0, b & 4 != 0, b & 8 != 0, b & 16 != 0, b & 32 != 0, b & 64 != 0, b & 128 != 0]
  }

  /** The bit string of a byte string, least significant bits first (FIPS 202, section B.1). */
  function BitsOf(m: Bytes): (r: seq<bool>)
    ensures |r| == 8 * |m|
  {
    if m == [] then [] else ByteBits(m[0]) + BitsOf(m[1..])
  }

  /** The padded message of sections 5.1, 6.1 and 6.2. */
  function PaddedBits(m: Bytes, f: Suffix, rate: nat): seq<bool>
    requires rate > 0
  {
    BitsOf(m) + f.Bits() + Pad101(8 * rate, 8 * |m| + |f.Bits()|)
  }

  function Zeros(n: nat): Bytes {
    seq(n, _ => 0)
  }

  /** The last block as the code builds it: the suffix byte after the tail, then 0x80 written to the last byte. */
  function CodeBlock(tail: Bytes, f: Suffix, rate: nat): (b: Bytes)
    requires |tail| < rate
    ensures |b| == rate
  {
    (tail + [f.Code()] + Zeros(rate - |tail| - 1))[rate - 1 := 0x80]
  }

  /** The message up to its tail. */
  function Whole(m: Bytes, rate: nat): Bytes
    requires rate > 0
  {
    m[..|m| - |Tail(m, rate)|]
  }

  function CodePadded(m: Bytes, f: Suffix, rate: nat): Bytes
    requires rate > 0
  {
    Whole(m, rate) + CodeBlock(Tail(m, rate), f, rate)
  }

  lemma {:induction false} WholeAndTail(m: Bytes, rate: nat)
    requires rate > 0
    ensures m == Whole(m, rate) + Tail(m, rate)
    decreases |m|
  {
    if |m| >= rate {
      WholeAndTail(m[rate..], rate);
      var t := Tail(m, rate);
      assert m[rate..][|m| - rate - |t|..] == t;
      assert m[|m| - |t|..] == t;
    }
  }

  lemma {:induction false} BitsConcat(a: Bytes, b: Bytes)
    ensures BitsOf(a + b) == BitsOf(a) + BitsOf(b)
  {
    hide ByteBits;
    if a == [] {
      assert a + b == b;
    } else {
      BitsConcat(a[1..], b);
      assert (a + b)[1..] == a[1..] + b && (a + b)[0] == a[0];
      assert BitsOf(a + b) == ByteBits(a[0]) + (BitsOf(a[1..]) + BitsOf(b));
    }
  }

  lemma {:induction false} BitsOfZeros(n: nat)
    ensures BitsOf(Zeros(n)) == Falses(8 * n)
  {
    if n > 0 {
      BitsOfZeros(n - 1);
      assert Zeros(n)[1..] == Zeros(n - 1);
      assert ByteBits(0) == Falses(8);
    }
  }

  lemma BitsOfByte(b: bv8)
    ensures BitsOf([b]) == ByteBits(b)
  {
    assert [b][1..] == [];
  }

  /** A byte with the last pad bit added. */
  function WithFinalBit(b: bv8): bv8 {
    b | 0x80
  }

  function SetLast(b: Bytes): Bytes
    requires b != []
  {
    b[|b| - 1 := WithFinalBit(b[|b| - 1])]
  }

  /** The last block that FIPS 202 asks for: where suffix byte and final bit share a byte, they are combined. */
  function FipsBlock(tail: Bytes, f: Suffix, rate: nat): (b: Bytes)
    requires |tail| < rate
    ensures |b| == rate
  {
    SetLast(tail + [f.Code()] + Zeros(rate - |tail| - 1))
  }

  function FipsPadded(m: Bytes, f: Suffix, rate: nat): Bytes
    requires rate > 0
  {
    Whole(m, rate) + FipsBlock(Tail(m, rate), f, rate)
  }

  lemma SuffixBits(f: Suffix)
    ensures var n := |f.Bits()|;
            2 <= n <= 4 && ByteBits(f.Code()) == f.Bits() + [true] + Falses(7 - n)
            && ByteBits(WithFinalBit(f.Code())) == f.Bits() + [true] + Falses(6 - n) + [true]
    ensures ByteBits(0x80) == Falses(7) + [true]
    ensures ByteBits(0x80) != ByteBits(WithFinalBit(f.Code())) && WithFinalBit(0) == 0x80
  {
  }

  lemma FalsesConcat(a: nat, b: nat)
    ensures Falses(a) + Falses(b) == Falses(a + b)
  {
  }

  lemma PadZerosIs(n: nat, rate: nat, bits: nat)
    requires rate > 0 && 2 <= bits <= 4
    ensures PadZeros(8 * rate, 8 * n + bits) == 8 * rate - 8 * (n % rate) - bits - 2
  {
    var q, t := n / rate, n % rate;
    calc {
      -(8 * n + bits) - 2;
      { assert n == q * rate + t; }
      -8 * (q * rate) - 8 * t - bits - 2;
      { assert 8 * (q * rate) == q * (8 * rate); assert (-q - 1) * (8 * rate) == -(q * (8 * rate)) - 8 * rate; }
      (-q - 1) * (8 * rate) + (8 * rate - 8 * t - bits - 2);
    }
    ModUnique(-(8 * n + bits) - 2, 8 * rate, -q - 1, 8 * rate - 8 * t - bits - 2);
  }

  lemma FipsBlockShape(tail: Bytes, f: Suffix, rate: nat)
    requires |tail| < rate
    ensures |tail| == rate - 1 ==> FipsBlock(tail, f, rate) == tail + [WithFinalBit(f.Code())]
    ensures |tail| < rate - 1 ==>
              FipsBlock(tail, f, rate) == tail + ([f.Code()] + (Zeros(rate - |tail| - 2) + [0x80]))
  {
    hide Suffix.Code, WithFinalBit;
    if |tail| < rate - 1 {
      LongBlock(tail, f.Code(), rate - |tail| - 2);
    }
  }

  lemma LongBlock(tail: Bytes, c: bv8, z: nat)
    ensures SetLast(tail + [c] + Zeros(z + 1)) == tail + ([c] + (Zeros(z) + [0x80]))
  {
    assert (tail + [c] + Zeros(z + 1))[|tail| + 1 + z] == 0;
  }

  lemma ShortBlockBits(tail: Bytes, f: Suffix, j: nat)
    requires j + |f.Bits()| == 6
    ensures BitsOf(tail + [WithFinalBit(f.Code())]) == BitsOf(tail) + f.Bits() + OnePad(j)
  {
    hide ByteBits, BitsOf, Suffix.Bits, Suffix.Code, Falses, WithFinalBit;
    SuffixBits(f);
    BitsConcat(tail, [WithFinalBit(f.Code())]);
    BitsOfByte(WithFinalBit(f.Code()));
    Regroup(BitsOf(tail), f.Bits(), Falses(6 - |f.Bits()|), [], []);
  }

  lemma LongBlockBits(tail: Bytes, f: Suffix, z: nat, j: nat)
    requires j + |f.Bits()| == 14 + 8 * z
    ensures BitsOf(tail + ([f.Code()] + (Zeros(z) + [0x80]))) == BitsOf(tail) + f.Bits() + OnePad(j)
  {
    hide ByteBits, BitsOf, Suffix.Bits, Suffix.Code, Falses, Zeros;
    SuffixBits(f);
    var n := |f.Bits()|;
    BitsConcat(tail, [f.Code()] + (Zeros(z) + [0x80]));
    BitsConcat([f.Code()], Zeros(z) + [0x80]);
    BitsConcat(Zeros(z), [0x80]);
    BitsOfZeros(z);
    BitsOfByte(f.Code());
    BitsOfByte(0x80);
    FalsesConcat(7 - n, 8 * z);
    FalsesConcat(7 - n + 8 * z, 7);
    Regroup(BitsOf(tail), f.Bits(), Falses(7 - n), Falses(8 * z), Falses(7));
  }

  lemma FullBlockBits(tail: Bytes, f: Suffix, rate: nat, j: nat)
    requires |tail| == rate - 1 && j + |f.Bits()| == 6
    ensures BitsOf(FipsBlock(tail, f, rate)) == BitsOf(tail) + f.Bits() + OnePad(j)
  {
    hide BitsOf, Suffix.Bits, Suffix.Code, OnePad, FipsBlock, WithFinalBit;
    FipsBlockShape(tail, f, rate);
    ShortBlockBits(tail, f, j);
  }

  lemma RoomyBlockBits(tail: Bytes, f: Suffix, rate: nat, z: nat, j: nat)
    requires |tail| + 2 + z == rate && j + |f.Bits()| == 14 + 8 * z
    ensures BitsOf(FipsBlock(tail, f, rate)) == BitsOf(tail) + f.Bits() + OnePad(j)
  {
    hide BitsOf, Suffix.Bits, Suffix.Code, OnePad, FipsBlock, Zeros;
    FipsBlockShape(tail, f, rate);
    LongBlockBits(tail, f, z, j);
  }

  /** The bits that the last block adds after the tail are the suffix and pad10*1. */
  lemma FipsBlockBits(tail: Bytes, f: Suffix, rate: nat)
    requires |tail| < rate
    ensures |f.Bits()| <= 4
    ensures BitsOf(FipsBlock(tail, f, rate))
            == BitsOf(tail) + f.Bits() + OnePad(8 * rate - 8 * |tail| - |f.Bits()| - 2)
  {
    hide BitsOf, Suffix.Bits, OnePad, FipsBlock;
    SuffixLength(f);
    var j := 8 * rate - 8 * |tail| - |f.Bits()| - 2;
    if |tail| == rate - 1 {
      FullBlockBits(tail, f, rate, j);
    } else {
      RoomyBlockBits(tail, f, rate, rate - |tail| - 2, j);
    }
  }

  lemma Regroup(t: seq<bool>, s: seq<bool>, a: seq<bool>, b: seq<bool>, c: seq<bool>)
    ensures t + ((s + [true] + a) + (b + (c + [true]))) == t + s + ([true] + (a + b + c) + [true])
    ensures t + (s + [true] + a + [true]) == t + s + ([true] + a + [true])
  {
  }

  lemma RegroupTwo(w: seq<bool>, t: seq<bool>, s: seq<bool>, p: seq<bool>)
    ensures w + (t + s + p) == w + t + s + p
  {
  }

  /** FipsPadded is the byte form of the bit string that FIPS 202 specifies. */
  lemma FipsPaddedIsStandard(m: Bytes, f: Suffix, rate: nat)
    requires rate > 0
    ensures BitsOf(FipsPadded(m, f, rate)) == PaddedBits(m, f, rate)
  {
    hide BitsOf, FipsBlock, Suffix.Bits, Whole, Tail, OnePad, PadZeros;
    var whole, tail := Whole(m, rate), Tail(m, rate);
    BitsConcat(whole, FipsBlock(tail, f, rate));
    FipsBlockBits(tail, f, rate);
    WholeAndTail(m, rate);
    BitsConcat(whole, tail);
    TailLength(m, rate);
    SuffixLength(f);
    PadZerosIs(|m|, rate, |f.Bits()|);
    RegroupTwo(BitsOf(whole), BitsOf(tail), f.Bits(), Pad101(8 * rate, 8 * |m| + |f.Bits()|));
  }

  lemma SuffixLength(f: Suffix)
    ensures 2 <= |f.Bits()| <= 4
  {
  }

  /**
   The code pads as FIPS 202 does exactly when the message does not end one byte short of a rate block; in
   that case the final 0x80 replaces the suffix byte instead of joining it.
   */
  lemma PaddingConformsIff(m: Bytes, f: Suffix, rate: nat)
    requires rate > 0
    ensures CodePadded(m, f, rate) == FipsPadded(m, f, rate) <==> |m| % rate != rate - 1
  {
    TailLength(m, rate);
    SuffixBits(f);
    var tail := Tail(m, rate);
    var b := tail + [f.Code()] + Zeros(rate - |tail| - 1);
    if |tail| == rate - 1 {
      assert CodePadded(m, f, rate)[|Whole(m, rate)| + rate - 1] == 0x80;
      assert FipsPadded(m, f, rate)[|Whole(m, rate)| + rate - 1] == WithFinalBit(f.Code());
    } else {
      assert b[rate - 1] == 0;
    }
  }

  // ---- Messages that the code pads alike ----

  /** The last block without its final byte. */
  function Body(tail: Bytes, f: Suffix, rate: nat): (b: Bytes)
    requires |tail| < rate
    ensures |b| == rate - 1
  {
    if |tail| == rate - 1 then tail else tail + [f.Code()] + Zeros(rate - 2 - |tail|)
  }

  lemma CodeBlockBody(tail: Bytes, f: Suffix, rate: nat)
    requires |tail| < rate
    ensures CodeBlock(tail, f, rate) == Body(tail, f, rate) + [0x80]
  {
    hide Suffix.Code;
  }

  /** After the tail comes the suffix byte, which is not zero, and then zeros. */
  lemma BodyAt(tail: Bytes, f: Suffix, rate: nat, i: nat)
    requires |tail| <= i < rate - 1
    ensures Body(tail, f, rate)[i] != 0 <==> i == |tail|
  {
  }

  lemma BodyShorter(t: Bytes, u: Bytes, f: Suffix, rate: nat)
    requires |t| < |u| < rate && Body(t, f, rate) == Body(u, f, rate)
    ensures u == Body(t, f, rate)
  {
    hide Suffix.Code;
    if |u| < rate - 1 {
      BodyAt(t, f, rate, |u|);
      BodyAt(u, f, rate, |u|);
      assert false;
    }
  }

  lemma BodyEqualIff(t: Bytes, u: Bytes, f: Suffix, rate: nat)
    requires |t| < rate && |u| < rate
    ensures Body(t, f, rate) == Body(u, f, rate)
            <==> t == u || (|t| < rate - 1 && u == Body(t, f, rate)) || (|u| < rate - 1 && t == Body(u, f, rate))
  {
    hide Suffix.Code;
    if Body(t, f, rate) == Body(u, f, rate) {
      if |t| < |u| {
        BodyShorter(t, u, f, rate);
      } else if |u| < |t| {
        BodyShorter(u, t, f, rate);
      } else {
        assert t == Body(t, f, rate)[..|t|] == Body(u, f, rate)[..|u|] == u;
      }
    }
  }

  /** `m` followed by what the code would write after it in its last block, up to the last byte. */
  function PadTwin(m: Bytes, f: Suffix, rate: nat): Bytes
    requires rate > 0 && |m| % rate < rate - 1
  {
    m + ([f.Code()] + Zeros(rate - 2 - |m| % rate))
  }

  predicate Twins(a: Bytes, b: Bytes, f: Suffix, rate: nat)
    requires rate > 0
  {
    |a| % rate < rate - 1 && b == PadTwin(a, f, rate)
  }

  lemma SameWhole(m: Bytes, x: Bytes, rate: nat)
    requires 0 < rate <= STATE_BYTES && |Tail(m, rate)| + |x| < rate
    ensures Whole(m + x, rate) == Whole(m, rate) && Tail(m + x, rate) == Tail(m, rate) + x
  {
    AbsorbMore(ZeroState(), m, x, rate);
  }

  lemma TwinsIff(a: Bytes, b: Bytes, f: Suffix, rate: nat)
    requires 0 < rate <= STATE_BYTES
    ensures Twins(a, b, f, rate)
            <==> Whole(a, rate) == Whole(b, rate) && |Tail(a, rate)| < rate - 1
                 && Tail(b, rate) == Body(Tail(a, rate), f, rate)
  {
    hide Tail, Whole, Suffix.Code, Zeros;
    TailLength(a, rate);
    WholeAndTail(a, rate);
    WholeAndTail(b, rate);
    var t := Tail(a, rate);
    if |t| < rate - 1 {
      var x := [f.Code()] + Zeros(rate - 2 - |t|);
      ZerosLength(rate - 2 - |t|);
      SameWhole(a, x, rate);
      assert Body(t, f, rate) == t + x;
      assert Whole(a, rate) + (t + x) == Whole(a, rate) + t + x;
    }
  }

  lemma ZerosLength(n: nat)
    ensures |Zeros(n)| == n
  {
  }

  lemma {:induction false} PaddedParts(a: Bytes, b: Bytes, f: Suffix, rate: nat)
    requires 0 < rate <= STATE_BYTES
    ensures CodePadded(a, f, rate) == CodePadded(b, f, rate)
            <==> Whole(a, rate) == Whole(b, rate)
                 && Body(Tail(a, rate), f, rate) == Body(Tail(b, rate), f, rate)
  {
    hide Tail, Whole, CodeBlock, Body;
    CodeBlockBody(Tail(a, rate), f, rate);
    CodeBlockBody(Tail(b, rate), f, rate);
    var (w, x) := (Whole(a, rate), CodeBlock(Tail(a, rate), f, rate));
    var (v, y) := (Whole(b, rate), CodeBlock(Tail(b, rate), f, rate));
    SameParts(w, x, v, y);
    SameParts(Body(Tail(a, rate), f, rate), [0x80], Body(Tail(b, rate), f, rate), [0x80]);
  }

  lemma SameParts(w: Bytes, x: Bytes, v: Bytes, y: Bytes)
    requires |x| == |y|
    ensures w + x == v + y <==> w == v && x == y
  {
    if w + x == v + y {
      assert |w| == |v|;
      assert w == (w + x)[..|w|] == (v + y)[..|v|] == v;
      assert x == (w + x)[|w|..] == (v + y)[|v|..] == y;
    }
  }

  /**
   The code pads two messages alike exactly when they are equal or one is the other followed by the suffix byte
   and the zeros after it, which ends it one byte short of a rate block.
   */
  lemma CodePaddedEqualIff(a: Bytes, b: Bytes, f: Suffix, rate: nat)
    requires 0 < rate <= STATE_BYTES
    ensures CodePadded(a, f, rate) == CodePadded(b, f, rate)
            <==> a == b || Twins(a, b, f, rate) || Twins(b, a, f, rate)
  {
    hide Tail, Whole, CodePadded, Body, Twins;
    PaddedParts(a, b, f, rate);
    BodyEqualIff(Tail(a, rate), Tail(b, rate), f, rate);
    TwinsIff(a, b, f, rate);
    TwinsIff(b, a, f, rate);
    WholeAndTail(a, rate);
    WholeAndTail(b, rate);
  }

  // ---- Output ----

  /** The state and the byte position in it once `n` bytes have been squeezed from `s`. */
  datatype Cursor = Cursor(state: State, pos: nat)

  function Squeezed(s: State, n: nat, rate: nat): (c: Cursor)
    requires 0 < rate
    ensures c.pos < rate
  {
    if n == 0 then Cursor(s, 0)
    else
      var c := Squeezed(s, n - 1, rate);
      if c.pos + 1 == rate then Cursor(KeccakF(c.state), 0) else Cursor(c.state, c.pos + 1)
  }

  /** Byte `n` of the output stream. */
  function StreamByte(s: State, n: nat, rate: nat): bv8
    requires 0 < rate <= STATE_BYTES
  {
    var c := Squeezed(s, n, rate);
    StateByte(c.state, c.pos)
  }

  function Stream(s: State, from: nat, count: nat, rate: nat): (z: Bytes)
    requires 0 < rate <= STATE_BYTES
    ensures |z| == count
  {
    seq(count, i requires 0 <= i < count => StreamByte(s, from + i, rate))
  }

  /** Consecutive stretches of the stream join up. */
  lemma StreamConcat(s: State, from: nat, a: nat, b: nat, rate: nat)
    requires 0 < rate <= STATE_BYTES
    ensures Stream(s, from, a, rate) + Stream(s, from + a, b, rate) == Stream(s, from, a + b, rate)
  {
    hide StreamByte;
  }

  function Permuted(s: State, n: nat): State {
    if n == 0 then s else KeccakF(Permuted(s, n - 1))
  }

  lemma {:induction false} SqueezedWithin(s: State, n: nat, r: nat, rate: nat)
    requires 0 < rate && Squeezed(s, n, rate).pos + r < rate
    ensures Squeezed(s, n + r, rate) == Cursor(Squeezed(s, n, rate).state, Squeezed(s, n, rate).pos + r)
  {
    hide KeccakF;
    if r > 0 {
      SqueezedWithin(s, n, r - 1, rate);
    }
  }

  /** The stream of section 4: block `q` of the output comes from the state permuted `q` times. */
  lemma {:induction false} StreamIsSponge(s: State, q: nat, r: nat, rate: nat)
    requires 0 < rate <= STATE_BYTES && r < rate
    ensures Squeezed(s, q * rate + r, rate) == Cursor(Permuted(s, q), r)
    ensures StreamByte(s, q * rate + r, rate) == StateByte(Permuted(s, q), r)
    decreases q
  {
    hide KeccakF, StateByte;
    if q > 0 {
      StreamIsSponge(s, q - 1, rate - 1, rate);
      assert (q - 1) * rate + (rate - 1) + 1 == q * rate;
    }
    assert Squeezed(s, q * rate, rate) == Cursor(Permuted(s, q), 0) by {
      if q == 0 { assert q * rate == 0; }
    }
    SqueezedWithin(s, q * rate, r, rate);
  }

  /** The sponge function: `d` bytes of output for message `m`, padded by `pad`. */
  function Output(padded: Bytes, d: nat, rate: nat): Bytes
    requires 0 < rate <= STATE_BYTES
  {
    Stream(Absorb(ZeroState(), padded, rate), 0, d, rate)
  }
}
