/** The digests of byte strings are, bit by bit, those of FIPS 202. */
module Sha3Bits {
  import opened Keccak
  import opened LaneBits
  import opened KeccakBits
  import opened Sponge
  import opened Sha3
  import F = Fips202

  // ---- Bytes and bits of a lane, section B.1 ----

  function LowByte(x: Lane): bv8 {
    (x & 0xFF) as bv8
  }

  lemma PickIs(x: Lane, k: nat)
    requires k < 8
    ensures Pick(x, k) == LowByte(Right(x, 8 * k))
  {
    hide Right;
    match k
    case 0 => RightNone(x);
    case 1 => RightEight(x);
    case 2 => RightSixteen(x);
    case 3 => RightTwentyFour(x);
    case 4 => RightThirtyTwo(x);
    case 5 => RightForty(x);
    case 6 => RightFortyEight(x);
    case _ => RightFiftySix(x);
  }

  /** Halving moves the bits of the low byte down. */
  lemma LowByteHalves(x: Lane)
    ensures ByteBits(LowByte(x))[0] == Odd(x)
    ensures ByteBits(LowByte(Halve(x)))[..7] == ByteBits(LowByte(x))[1..]
  {
  }

  lemma {:induction false} LowByteBit(x: Lane, b: nat)
    requires b < 8
    ensures ByteBits(LowByte(x))[b] == Bit(x, b)
    decreases b
  {
    LowByteHalves(x);
    hide ByteBits, LowByte, Bit, Halve, Odd;
    BitIs(x, b);
    if b > 0 {
      LowByteBit(Halve(x), b - 1);
      assert ByteBits(LowByte(Halve(x)))[..7][b - 1] == ByteBits(LowByte(x))[1..][b - 1];
    }
  }

  /** Bit `b` of byte `k` of a lane is bit 8k + b of the lane. */
  lemma PickBit(x: Lane, k: nat, b: nat)
    requires k < 8 && b < 8
    ensures ByteBits(Pick(x, k))[b] == Bit(x, 8 * k + b)
  {
    hide Pick, ByteBits, LowByte, Bit, Right;
    PickIs(x, k);
    LowByteBit(Right(x, 8 * k), b);
    RightBit(x, 8 * k, b);
  }

  /** The bytes of the state, read as bits, are the state string. */
  lemma StateByteBit(s: State, i: nat, b: nat)
    requires i < STATE_BYTES && b < 8
    ensures ByteBits(StateByte(s, i))[b] == StringOf(s)[8 * i + b]
  {
    hide Pick, ByteBits, Bit;
    PickBit(s[i / 8], i % 8, b);
    assert (8 * i + b) / 64 == i / 8 && (8 * i + b) % 64 == 8 * (i % 8) + b;
  }

  lemma {:induction false} BitsOfAt(m: Bytes, i: nat, b: nat)
    requires i < |m| && b < 8
    ensures BitsOf(m)[8 * i + b] == ByteBits(m[i])[b]
  {
    hide ByteBits;
    if i > 0 {
      BitsOfAt(m[1..], i - 1, b);
    }
  }

  // ---- Absorbing ----

  lemma XorByteBits(x: bv8, y: bv8)
    ensures var (r, s, t) := (ByteBits(x), ByteBits(y), ByteBits(XorByte(x, y)));
            t == [r[0] != s[0], r[1] != s[1], r[2] != s[2], r[3] != s[3],
                  r[4] != s[4], r[5] != s[5], r[6] != s[6], r[7] != s[7]]
  {
  }

  lemma XorByteBit(x: bv8, y: bv8, b: nat)
    requires b < 8
    ensures ByteBits(XorByte(x, y))[b] == (ByteBits(x)[b] != ByteBits(y)[b])
  {
    hide ByteBits, XorByte;
    XorByteBits(x, y);
  }

  lemma AddedBit(s: State, block: Bytes, i: nat, b: nat)
    requires |block| <= STATE_BYTES && i < STATE_BYTES && b < 8
    ensures StringOf(XorBytes(s, block, |block|))[8 * i + b] == F.Added(StringOf(s), BitsOf(block))[8 * i + b]
  {
    hide XorBytes, StateByte, ByteBits, BitsOf, StringOf, XorByte;
    var t := XorBytes(s, block, |block|);
    StateByteBit(t, i, b);
    StateByteBit(s, i, b);
    XorBytesMeaning(s, block, |block|, i);
    if i < |block| {
      BitsOfAt(block, i, b);
      XorByteBit(StateByte(s, i), block[i], b);
    }
  }

  /** One inner step of the sponge. */
  lemma AbsorbBlockString(s: State, block: Bytes)
    requires |block| <= STATE_BYTES
    ensures StringOf(AbsorbBlock(s, block)) == F.KeccakP(F.Added(StringOf(s), BitsOf(block)))
  {
    hide XorBytes, KeccakF, F.KeccakP, StringOf, F.Added, BitsOf;
    var t := XorBytes(s, block, |block|);
    forall p | 0 <= p < F.WIDTH ensures StringOf(t)[p] == F.Added(StringOf(s), BitsOf(block))[p] {
      assert p == 8 * (p / 8) + p % 8;
      AddedBit(s, block, p / 8, p % 8);
    }
    assert StringOf(t) == F.Added(StringOf(s), BitsOf(block));
    PermutationIsFips(t);
  }

  lemma BitsOfParts(m: Bytes, n: nat)
    requires n <= |m|
    ensures BitsOf(m)[..8 * n] == BitsOf(m[..n]) && BitsOf(m)[8 * n..] == BitsOf(m[n..])
  {
    hide BitsOf;
    assert m == m[..n] + m[n..];
    BitsConcat(m[..n], m[n..]);
  }

  lemma {:induction false} AbsorbIsFips(s: State, m: Bytes, rate: nat)
    requires 0 < rate <= STATE_BYTES
    ensures StringOf(Absorb(s, m, rate)) == F.AbsorbString(StringOf(s), BitsOf(m), 8 * rate)
    decreases |m|
  {
    hide AbsorbBlock, BitsOf, StringOf, F.KeccakP, F.Added;
    if |m| >= rate {
      AbsorbIsFips(AbsorbBlock(s, m[..rate]), m[rate..], rate);
      AbsorbBlockString(s, m[..rate]);
      BitsOfParts(m, rate);
    }
  }

  lemma ZeroIsFips()
    ensures StringOf(ZeroState()) == F.Falses(F.WIDTH)
  {
    forall p | 0 <= p < F.WIDTH ensures StringOf(ZeroState())[p] == F.Falses(F.WIDTH)[p] {
      RightOfZero(p % 64);
    }
  }

  // ---- Squeezing ----

  lemma {:induction false} SqueezedLater(s: State, n: nat, rate: nat)
    requires 0 < rate <= STATE_BYTES
    ensures Squeezed(s, rate + n, rate) == Squeezed(KeccakF(s), n, rate)
  {
    hide KeccakF, Permuted;
    if n == 0 {
      OneBlockOn(s, rate);
    } else {
      SqueezedLater(s, n - 1, rate);
    }
  }

  lemma OneBlockOn(s: State, rate: nat)
    requires 0 < rate <= STATE_BYTES
    ensures Squeezed(s, rate, rate) == Cursor(KeccakF(s), 0)
  {
    hide KeccakF, Squeezed, StreamByte, StateByte;
    StreamIsSponge(s, 1, 0, rate);
    assert Permuted(s, 0) == s;
  }

  lemma StreamLater(s: State, n: nat, rate: nat)
    requires 0 < rate <= STATE_BYTES
    ensures Stream(s, rate, n, rate) == Stream(KeccakF(s), 0, n, rate)
  {
    hide KeccakF, Squeezed, StateByte;
    forall i | 0 <= i < n ensures StreamByte(s, rate + i, rate) == StreamByte(KeccakF(s), i, rate) {
      SqueezedLater(s, i, rate);
    }
  }

  lemma FirstBlockByte(s: State, i: nat, rate: nat)
    requires 0 < rate <= STATE_BYTES && i < rate
    ensures StreamByte(s, i, rate) == StateByte(s, i)
  {
    hide KeccakF, Squeezed, StreamByte, StateByte;
    StreamIsSponge(s, 0, i, rate);
    assert Permuted(s, 0) == s;
  }

  lemma FirstBlockString(s: State, d: nat, rate: nat)
    requires 0 < rate <= STATE_BYTES && d <= rate
    ensures BitsOf(Stream(s, 0, d, rate)) == StringOf(s)[..8 * d]
  {
    hide StreamByte, StateByte, ByteBits, BitsOf, StringOf;
    var z := Stream(s, 0, d, rate);
    forall p | 0 <= p < 8 * d ensures BitsOf(z)[p] == StringOf(s)[p] {
      var i, b := p / 8, p % 8;
      assert p == 8 * i + b;
      BitsOfAt(z, i, b);
      FirstBlockByte(s, i, rate);
      StateByteBit(s, i, b);
    }
  }

  lemma {:induction false} SqueezeIsFips(s: State, d: nat, rate: nat)
    requires 0 < rate <= STATE_BYTES
    ensures BitsOf(Stream(s, 0, d, rate)) == F.SqueezeString(StringOf(s), 8 * rate, 8 * d)
    decreases d
  {
    hide Stream, BitsOf, StringOf, KeccakF, F.KeccakP;
    if d <= rate {
      FirstBlockString(s, d, rate);
    } else {
      FirstBlockString(s, rate, rate);
      StreamLater(s, d - rate, rate);
      SqueezeIsFips(KeccakF(s), d - rate, rate);
      PermutationIsFips(s);
      StreamConcat(s, 0, rate, d - rate, rate);
      BitsConcat(Stream(s, 0, rate, rate), Stream(s, rate, d - rate, rate));
    }
  }

  // ---- Whole digests ----

  /**
   The digest of every message that does not end one byte short of a block is, as a bit string, the output of
   the sponge of FIPS 202 on the message's bits and the suffix.
   */
  lemma DigestIsFips(m: Bytes, f: Suffix, d: nat, rate: nat)
    requires 0 < rate <= STATE_BYTES && |m| % rate != rate - 1
    ensures BitsOf(Digest(m, f, d, rate)) == F.SpongeString(BitsOf(m) + f.Bits(), 8 * rate, 8 * d)
  {
    hide Stream, Absorb, BitsOf, StringOf, FipsPadded, Suffix.Bits, F.AbsorbString, F.SqueezeString, F.Pad101,
      ZeroState;
    DigestIsStandard(m, f, d, rate);
    assert |BitsOf(m) + f.Bits()| == 8 * |m| + |f.Bits()|;
    var padded := FipsPadded(m, f, rate);
    ZeroIsFips();
    AbsorbIsFips(ZeroState(), padded, rate);
    SqueezeIsFips(Absorb(ZeroState(), padded, rate), d, rate);
  }

  lemma Sha224IsFips(m: Bytes)
    requires |m| % 144 != 143
    ensures BitsOf(Digest(m, Sha3Suffix, 28, 144)) == F.Sha3_224(BitsOf(m))
  {
    hide Digest, BitsOf, F.SpongeString;
    DigestIsFips(m, Sha3Suffix, 28, 144);
  }

  lemma Sha256IsFips(m: Bytes)
    requires |m| % 136 != 135
    ensures BitsOf(Digest(m, Sha3Suffix, 32, 136)) == F.Sha3_256(BitsOf(m))
  {
    hide Digest, BitsOf, F.SpongeString;
    DigestIsFips(m, Sha3Suffix, 32, 136);
  }

  lemma Sha384IsFips(m: Bytes)
    requires |m| % 104 != 103
    ensures BitsOf(Digest(m, Sha3Suffix, 48, 104)) == F.Sha3_384(BitsOf(m))
  {
    hide Digest, BitsOf, F.SpongeString;
    DigestIsFips(m, Sha3Suffix, 48, 104);
  }

  lemma Sha512IsFips(m: Bytes)
    requires |m| % 72 != 71
    ensures BitsOf(Digest(m, Sha3Suffix, 64, 72)) == F.Sha3_512(BitsOf(m))
  {
    hide Digest, BitsOf, F.SpongeString;
    DigestIsFips(m, Sha3Suffix, 64, 72);
  }

  lemma Shake128IsFips(m: Bytes, d: nat)
    requires |m| % 168 != 167
    ensures BitsOf(Digest(m, ShakeSuffix, d, 168)) == F.Shake128(BitsOf(m), 8 * d)
  {
    hide Digest, BitsOf, F.SpongeString;
    DigestIsFips(m, ShakeSuffix, d, 168);
  }

  lemma Shake256IsFips(m: Bytes, d: nat)
    requires |m| % 136 != 135
    ensures BitsOf(Digest(m, ShakeSuffix, d, 136)) == F.Shake256(BitsOf(m), 8 * d)
  {
    hide Digest, BitsOf, F.SpongeString;
    DigestIsFips(m, ShakeSuffix, d, 136);
  }

  /** The six functions of section 6, all of which the code offers. */
  lemma FunctionsAreFips(m: Bytes, d: nat)
    ensures |m| % 144 != 143 ==> BitsOf(Digest(m, Sha3Suffix, 28, 144)) == F.Sha3_224(BitsOf(m))
    ensures |m| % 136 != 135 ==> BitsOf(Digest(m, Sha3Suffix, 32, 136)) == F.Sha3_256(BitsOf(m))
    ensures |m| % 104 != 103 ==> BitsOf(Digest(m, Sha3Suffix, 48, 104)) == F.Sha3_384(BitsOf(m))
    ensures |m| % 72 != 71 ==> BitsOf(Digest(m, Sha3Suffix, 64, 72)) == F.Sha3_512(BitsOf(m))
    ensures |m| % 168 != 167 ==> BitsOf(Digest(m, ShakeSuffix, d, 168)) == F.Shake128(BitsOf(m), 8 * d)
    ensures |m| % 136 != 135 ==> BitsOf(Digest(m, ShakeSuffix, d, 136)) == F.Shake256(BitsOf(m), 8 * d)
  {
    hide Digest, BitsOf, F.Sha3_224, F.Sha3_256, F.Sha3_384, F.Sha3_512, F.Shake128, F.Shake256;
    if |m| % 144 != 143 {
      Sha224IsFips(m);
    }
    if |m| % 136 != 135 {
      Sha256IsFips(m);
      Shake256IsFips(m, d);
    }
    if |m| % 104 != 103 {
      Sha384IsFips(m);
    }
    if |m| % 72 != 71 {
      Sha512IsFips(m);
    }
    if |m| % 168 != 167 {
      Shake128IsFips(m, d);
    }
  }
}
