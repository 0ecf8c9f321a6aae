/** SHA-3 on byte strings of integers, as the manifests use it. */
module Hashing {
  import opened Bytes
  import opened Encoding
  import Sponge
  import Sha3
  import Sha3Bits
  import F = Fips202

  type Digest512 = d: ByteString | |d| == 64 witness seq(64, _ => 0)
  type Digest256 = d: ByteString | |d| == 32 witness seq(32, _ => 0)

  // Octets and the numbers they stand for, named so that proofs can treat the conversions as black boxes.

  function Octet(b: Byte): bv8 {
    b as bv8
  }

  function OctetNumber(o: bv8): Byte {
    o as int
  }

  lemma OctetOfNumber(o: bv8)
    ensures Octet(OctetNumber(o)) == o
  {
  }

  lemma NumberAfter(o: bv8)
    ensures o < 255 ==> OctetNumber(o + 1) == OctetNumber(o) + 1
    ensures o == 255 ==> OctetNumber(o) == 255
    ensures OctetNumber(0) == 0
  {
  }

  /** Counting up reaches every byte. */
  lemma {:induction false} EveryNumber(b: Byte) returns (o: bv8)
    ensures OctetNumber(o) == b
  {
    hide OctetNumber;
    if b == 0 {
      o := 0;
    } else {
      o := EveryNumber(b - 1);
      NumberAfter(o);
      o := o + 1;
    }
    NumberAfter(o);
  }

  lemma NumberOfOctet(b: Byte)
    ensures OctetNumber(Octet(b)) == b
  {
    hide OctetNumber, Octet;
    var o := EveryNumber(b);
    OctetOfNumber(o);
  }

  function ToOctets(bs: ByteString): (r: Sponge.Bytes)
    ensures |r| == |bs|
  {
    seq(|bs|, i requires 0 <= i < |bs| => Octet(bs[i]))
  }

  function FromOctets(r: Sponge.Bytes): (bs: ByteString)
    ensures |bs| == |r|
  {
    seq(|r|, i requires 0 <= i < |r| => OctetNumber(r[i]))
  }

  /** `d` bytes of SHA-3 at `rate`, as the code computes it. */
  function Sum(bs: ByteString, d: nat, rate: nat): (r: ByteString)
    requires 0 < rate <= Sponge.STATE_BYTES
    ensures |r| == d
  {
    FromOctets(Sha3.Digest(ToOctets(bs), Sponge.Sha3Suffix, d, rate))
  }

  function Sha3Of512(bs: ByteString): Digest512 {
    Sum(bs, 64, 72)
  }

  function Sha3Of256(bs: ByteString): Digest256 {
    Sum(bs, 32, 136)
  }

  /** What the sponge absorbs for `bs`, as the code pads it. */
  function PaddedInput(bs: ByteString, rate: nat): Sponge.Bytes
    requires rate > 0
  {
    Sponge.CodePadded(ToOctets(bs), Sponge.Sha3Suffix, rate)
  }

  /** Different padded inputs from which the sponge squeezes the same `d` bytes. */
  predicate SpongeCollision(x: ByteString, y: ByteString, d: nat, rate: nat)
    requires 0 < rate <= Sponge.STATE_BYTES
  {
    PaddedInput(x, rate) != PaddedInput(y, rate)
    && Sponge.Output(PaddedInput(x, rate), d, rate) == Sponge.Output(PaddedInput(y, rate), d, rate)
  }

  lemma OctetsInjective(x: ByteString, y: ByteString)
    ensures ToOctets(x) == ToOctets(y) <==> x == y
    ensures ToOctets(x) <= ToOctets(y) ==> x <= y
  {
    hide Octet;
    if ToOctets(x) <= ToOctets(y) {
      forall i | 0 <= i < |x| ensures x[i] == y[i] {
        assert ToOctets(x)[i] == ToOctets(y)[i];
        NumberOfOctet(x[i]);
        NumberOfOctet(y[i]);
      }
    }
  }

  lemma NumbersInjective(r: Sponge.Bytes, q: Sponge.Bytes)
    requires FromOctets(r) == FromOctets(q)
    ensures r == q
  {
    hide OctetNumber;
    forall i | 0 <= i < |r| ensures |r| == |q| && r[i] == q[i] {
      assert FromOctets(r)[i] == FromOctets(q)[i];
      OctetOfNumber(r[i]);
      OctetOfNumber(q[i]);
    }
    assert |r| == |FromOctets(r)| && |q| == |FromOctets(q)|;
  }

  /** Digests are equal exactly when the padded inputs are, or collide. */
  lemma EqualSumsIff(x: ByteString, y: ByteString, d: nat, rate: nat)
    requires 0 < rate <= Sponge.STATE_BYTES
    ensures Sum(x, d, rate) == Sum(y, d, rate)
            <==> PaddedInput(x, rate) == PaddedInput(y, rate) || SpongeCollision(x, y, d, rate)
  {
    hide Sha3.Digest, Sponge.Output, Sponge.CodePadded, ToOctets, FromOctets;
    var (r, q) := (Sha3.Digest(ToOctets(x), Sponge.Sha3Suffix, d, rate),
                   Sha3.Digest(ToOctets(y), Sponge.Sha3Suffix, d, rate));
    if FromOctets(r) == FromOctets(q) {
      NumbersInjective(r, q);
    }
    Sha3.DigestIsOutput(ToOctets(x), Sponge.Sha3Suffix, d, rate);
    Sha3.DigestIsOutput(ToOctets(y), Sponge.Sha3Suffix, d, rate);
  }

  lemma EqualDigests(x: ByteString, y: ByteString)
    requires Sha3Of512(x) == Sha3Of512(y)
    ensures PaddedInput(x, 72) == PaddedInput(y, 72) || SpongeCollision(x, y, 64, 72)
  {
    hide Sum, SpongeCollision, PaddedInput;
    EqualSumsIff(x, y, 64, 72);
  }

  /** `bs`, the suffix byte 6, and zeros up to one byte short of a block. */
  function PaddingTwin(bs: ByteString, rate: nat): ByteString
    requires rate > 0 && |bs| % rate < rate - 1
  {
    bs + ([6] + seq(rate - 2 - |bs| % rate, _ => 0))
  }

  predicate PaddingTwins(x: ByteString, y: ByteString, rate: nat)
    requires rate > 0
  {
    |x| % rate < rate - 1 && y == PaddingTwin(x, rate)
  }

  lemma TwinOctets(bs: ByteString, rate: nat)
    requires rate > 0 && |bs| % rate < rate - 1
    ensures ToOctets(PaddingTwin(bs, rate)) == Sponge.PadTwin(ToOctets(bs), Sponge.Sha3Suffix, rate)
  {
    assert Octet(6) == 6 && Octet(0) == 0;
  }

  lemma TwinsIff(x: ByteString, y: ByteString, rate: nat)
    requires rate > 0
    ensures PaddingTwins(x, y, rate) <==> Sponge.Twins(ToOctets(x), ToOctets(y), Sponge.Sha3Suffix, rate)
  {
    hide ToOctets, PaddingTwin, Sponge.PadTwin;
    if |x| % rate < rate - 1 {
      TwinOctets(x, rate);
      OctetsInjective(y, PaddingTwin(x, rate));
    }
  }

  /** Byte strings are padded alike exactly when they are equal or one is the other's twin. */
  lemma SamePaddedInputIff(x: ByteString, y: ByteString, rate: nat)
    requires 0 < rate <= Sponge.STATE_BYTES
    ensures PaddedInput(x, rate) == PaddedInput(y, rate)
            <==> x == y || PaddingTwins(x, y, rate) || PaddingTwins(y, x, rate)
  {
    hide Sponge.CodePadded, Sponge.Twins, PaddingTwins, ToOctets;
    Sponge.CodePaddedEqualIff(ToOctets(x), ToOctets(y), Sponge.Sha3Suffix, rate);
    OctetsInjective(x, y);
    TwinsIff(x, y, rate);
    TwinsIff(y, x, rate);
  }

  /** So of two that are padded alike, one begins the other. */
  lemma SamePaddedInput(x: ByteString, y: ByteString)
    requires PaddedInput(x, 72) == PaddedInput(y, 72)
    ensures x <= y || y <= x
  {
    hide PaddedInput;
    SamePaddedInputIff(x, y, 72);
  }

  /** SHA3-512 as coded gives one digest to every such pair: 70 bytes, say, and the same with a 6 after them. */
  lemma TwinsShareDigest(bs: ByteString)
    requires |bs| % 72 < 71
    ensures PaddingTwin(bs, 72) != bs && Sha3Of512(PaddingTwin(bs, 72)) == Sha3Of512(bs)
  {
    hide Sum, PaddedInput, SpongeCollision;
    SamePaddedInputIff(bs, PaddingTwin(bs, 72), 72);
    EqualSumsIff(bs, PaddingTwin(bs, 72), 64, 72);
    assert |PaddingTwin(bs, 72)| > |bs|;
  }

  /** The bits of a byte string of numbers. */
  function BitsOf(bs: ByteString): F.BitString {
    Sponge.BitsOf(ToOctets(bs))
  }

  /** Where the code pads as the standard does, its hashes are those of FIPS 202. */
  lemma HashesAreFips(bs: ByteString)
    ensures |bs| % 72 != 71 ==> BitsOf(Sha3Of512(bs)) == F.Sha3_512(BitsOf(bs))
    ensures |bs| % 136 != 135 ==> BitsOf(Sha3Of256(bs)) == F.Sha3_256(BitsOf(bs))
  {
    hide Sha3.Digest, Sponge.BitsOf, F.Sha3_256, F.Sha3_512;
    if |bs| % 72 != 71 {
      Sha3Bits.Sha512IsFips(ToOctets(bs));
    }
    if |bs| % 136 != 135 {
      Sha3Bits.Sha256IsFips(ToOctets(bs));
    }
    OctetsOfNumbers(Sha3.Digest(ToOctets(bs), Sponge.Sha3Suffix, 64, 72));
    OctetsOfNumbers(Sha3.Digest(ToOctets(bs), Sponge.Sha3Suffix, 32, 136));
  }

  lemma OctetsOfNumbers(r: Sponge.Bytes)
    ensures ToOctets(FromOctets(r)) == r
  {
    hide Octet, OctetNumber;
    forall i | 0 <= i < |r| ensures ToOctets(FromOctets(r))[i] == r[i] {
      OctetOfNumber(r[i]);
    }
  }

  method Hash512(bs: ByteString) returns (d: Digest512)
    ensures d == Sha3Of512(bs)
  {
    hide Sha3.Digest;
    var r := Sha3.OneShot(72, 64, ToOctets(bs));
    d := FromOctets(r);
  }

  method Hash256(bs: ByteString) returns (d: Digest256)
    ensures d == Sha3Of256(bs)
  {
    hide Sha3.Digest;
    var r := Sha3.OneShot(136, 32, ToOctets(bs));
    d := FromOctets(r);
  }
}
