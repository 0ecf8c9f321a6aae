/** Bytes, machine words and the two byte orders the code uses. */
module Bytes {
  import opened Arithmetic

  const TWO_64 := 0x1_0000_0000_0000_0000

  type Byte = b: int | 0 <= b < 0x100
  type U16 = n: int | 0 <= n < 0x1_0000
  type U32 = n: int | 0 <= n < 0x1_0000_0000
  type U48 = n: int | 0 <= n < 0x1_0000_0000_0000
  type Word = w: int | 0 <= w < 0x1_0000_0000_0000_0000
  type Int64 = i: int | -0x8000_0000_0000_0000 <= i < 0x8000_0000_0000_0000
  type Int8 = i: int | -0x80 <= i < 0x80

  /** The unsigned 64-bit word that a C++ conversion or wrapping operation yields. */
  function Wrap(i: int): Word {
    i % TWO_64
  }

  /** The two's-complement reading of a word. */
  function Signed(w: Word): Int64 {
    if w < 0x8000_0000_0000_0000 then w else w - TWO_64
  }

  function Power256(n: nat): (p: nat)
    ensures p > 0
  {
    if n == 0 then 1 else 0x100 * Power256(n - 1)
  }

  /** The `n` low bytes of `w`, least significant first. */
  function LittleEndian(w: nat, n: nat): (bs: seq<Byte>)
    ensures |bs| == n
  {
    if n == 0 then [] else [w % 0x100] + LittleEndian(w / 0x100, n - 1)
  }

  function FromLittleEndian(bs: seq<Byte>): nat {
    if bs == [] then 0 else bs[0] + 0x100 * FromLittleEndian(bs[1..])
  }

  /** Reading back what was written loses nothing that fits. */
  lemma {:induction false} LittleEndianRoundTrip(w: nat, n: nat)
    requires w < Power256(n)
    ensures FromLittleEndian(LittleEndian(w, n)) == w
  {
    if n > 0 {
      LittleEndianRoundTrip(w / 0x100, n - 1);
      assert LittleEndian(w, n)[1..] == LittleEndian(w / 0x100, n - 1);
    }
  }

  /** The `n` low bytes of `w`, most significant first. */
  function BigEndian(w: nat, n: nat): (bs: seq<Byte>)
    ensures |bs| == n
  {
    if n == 0 then [] else BigEndian(w / 0x100, n - 1) + [w % 0x100]
  }

  function FromBigEndian(bs: seq<Byte>): nat {
    if bs == [] then 0 else 0x100 * FromBigEndian(bs[..|bs| - 1]) + bs[|bs| - 1]
  }

  lemma {:induction false} BigEndianRoundTrip(w: nat, n: nat)
    requires w < Power256(n)
    ensures FromBigEndian(BigEndian(w, n)) == w
  {
    if n > 0 {
      BigEndianRoundTrip(w / 0x100, n - 1);
      assert BigEndian(w, n)[..n - 1] == BigEndian(w / 0x100, n - 1);
    }
  }

  /** Which byte stands where: most significant first, and least significant first. */
  lemma {:induction false} BigEndianAt(w: nat, n: nat, i: nat)
    requires i < n
    ensures BigEndian(w, n)[i] == w / Power256(n - 1 - i) % 0x100
  {
    if i < n - 1 {
      BigEndianAt(w / 0x100, n - 1, i);
      DivDiv(w, 0x100, Power256(n - 2 - i));
    }
  }

  lemma {:induction false} LittleEndianAt(w: nat, n: nat, i: nat)
    requires i < n
    ensures LittleEndian(w, n)[i] == w / Power256(i) % 0x100
  {
    if i > 0 {
      LittleEndianAt(w / 0x100, n - 1, i - 1);
      DivDiv(w, 0x100, Power256(i - 1));
    }
  }

  /** Every `n`-byte string is the encoding of the number it reads as, and that number fits. */
  lemma {:induction false} BigEndianOfBytes(bs: seq<Byte>)
    ensures FromBigEndian(bs) < Power256(|bs|)
    ensures BigEndian(FromBigEndian(bs), |bs|) == bs
  {
    if bs != [] {
      var last := |bs| - 1;
      BigEndianOfBytes(bs[..last]);
      assert bs == bs[..last] + [bs[last]];
    }
  }

  lemma {:induction false} LittleEndianOfBytes(bs: seq<Byte>)
    ensures FromLittleEndian(bs) < Power256(|bs|)
    ensures LittleEndian(FromLittleEndian(bs), |bs|) == bs
  {
    if bs != [] {
      LittleEndianOfBytes(bs[1..]);
      assert bs == [bs[0]] + bs[1..];
    }
  }

  lemma Powers()
    ensures Power256(4) == 0x1_0000_0000
    ensures Power256(8) == TWO_64
  {
    assert Power256(4) == 0x1_0000_0000;
  }
}
