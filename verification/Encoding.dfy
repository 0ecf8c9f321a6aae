/**
 Length-prefixed big-endian encodings: the pieces that both manifests are built from, and a reader for each
 piece that accepts exactly what the writer produces.
 */
module Encoding {
  import opened Bytes
  import opened Wrappers

  type ByteString = seq<Byte>

  /** A C++ string is a sequence of 8-bit characters. */
  type Char8 = c: char | c as int < 0x100 witness 'a'

  type Text = seq<Char8>

  /** Lengths and counts are cast to 32 bits. */
  const LENGTH_LIMIT: nat := 0x1_0000_0000

  datatype Parsed<+T> = Parsed(value: T, rest: ByteString)

  // ---- Writers ----

  function Be32(n: nat): (bs: ByteString)
    ensures |bs| == 4
  {
    BigEndian(n % LENGTH_LIMIT, 4)
  }

  function Be64(w: Word): (bs: ByteString)
    ensures |bs| == 8
  {
    BigEndian(w, 8)
  }

  function TextBytes(s: Text): (bs: ByteString)
    ensures |bs| == |s|
  {
    seq(|s|, i requires 0 <= i < |s| => s[i] as int)
  }

  function EncodeText(s: Text): ByteString {
    Be32(|s|) + TextBytes(s)
  }

  function EncodeList<T>(enc: T -> ByteString, xs: seq<T>): ByteString {
    if xs == [] then [] else enc(xs[0]) + EncodeList(enc, xs[1..])
  }

  // ---- Readers ----

  function ReadNumber(bs: ByteString, size: nat): Option<Parsed<nat>> {
    if |bs| < size then None else Some(Parsed(FromBigEndian(bs[..size]), bs[size..]))
  }

  function BytesText(bs: ByteString): (s: Text)
    ensures |s| == |bs|
  {
    seq(|bs|, i requires 0 <= i < |bs| => bs[i] as char)
  }

  function ReadText(bs: ByteString): Option<Parsed<Text>> {
    match ReadNumber(bs, 4)
    case None => None
    case Some(n) =>
      if |n.rest| < n.value then None else Some(Parsed(BytesText(n.rest[..n.value]), n.rest[n.value..]))
  }

  function ReadRaw(bs: ByteString, size: nat): Option<Parsed<ByteString>> {
    if |bs| < size then None else Some(Parsed(bs[..size], bs[size..]))
  }

  function ReadList<T>(read: ByteString -> Option<Parsed<T>>, n: nat, bs: ByteString): Option<Parsed<seq<T>>> {
    if n == 0 then Some(Parsed([], bs))
    else
      match read(bs)
      case None => None
      case Some(x) =>
        match ReadList(read, n - 1, x.rest)
        case None => None
        case Some(xs) => Some(Parsed([x.value] + xs.value, xs.rest))
  }

  /** A 32-bit count, then that many items. */
  function ReadCounted<T>(read: ByteString -> Option<Parsed<T>>, bs: ByteString): Option<Parsed<seq<T>>> {
    match ReadNumber(bs, 4)
    case None => None
    case Some(n) => ReadList(read, n.value, n.rest)
  }

  // ---- Each reader inverts its writer, and accepts nothing else ----

  lemma SplitUnique(bs: ByteString, a: ByteString, rest: ByteString)
    ensures bs == a + rest <==> |a| <= |bs| && bs[..|a|] == a && bs[|a|..] == rest
  {
    if |a| <= |bs| && bs[..|a|] == a && bs[|a|..] == rest {
      assert bs == bs[..|a|] + bs[|a|..];
    }
  }

  lemma ReadNumberIff(bs: ByteString, size: nat, n: nat, rest: ByteString)
    ensures ReadNumber(bs, size) == Some(Parsed(n, rest))
            <==> n < Power256(size) && bs == BigEndian(n, size) + rest
  {
    hide BigEndian, FromBigEndian, Power256;
    SplitUnique(bs, BigEndian(n, size), rest);
    if |bs| >= size {
      BigEndianOfBytes(bs[..size]);
      if n < Power256(size) {
        BigEndianRoundTrip(n, size);
      }
    }
  }

  lemma ReadRawIff(bs: ByteString, size: nat, x: ByteString, rest: ByteString)
    ensures ReadRaw(bs, size) == Some(Parsed(x, rest)) <==> |x| == size && bs == x + rest
  {
    SplitUnique(bs, x, rest);
  }

  lemma TextRoundTrip(s: Text, bs: ByteString)
    ensures BytesText(TextBytes(s)) == s && TextBytes(BytesText(bs)) == bs
  {
    forall i | 0 <= i < |s| ensures BytesText(TextBytes(s))[i] == s[i] {
      assert TextBytes(s)[i] == s[i] as int;
    }
    forall i | 0 <= i < |bs| ensures TextBytes(BytesText(bs))[i] == bs[i] {
      assert BytesText(bs)[i] == bs[i] as char;
    }
  }

  lemma ReadTextIff(bs: ByteString, s: Text, rest: ByteString)
    ensures ReadText(bs) == Some(Parsed(s, rest)) <==> |s| < LENGTH_LIMIT && bs == EncodeText(s) + rest
  {
    hide BigEndian, FromBigEndian, Power256, ReadNumber, TextBytes, BytesText;
    Powers();
    if ReadText(bs) == Some(Parsed(s, rest)) {
      var n := ReadNumber(bs, 4).value;
      ReadNumberIff(bs, 4, n.value, n.rest);
      TextRoundTrip(s, n.rest[..n.value]);
      SplitUnique(n.rest, TextBytes(s), rest);
      Associate(BigEndian(n.value, 4), TextBytes(s), rest);
    }
    if |s| < LENGTH_LIMIT && bs == EncodeText(s) + rest {
      Associate(BigEndian(|s|, 4), TextBytes(s), rest);
      ReadNumberIff(bs, 4, |s|, TextBytes(s) + rest);
      SplitUnique(TextBytes(s) + rest, TextBytes(s), rest);
      TextRoundTrip(s, []);
    }
  }

  lemma Associate(a: ByteString, b: ByteString, c: ByteString)
    ensures (a + b) + c == a + (b + c)
  {
  }

  /** `read` returns `x` and `rest` exactly on the encoding of a fitting `x` followed by `rest`. */
  ghost predicate Inverts<T(!new)>(read: ByteString -> Option<Parsed<T>>, enc: T -> ByteString, fits: T -> bool) {
    forall bs: ByteString, x: T, rest: ByteString ::
      read(bs) == Some(Parsed(x, rest)) <==> fits(x) && bs == enc(x) + rest
  }

  lemma {:induction false} ReadListIff<T(!new)>(read: ByteString -> Option<Parsed<T>>, enc: T -> ByteString,
      fits: T -> bool, n: nat, bs: ByteString, xs: seq<T>, rest: ByteString)
    requires Inverts(read, enc, fits)
    ensures ReadList(read, n, bs) == Some(Parsed(xs, rest))
            <==> |xs| == n && (forall x | x in xs :: fits(x)) && bs == EncodeList(enc, xs) + rest
    decreases n
  {
    if n == 0 {
      assert xs == [] ==> EncodeList(enc, xs) + rest == rest;
    } else {
      if ReadList(read, n, bs) == Some(Parsed(xs, rest)) {
        var x := read(bs).value;
        assert xs[0] == x.value && xs[1..] == ReadList(read, n - 1, x.rest).value.value;
        ReadListIff(read, enc, fits, n - 1, x.rest, xs[1..], rest);
        Associate(enc(xs[0]), EncodeList(enc, xs[1..]), rest);
        assert xs == [xs[0]] + xs[1..];
      }
      if |xs| == n && (forall x | x in xs :: fits(x)) && bs == EncodeList(enc, xs) + rest {
        Associate(enc(xs[0]), EncodeList(enc, xs[1..]), rest);
        assert read(bs) == Some(Parsed(xs[0], EncodeList(enc, xs[1..]) + rest));
        ReadListIff(read, enc, fits, n - 1, EncodeList(enc, xs[1..]) + rest, xs[1..], rest);
        assert xs == [xs[0]] + xs[1..];
      }
    }
  }

  lemma ReadCountedIff<T(!new)>(read: ByteString -> Option<Parsed<T>>, enc: T -> ByteString, fits: T -> bool,
      bs: ByteString, xs: seq<T>, rest: ByteString)
    requires Inverts(read, enc, fits)
    ensures ReadCounted(read, bs) == Some(Parsed(xs, rest))
            <==> |xs| < LENGTH_LIMIT && (forall x | x in xs :: fits(x))
                 && bs == Be32(|xs|) + (EncodeList(enc, xs) + rest)
  {
    hide ReadNumber, BigEndian, ReadList, EncodeList, Inverts;
    Powers();
    var tail := EncodeList(enc, xs) + rest;
    if ReadCounted(read, bs) == Some(Parsed(xs, rest)) {
      var n := ReadNumber(bs, 4).value;
      ReadListIff(read, enc, fits, n.value, n.rest, xs, rest);
      ReadNumberIff(bs, 4, n.value, n.rest);
    }
    if |xs| < LENGTH_LIMIT && (forall x | x in xs :: fits(x)) && bs == Be32(|xs|) + tail {
      ReadNumberIff(bs, 4, |xs|, tail);
      ReadListIff(read, enc, fits, |xs|, tail, xs, rest);
    }
  }

  lemma {:induction false} EncodeListOneMore<T>(enc: T -> ByteString, xs: seq<T>, k: nat)
    requires k < |xs|
    ensures EncodeList(enc, xs[..k + 1]) == EncodeList(enc, xs[..k]) + enc(xs[k])
  {
    if k == 0 {
      assert xs[..1][1..] == [];
    } else {
      assert xs[..k + 1][1..] == xs[1..][..k] && xs[..k][1..] == xs[1..][..k - 1];
      EncodeListOneMore(enc, xs[1..], k - 1);
    }
  }

  lemma EncodeNone<T>(enc: T -> ByteString, xs: seq<T>)
    ensures EncodeList(enc, xs[..0]) == []
  {
  }

  // ---- The append helpers ----

  /** Four pushes, most significant byte first. */
  method AppendBe32(out: ByteString, size: nat) returns (r: ByteString)
    ensures r == out + Be32(size)
    ensures var n := size % 0x1_0000_0000;
            r == out + [n / 0x1000000 % 0x100, n / 0x10000 % 0x100, n / 0x100 % 0x100, n % 0x100]
  {
    var n := size % LENGTH_LIMIT;
    r := out + [n / 0x1000000 % 0x100];
    r := r + [n / 0x10000 % 0x100];
    r := r + [n / 0x100 % 0x100];
    r := r + [n % 0x100];
    FourBytes(n);
  }

  lemma OneByte(n: nat)
    ensures BigEndian(n, 1) == [n % 0x100]
  {
  }

  lemma LastByte(n: nat, k: nat)
    ensures BigEndian(n, k + 1) == BigEndian(n / 0x100, k) + [n % 0x100]
  {
  }

  lemma FourBytes(n: nat)
    ensures BigEndian(n, 4) == [n / 0x1000000 % 0x100, n / 0x10000 % 0x100, n / 0x100 % 0x100, n % 0x100]
  {
    hide BigEndian;
    var a, b, c := n / 0x100, n / 0x10000, n / 0x1000000;
    LastByte(n, 3);
    LastByte(a, 2);
    LastByte(b, 1);
    OneByte(c);
  }

  /** `w >> (8 * i)`. */
  function ShiftBytes(w: Word, i: nat): (r: Word)
    ensures r <= w
  {
    if i == 0 then w else ShiftBytes(w, i - 1) / 0x100
  }

  lemma {:induction false} ShiftBytesBound(w: Word, i: nat)
    requires i <= 8
    ensures ShiftBytes(w, i) < Power256(8 - i)
    decreases i
  {
    if i == 0 {
      Powers();
    } else {
      ShiftBytesBound(w, i - 1);
      assert Power256(8 - (i - 1)) == 0x100 * Power256(8 - i);
    }
  }

  method AppendBe64(out: ByteString, w: Word) returns (r: ByteString)
    ensures r == out + Be64(w)
  {
    r := out;
    var i := 7;
    ShiftBytesBound(w, i + 1);
    while i >= 0
      invariant -1 <= i <= 7
      invariant r == out + BigEndian(ShiftBytes(w, i + 1), 7 - i)
    {
      BigEndianStep(w, i);
      r := r + [ShiftBytes(w, i) % 0x100];
      i := i - 1;
    }
  }

  lemma BigEndianStep(w: Word, i: nat)
    requires i <= 7
    ensures BigEndian(ShiftBytes(w, i), 8 - i)
            == BigEndian(ShiftBytes(w, i + 1), 7 - i) + [ShiftBytes(w, i) % 0x100]
  {
  }

  method AppendText(out: ByteString, s: Text) returns (r: ByteString)
    ensures r == out + EncodeText(s)
    ensures |r| == |out| + 4 + |s| && forall i | 0 <= i < |s| :: r[|out| + 4 + i] == s[i] as int
  {
    r := AppendBe32(out, |s|);
    r := r + TextBytes(s);
  }
}
