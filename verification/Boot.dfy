/** Boot manifests: the canonical encoding that is signed, its decoder, and the keyed hash that signs it. */
module Boot {
  import opened Bytes
  import opened Capabilities
  import opened Encoding
  import opened Hashing
  import opened Wrappers
  import F = Fips202

  datatype Kind = KindText | KindRodata | KindData | KindBss

  datatype Segment = Segment(kind: Kind, name: Text, vaddr: Word, memsz: Word, filesz: Word, hash: Word)

  datatype Manifest = Manifest(version: Text, buildId: Text, segments: seq<Segment>, capabilities: seq<Capability>) {
    /** Lengths and counts survive the cast to 32 bits. */
    predicate Fits() {
      |version| < LENGTH_LIMIT && |buildId| < LENGTH_LIMIT
      && |segments| < LENGTH_LIMIT && |capabilities| < LENGTH_LIMIT
      && forall s | s in segments :: SegmentFits(s)
    }
  }

  predicate SegmentFits(s: Segment) {
    |s.name| < LENGTH_LIMIT
  }

  // ---- The encoding ----

  function KindByte(k: Kind): Byte {
    match k
    case KindText => 0
    case KindRodata => 1
    case KindData => 2
    case KindBss => 3
  }

  function SegmentWords(s: Segment): (ws: seq<Word>)
    ensures |ws| == 4
  {
    [s.vaddr, s.memsz, s.filesz, s.hash]
  }

  function EncodeSegment(s: Segment): ByteString {
    EncodeText(s.name) + ([KindByte(s.kind)] + EncodeList(Be64, SegmentWords(s)))
  }

  // Bytes of the rights mask, named so that proofs can treat the bit operations as black boxes.

  function LowByte(r: bv16): bv8 {
    (r & 0xFF) as bv8
  }

  function HighByte(r: bv16): bv8 {
    (r >> 8) as bv8
  }

  function JoinBytes(low: bv8, high: bv8): bv16 {
    ((high as bv16) << 8) | (low as bv16)
  }

  function RightsBytes(r: bv16): (bs: ByteString)
    ensures |bs| == 2
  {
    [OctetNumber(LowByte(r)), OctetNumber(HighByte(r))]
  }

  /**
   The raw 16 bytes of a capability: its bit-fields of 48, 16, 16 and 48 bits fill two 64-bit words, stored
   with the low byte first.
   */
  function CapabilityBytes(c: Capability): (bs: ByteString)
    ensures |bs| == 16
  {
    LittleEndian(c.objectId, 6) + RightsBytes(c.rights) + LittleEndian(c.epoch, 2) + LittleEndian(c.generation, 6)
  }

  lemma {:induction false} LittleEndianConcat(a: ByteString, b: ByteString)
    ensures FromLittleEndian(a + b) == FromLittleEndian(a) + Power256(|a|) * FromLittleEndian(b)
  {
    if a == [] {
      assert a + b == b;
    } else {
      LittleEndianConcat(a[1..], b);
      assert (a + b)[1..] == a[1..] + b;
      assert 0x100 * (Power256(|a| - 1) * FromLittleEndian(b)) == 0x100 * Power256(|a| - 1) * FromLittleEndian(b);
    }
  }

  lemma RightsRead(r: bv16)
    ensures var low: int := OctetNumber(LowByte(r));
            var high: int := OctetNumber(HighByte(r));
            low + 0x100 * high == r as int
  {
  }

  lemma TwoBytes(bs: ByteString)
    requires |bs| == 2
    ensures var low: int := bs[0];
            var high: int := bs[1];
            FromLittleEndian(bs) == low + 0x100 * high
  {
    assert bs[1..][1..] == [];
    assert FromLittleEndian(bs[1..]) == bs[1];
  }

  lemma PowersOfTwoAndSix()
    ensures Power256(2) == 0x1_0000 && Power256(6) == 0x1_0000_0000_0000
  {
    assert Power256(3) == 0x100_0000;
  }

  /** The 16 bytes are the two 64-bit words of the bit-field layout, each low byte first. */
  lemma CapabilityWords(c: Capability)
    ensures FromLittleEndian(CapabilityBytes(c)[..8]) == c.objectId + 0x1_0000_0000_0000 * (c.rights as int)
    ensures FromLittleEndian(CapabilityBytes(c)[8..]) == c.epoch + 0x1_0000 * c.generation
  {
    hide LittleEndian, FromLittleEndian, RightsBytes, Power256;
    var (o, r, e, g) := (LittleEndian(c.objectId, 6), RightsBytes(c.rights), LittleEndian(c.epoch, 2),
                         LittleEndian(c.generation, 6));
    assert CapabilityBytes(c)[..8] == o + r && CapabilityBytes(c)[8..] == e + g;
    PowersOfTwoAndSix();
    LittleEndianConcat(o, r);
    LittleEndianConcat(e, g);
    LittleEndianRoundTrip(c.objectId, 6);
    LittleEndianRoundTrip(c.epoch, 2);
    LittleEndianRoundTrip(c.generation, 6);
    RightsWord(c.rights);
  }

  lemma RightsWord(r: bv16)
    ensures FromLittleEndian(RightsBytes(r)) == r as int
  {
    hide FromLittleEndian, OctetNumber, LowByte, HighByte;
    TwoBytes(RightsBytes(r));
    RightsRead(r);
  }

  function EncodeCapabilities(m: Manifest): ByteString {
    Be32(|m.capabilities|) + EncodeList(CapabilityBytes, m.capabilities)
  }

  function EncodeSegments(m: Manifest): ByteString {
    Be32(|m.segments|) + (EncodeList(EncodeSegment, m.segments) + EncodeCapabilities(m))
  }

  function Canonical(m: Manifest): ByteString {
    EncodeText(m.version) + (EncodeText(m.buildId) + EncodeSegments(m))
  }

  method AppendSegment(out: ByteString, s: Segment) returns (r: ByteString)
    ensures r == out + EncodeSegment(s)
  {
    hide EncodeText, Be64;
    r := AppendText(out, s.name);
    r := r + [KindByte(s.kind)];
    r := AppendBe64(r, s.vaddr);
    r := AppendBe64(r, s.memsz);
    r := AppendBe64(r, s.filesz);
    r := AppendBe64(r, s.hash);
    FourWords(SegmentWords(s));
  }

  lemma FourWords(ws: seq<Word>)
    requires |ws| == 4
    ensures EncodeList(Be64, ws) == Be64(ws[0]) + Be64(ws[1]) + Be64(ws[2]) + Be64(ws[3])
  {
    hide Be64;
    assert ws[1..][1..] == ws[2..] && ws[2..][1..] == ws[3..] && ws[3..][1..] == [];
    assert EncodeList(Be64, ws[3..]) == Be64(ws[3]) + [];
    assert EncodeList(Be64, ws[2..]) == Be64(ws[2]) + EncodeList(Be64, ws[3..]);
    assert EncodeList(Be64, ws[1..]) == Be64(ws[1]) + EncodeList(Be64, ws[2..]);
  }

  method AppendSegments(out: ByteString, segments: seq<Segment>) returns (r: ByteString)
    ensures r == out + EncodeList(EncodeSegment, segments)
  {
    hide EncodeSegment;
    r := out;
    assert segments[..0] == [];
    for k := 0 to |segments|
      invariant r == out + EncodeList(EncodeSegment, segments[..k])
    {
      EncodeListOneMore(EncodeSegment, segments, k);
      r := AppendSegment(r, segments[k]);
    }
    assert segments[..|segments|] == segments;
  }

  method AppendCapabilities(out: ByteString, capabilities: seq<Capability>) returns (r: ByteString)
    ensures r == out + EncodeList(CapabilityBytes, capabilities)
  {
    hide CapabilityBytes;
    r := out;
    assert capabilities[..0] == [];
    for k := 0 to |capabilities|
      invariant r == out + EncodeList(CapabilityBytes, capabilities[..k])
    {
      EncodeListOneMore(CapabilityBytes, capabilities, k);
      r := r + CapabilityBytes(capabilities[k]);
    }
    assert capabilities[..|capabilities|] == capabilities;
  }

  method Canonicalise(m: Manifest) returns (out: ByteString)
    ensures out == Canonical(m)
  {
    hide EncodeText, Be32, EncodeList;
    out := AppendText([], m.version);
    out := AppendText(out, m.buildId);
    out := AppendBe32(out, |m.segments|);
    out := AppendSegments(out, m.segments);
    out := AppendBe32(out, |m.capabilities|);
    out := AppendCapabilities(out, m.capabilities);
  }

  // ---- The decoder ----

  function ReadKind(bs: ByteString): Option<Parsed<Kind>> {
    if bs == [] then None
    else
      match bs[0]
      case 0 => Some(Parsed(KindText, bs[1..]))
      case 1 => Some(Parsed(KindRodata, bs[1..]))
      case 2 => Some(Parsed(KindData, bs[1..]))
      case 3 => Some(Parsed(KindBss, bs[1..]))
      case _ => None
  }

  function ReadWord(bs: ByteString): Option<Parsed<Word>> {
    if |bs| < 8 then None
    else
      BigEndianOfBytes(bs[..8]);
      Powers();
      Some(Parsed(FromBigEndian(bs[..8]), bs[8..]))
  }

  function ReadSegment(bs: ByteString): Option<Parsed<Segment>> {
    match ReadText(bs)
    case None => None
    case Some(name) =>
      match ReadKind(name.rest)
      case None => None
      case Some(kind) =>
        match ReadList(ReadWord, 4, kind.rest)
        case None => None
        case Some(ws) =>
          if |ws.value| != 4 then None
          else
            var v := ws.value;
            Some(Parsed(Segment(kind.value, name.value, v[0], v[1], v[2], v[3]), ws.rest))
  }

  function RightsOf(low: Byte, high: Byte): bv16 {
    JoinBytes(Octet(low), Octet(high))
  }

  function CapabilityOf(bs: ByteString): Capability
    requires |bs| == 16
  {
    FieldWidths();
    LittleEndianOfBytes(bs[..6]);
    LittleEndianOfBytes(bs[8..10]);
    LittleEndianOfBytes(bs[10..]);
    Capability(FromLittleEndian(bs[..6]), RightsOf(bs[6], bs[7]), FromLittleEndian(bs[8..10]),
               FromLittleEndian(bs[10..]))
  }

  lemma FieldWidths()
    ensures Power256(2) == 0x1_0000 && Power256(6) == 0x1_0000_0000_0000
  {
    assert Power256(2) == 0x1_0000;
    assert Power256(4) == 0x1_0000_0000;
  }

  function ReadCapability(bs: ByteString): Option<Parsed<Capability>> {
    if |bs| < 16 then None else Some(Parsed(CapabilityOf(bs[..16]), bs[16..]))
  }

  function ReadManifest(bs: ByteString): Option<Parsed<Manifest>> {
    match ReadText(bs)
    case None => None
    case Some(version) =>
      match ReadText(version.rest)
      case None => None
      case Some(build) =>
        match ReadCounted(ReadSegment, build.rest)
        case None => None
        case Some(segments) =>
          match ReadCounted(ReadCapability, segments.rest)
          case None => None
          case Some(caps) =>
            Some(Parsed(Manifest(version.value, build.value, segments.value, caps.value), caps.rest))
  }

  /** Reads a manifest that makes up all of `bs`. */
  function Decode(bs: ByteString): Option<Manifest> {
    match ReadManifest(bs)
    case None => None
    case Some(m) => if m.rest == [] then Some(m.value) else None
  }

  // ---- Each reader inverts its writer ----

  lemma ReadKindIff(bs: ByteString, k: Kind, rest: ByteString)
    ensures ReadKind(bs) == Some(Parsed(k, rest)) <==> bs == [KindByte(k)] + rest
  {
    SplitUnique(bs, [KindByte(k)], rest);
    if bs != [] {
      assert bs == [bs[0]] + bs[1..];
    }
  }

  predicate AnyWord(w: Word) {
    true
  }

  predicate AnyCapability(c: Capability) {
    true
  }

  lemma WordsInvert()
    ensures Inverts(ReadWord, Be64, AnyWord)
  {
    hide BigEndian, FromBigEndian;
    Powers();
    forall bs: ByteString, w: Word, rest: ByteString
      ensures ReadWord(bs) == Some(Parsed(w, rest)) <==> bs == Be64(w) + rest
    {
      ReadNumberIff(bs, 8, w, rest);
    }
  }

  lemma ReadSegmentIff(bs: ByteString, s: Segment, rest: ByteString)
    ensures ReadSegment(bs) == Some(Parsed(s, rest)) <==> SegmentFits(s) && bs == EncodeSegment(s) + rest
  {
    hide ReadText, EncodeText, ReadKind, ReadWord, Be64, KindByte, ReadList, EncodeList;
    WordsInvert();
    var words := EncodeList(Be64, SegmentWords(s));
    var tail := [KindByte(s.kind)] + (words + rest);
    assert EncodeSegment(s) + rest == EncodeText(s.name) + tail;
    if ReadSegment(bs) == Some(Parsed(s, rest)) {
      var name := ReadText(bs).value;
      var kind := ReadKind(name.rest).value;
      var ws := ReadList(ReadWord, 4, kind.rest).value;
      ReadTextIff(bs, s.name, name.rest);
      ReadKindIff(name.rest, s.kind, kind.rest);
      ReadListIff(ReadWord, Be64, AnyWord, 4, kind.rest, ws.value, rest);
      assert ws.value == SegmentWords(s);
    }
    if SegmentFits(s) && bs == EncodeSegment(s) + rest {
      ReadTextIff(bs, s.name, tail);
      ReadKindIff(tail, s.kind, words + rest);
      ReadListIff(ReadWord, Be64, AnyWord, 4, words + rest, SegmentWords(s), rest);
    }
  }

  lemma JoinSplit(r: bv16)
    ensures JoinBytes(LowByte(r), HighByte(r)) == r
  {
  }

  lemma SplitJoin(low: bv8, high: bv8)
    ensures LowByte(JoinBytes(low, high)) == low && HighByte(JoinBytes(low, high)) == high
  {
  }

  lemma RightsIff(low: Byte, high: Byte, r: bv16)
    ensures RightsOf(low, high) == r <==> [low, high] == RightsBytes(r)
  {
    hide Octet, OctetNumber, LowByte, HighByte, JoinBytes;
    NumberOfOctet(low);
    NumberOfOctet(high);
    OctetOfNumber(LowByte(r));
    OctetOfNumber(HighByte(r));
    JoinSplit(r);
    SplitJoin(Octet(low), Octet(high));
    assert RightsBytes(r)[0] == OctetNumber(LowByte(r)) && RightsBytes(r)[1] == OctetNumber(HighByte(r));
  }

  lemma FieldIff(bs: ByteString, n: nat)
    requires n < Power256(|bs|)
    ensures FromLittleEndian(bs) == n <==> bs == LittleEndian(n, |bs|)
  {
    hide LittleEndian, FromLittleEndian;
    LittleEndianOfBytes(bs);
    LittleEndianRoundTrip(n, |bs|);
  }

  lemma FourParts(bs: ByteString, a: ByteString, b: ByteString, c: ByteString, d: ByteString)
    requires |bs| == 16 && |a| == 6 && |b| == 2 && |c| == 2 && |d| == 6
    ensures bs == a + b + c + d <==> bs[..6] == a && bs[6..8] == b && bs[8..10] == c && bs[10..] == d
  {
    assert bs == bs[..6] + bs[6..8] + bs[8..10] + bs[10..];
    if bs == a + b + c + d {
      assert (a + b + c + d)[..6] == a && (a + b + c + d)[6..8] == b && (a + b + c + d)[8..10] == c;
    }
  }

  lemma CapabilityIff(bs: ByteString, c: Capability)
    requires |bs| == 16
    ensures CapabilityOf(bs) == c <==> bs == CapabilityBytes(c)
  {
    hide LittleEndian, FromLittleEndian, RightsOf, RightsBytes;
    FieldWidths();
    FourParts(bs, LittleEndian(c.objectId, 6), RightsBytes(c.rights), LittleEndian(c.epoch, 2),
      LittleEndian(c.generation, 6));
    FieldIff(bs[..6], c.objectId);
    RightsIff(bs[6], bs[7], c.rights);
    assert bs[6..8] == [bs[6], bs[7]];
    FieldIff(bs[8..10], c.epoch);
    FieldIff(bs[10..], c.generation);
  }

  lemma ReadCapabilityIff(bs: ByteString, c: Capability, rest: ByteString)
    ensures ReadCapability(bs) == Some(Parsed(c, rest)) <==> bs == CapabilityBytes(c) + rest
  {
    hide CapabilityBytes, CapabilityOf;
    SplitUnique(bs, CapabilityBytes(c), rest);
    if |bs| >= 16 {
      CapabilityIff(bs[..16], c);
    }
  }

  lemma ReadersInvert()
    ensures Inverts(ReadSegment, EncodeSegment, SegmentFits)
    ensures Inverts(ReadCapability, CapabilityBytes, AnyCapability)
  {
    hide ReadSegment, EncodeSegment, SegmentFits, ReadCapability, CapabilityBytes;
    forall bs: ByteString, s: Segment, rest: ByteString
      ensures ReadSegment(bs) == Some(Parsed(s, rest)) <==> SegmentFits(s) && bs == EncodeSegment(s) + rest
    {
      ReadSegmentIff(bs, s, rest);
    }
    forall bs: ByteString, c: Capability, rest: ByteString
      ensures ReadCapability(bs) == Some(Parsed(c, rest)) <==> bs == CapabilityBytes(c) + rest
    {
      ReadCapabilityIff(bs, c, rest);
    }
  }

  /** The canonical bytes of `m` and `rest`, regrouped the way the reader meets them. */
  lemma CanonicalThen(m: Manifest, rest: ByteString)
    ensures Canonical(m) + rest
            == EncodeText(m.version) + (EncodeText(m.buildId)
               + (Be32(|m.segments|) + (EncodeList(EncodeSegment, m.segments)
               + (Be32(|m.capabilities|) + (EncodeList(CapabilityBytes, m.capabilities) + rest)))))
  {
    hide EncodeText, Be32, EncodeList;
  }

  /** The reader returns `m` and `rest` exactly on the canonical bytes of a fitting `m` followed by `rest`. */
  lemma ReadManifestIff(bs: ByteString, m: Manifest, rest: ByteString)
    ensures ReadManifest(bs) == Some(Parsed(m, rest)) <==> m.Fits() && bs == Canonical(m) + rest
  {
    hide ReadText, EncodeText, ReadCounted, Be32, EncodeList, Inverts, ReadSegment, ReadCapability, EncodeSegment,
      CapabilityBytes, SegmentFits, Canonical;
    ReadersInvert();
    CanonicalThen(m, rest);
    var caps := Be32(|m.capabilities|) + (EncodeList(CapabilityBytes, m.capabilities) + rest);
    var segments := Be32(|m.segments|) + (EncodeList(EncodeSegment, m.segments) + caps);
    if ReadManifest(bs) == Some(Parsed(m, rest)) {
      var version := ReadText(bs).value;
      var build := ReadText(version.rest).value;
      var segs := ReadCounted(ReadSegment, build.rest).value;
      ReadTextIff(bs, m.version, version.rest);
      ReadTextIff(version.rest, m.buildId, build.rest);
      ReadCountedIff(ReadSegment, EncodeSegment, SegmentFits, build.rest, m.segments, segs.rest);
      ReadCountedIff(ReadCapability, CapabilityBytes, AnyCapability, segs.rest, m.capabilities, rest);
    }
    if m.Fits() && bs == Canonical(m) + rest {
      ReadTextIff(bs, m.version, EncodeText(m.buildId) + segments);
      ReadTextIff(EncodeText(m.buildId) + segments, m.buildId, segments);
      ReadCountedIff(ReadSegment, EncodeSegment, SegmentFits, segments, m.segments, caps);
      ReadCountedIff(ReadCapability, CapabilityBytes, AnyCapability, caps, m.capabilities, rest);
    }
  }

  /** The decoder accepts `bs` as `m` exactly when `bs` is the canonical encoding of `m` and all lengths fit. */
  lemma DecodeIff(bs: ByteString, m: Manifest)
    ensures Decode(bs) == Some(m) <==> m.Fits() && bs == Canonical(m)
  {
    hide ReadManifest, Canonical;
    ReadManifestIff(bs, m, []);
    assert Canonical(m) + [] == Canonical(m);
  }

  lemma CanonicalInjective(a: Manifest, b: Manifest)
    requires a.Fits() && b.Fits() && Canonical(a) == Canonical(b)
    ensures a == b
  {
    DecodeIff(Canonical(a), a);
    DecodeIff(Canonical(a), b);
  }

  /** No canonical encoding begins another. */
  lemma CanonicalPrefixFree(a: Manifest, b: Manifest)
    requires a.Fits() && b.Fits() && Canonical(a) <= Canonical(b)
    ensures a == b
  {
    hide ReadManifest, Canonical;
    var x := Canonical(b)[|Canonical(a)|..];
    assert Canonical(b) == Canonical(a) + x && Canonical(b) == Canonical(b) + [];
    ReadManifestIff(Canonical(b), a, x);
    ReadManifestIff(Canonical(b), b, []);
  }

  // ---- Signing ----

  function Preimage(m: Manifest, root: Digest256): ByteString {
    root + Canonical(m)
  }

  /** The signed bytes determine both the trust root and the manifest. */
  lemma PreimageInjective(a: Manifest, r: Digest256, b: Manifest, s: Digest256)
    requires a.Fits() && b.Fits() && Preimage(a, r) == Preimage(b, s)
    ensures a == b && r == s
  {
    SplitUnique(Preimage(a, r), r, Canonical(a));
    SplitUnique(Preimage(a, r), s, Canonical(b));
    CanonicalInjective(a, b);
  }

  /** Nor do signed bytes begin others. */
  lemma PreimagePrefixFree(a: Manifest, r: Digest256, b: Manifest, s: Digest256)
    requires a.Fits() && b.Fits() && Preimage(a, r) <= Preimage(b, s)
    ensures a == b && r == s
  {
    hide Canonical;
    assert r == Preimage(a, r)[..32] == Preimage(b, s)[..32] == s;
    assert Canonical(a) == Preimage(a, r)[32..] && Canonical(b) == Preimage(b, s)[32..];
    CanonicalPrefixFree(a, b);
  }

  /** Different fitting manifests or roots are hashed from different inputs, even as the code pads them. */
  lemma PaddedPreimagesDiffer(a: Manifest, r: Digest256, b: Manifest, s: Digest256)
    requires a.Fits() && b.Fits() && PaddedInput(Preimage(a, r), 72) == PaddedInput(Preimage(b, s), 72)
    ensures a == b && r == s
  {
    hide PaddedInput, Preimage;
    SamePaddedInput(Preimage(a, r), Preimage(b, s));
    if Preimage(a, r) <= Preimage(b, s) {
      PreimagePrefixFree(a, r, b, s);
    } else {
      PreimagePrefixFree(b, s, a, r);
    }
  }

  function Signature(m: Manifest, root: Digest256): Digest512 {
    Sha3Of512(Preimage(m, root))
  }

  method Sign(m: Manifest, root: Digest256) returns (signature: Digest512)
    ensures signature == Signature(m, root) == Sha3Of512(root + Canonical(m))
  {
    hide Canonical, Sha3Of512;
    var bytes := Canonicalise(m);
    var preimage: ByteString := [];
    preimage := preimage + root;
    preimage := preimage + bytes;
    assert preimage == Preimage(m, root);
    signature := Hash512(preimage);
  }

  /** Where the signed bytes do not end one byte short of a block, the signature is their SHA3-512 of FIPS 202. */
  lemma SignatureIsFips(m: Manifest, root: Digest256)
    requires |root + Canonical(m)| % 72 != 71
    ensures BitsOf(Signature(m, root)) == F.Sha3_512(BitsOf(root + Canonical(m)))
  {
    hide BitsOf, Sha3Of512, F.Sha3_512, Canonical;
    HashesAreFips(root + Canonical(m));
  }

  method VerifySignature(m: Manifest, signature: Digest512, root: Digest256) returns (ok: bool)
    ensures ok <==> signature == Signature(m, root)
  {
    var expected := Sign(m, root);
    ok := expected == signature;
  }

  /**
   A signature made for one manifest and root is accepted for no other pair, unless the sponge itself gives one
   output for two different padded inputs.
   */
  lemma AcceptedMeansSignedOrCollision(signed: Manifest, r: Digest256, m: Manifest, s: Digest256)
    requires signed.Fits() && m.Fits() && Signature(signed, r) == Signature(m, s)
    ensures (m == signed && s == r) || SpongeCollision(Preimage(signed, r), Preimage(m, s), 64, 72)
  {
    hide Sha3Of512, SpongeCollision, PaddedInput, Preimage;
    EqualDigests(Preimage(signed, r), Preimage(m, s));
    if PaddedInput(Preimage(signed, r), 72) == PaddedInput(Preimage(m, s), 72) {
      PaddedPreimagesDiffer(signed, r, m, s);
    }
  }

  const HOST_SIGNING_SECRET: Text := "neuroverse-os-host-boot-secret"

  function TrustRootOf(passphrase: Text): Digest256 {
    Sha3Of256(TextBytes(passphrase))
  }

  method TrustRootFromPassphrase(passphrase: Text) returns (root: Digest256)
    ensures root == TrustRootOf(passphrase) == Sha3Of256(TextBytes(passphrase))
  {
    root := Hash256(TextBytes(passphrase));
  }

  lemma TextBytesInjective(p: Text, q: Text)
    ensures TextBytes(p) == TextBytes(q) <==> p == q
  {
    TextRoundTrip(p, []);
    TextRoundTrip(q, []);
  }

  /**
   Two passphrases give one trust root exactly when they are equal, or one is the other followed by the character
   6 and NULs up to one byte short of a block, or the sponge gives one output for their two different padded inputs.
   */
  lemma EqualRootsIff(p: Text, q: Text)
    ensures TrustRootOf(p) == TrustRootOf(q)
            <==> p == q
                 || PaddingTwins(TextBytes(p), TextBytes(q), 136) || PaddingTwins(TextBytes(q), TextBytes(p), 136)
                 || SpongeCollision(TextBytes(p), TextBytes(q), 32, 136)
  {
    hide Sum, PaddedInput, SpongeCollision, PaddingTwins, TextBytes;
    EqualSumsIff(TextBytes(p), TextBytes(q), 32, 136);
    SamePaddedInputIff(TextBytes(p), TextBytes(q), 136);
    TextBytesInjective(p, q);
  }

  /** The trust root of a passphrase that does not end one byte short of a block is its SHA3-256 of FIPS 202. */
  lemma TrustRootIsFips(passphrase: Text)
    requires |passphrase| % 136 != 135
    ensures BitsOf(TrustRootOf(passphrase)) == F.Sha3_256(BitsOf(TextBytes(passphrase)))
  {
    hide BitsOf, Sha3Of256, F.Sha3_256;
    HashesAreFips(TextBytes(passphrase));
  }

  method LoadSignedManifest(m: Manifest, signature: Digest512) returns (loaded: Option<Manifest>)
    ensures loaded == if signature == Signature(m, TrustRootOf(HOST_SIGNING_SECRET)) then Some(m) else None
  {
    hide TrustRootOf, Signature;
    var root := TrustRootFromPassphrase(HOST_SIGNING_SECRET);
    var ok := VerifySignature(m, signature, root);
    if ok {
      loaded := Some(m);
    } else {
      loaded := None;
    }
  }
}
