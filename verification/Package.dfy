/** Package manifests: the canonical encoding, its decoder, and verification against a store. */
module Package {
  import opened Encoding
  import opened Hashing
  import opened Wrappers

  datatype Entry = Entry(name: Text, digest: Digest512)

  datatype Manifest = Manifest(packageName: Text, version: Text, entries: seq<Entry>, trustedRoot: Option<Digest512>) {
    /** Lengths and counts survive the cast to 32 bits. */
    predicate Fits() {
      |packageName| < LENGTH_LIMIT && |version| < LENGTH_LIMIT && |entries| < LENGTH_LIMIT
      && forall e | e in entries :: EntryFits(e)
    }
  }

  predicate EntryFits(e: Entry) {
    |e.name| < LENGTH_LIMIT
  }

  function EncodeEntry(e: Entry): ByteString {
    EncodeText(e.name) + e.digest
  }

  function Canonical(m: Manifest): ByteString {
    EncodeText(m.packageName) + (EncodeText(m.version) + (Be32(|m.entries|) + EncodeList(EncodeEntry, m.entries)))
  }

  method AppendEntry(out: ByteString, e: Entry) returns (r: ByteString)
    ensures r == out + EncodeEntry(e)
  {
    hide EncodeText;
    r := AppendText(out, e.name);
    r := r + e.digest;
  }

  method Canonicalise(m: Manifest) returns (out: ByteString)
    ensures out == Canonical(m)
  {
    hide EncodeText, Be32, EncodeEntry, EncodeList;
    out := AppendText([], m.packageName);
    out := AppendText(out, m.version);
    out := AppendBe32(out, |m.entries|);
    ghost var header := out;
    EncodeNone(EncodeEntry, m.entries);
    for k := 0 to |m.entries|
      invariant out == header + EncodeList(EncodeEntry, m.entries[..k])
    {
      EncodeListOneMore(EncodeEntry, m.entries, k);
      out := AppendEntry(out, m.entries[k]);
    }
    assert m.entries[..|m.entries|] == m.entries;
  }

  // ---- The decoder ----

  function ReadEntry(bs: ByteString): Option<Parsed<Entry>> {
    match ReadText(bs)
    case None => None
    case Some(name) =>
      match ReadRaw(name.rest, 64)
      case None => None
      case Some(digest) => Some(Parsed(Entry(name.value, digest.value), digest.rest))
  }

  function ReadManifest(bs: ByteString): Option<Parsed<Manifest>> {
    match ReadText(bs)
    case None => None
    case Some(name) =>
      match ReadText(name.rest)
      case None => None
      case Some(version) =>
        match ReadCounted(ReadEntry, version.rest)
        case None => None
        case Some(entries) => Some(Parsed(Manifest(name.value, version.value, entries.value, None), entries.rest))
  }

  /** Reads a manifest that makes up all of `bs`. */
  function Decode(bs: ByteString): Option<Manifest> {
    match ReadManifest(bs)
    case None => None
    case Some(m) => if m.rest == [] then Some(m.value) else None
  }

  lemma ReadEntryIff(bs: ByteString, e: Entry, rest: ByteString)
    ensures ReadEntry(bs) == Some(Parsed(e, rest)) <==> EntryFits(e) && bs == EncodeEntry(e) + rest
  {
    hide ReadText, EncodeText, ReadRaw;
    Associate(EncodeText(e.name), e.digest, rest);
    ReadTextIff(bs, e.name, e.digest + rest);
    ReadRawIff(e.digest + rest, 64, e.digest, rest);
    if ReadEntry(bs) == Some(Parsed(e, rest)) {
      var name := ReadText(bs).value;
      ReadRawIff(name.rest, 64, e.digest, rest);
    }
  }

  lemma EntriesInvert()
    ensures Inverts(ReadEntry, EncodeEntry, EntryFits)
  {
    hide ReadEntry, EncodeEntry, EntryFits;
    forall bs: ByteString, e: Entry, rest: ByteString
      ensures ReadEntry(bs) == Some(Parsed(e, rest)) <==> EntryFits(e) && bs == EncodeEntry(e) + rest
    {
      ReadEntryIff(bs, e, rest);
    }
  }

  /** The canonical bytes of `m` and `rest`, regrouped the way the reader meets them. */
  lemma CanonicalThen(m: Manifest, rest: ByteString)
    ensures Canonical(m) + rest
            == EncodeText(m.packageName) + (EncodeText(m.version)
               + (Be32(|m.entries|) + (EncodeList(EncodeEntry, m.entries) + rest)))
  {
    hide EncodeText, Be32, EncodeList;
  }

  /** The reader returns `m` and `rest` exactly on the canonical bytes of a fitting `m` followed by `rest`. */
  lemma ReadManifestIff(bs: ByteString, m: Manifest, rest: ByteString)
    ensures ReadManifest(bs) == Some(Parsed(m, rest))
            <==> m.Fits() && m.trustedRoot == None && bs == Canonical(m) + rest
  {
    hide ReadText, EncodeText, ReadCounted, Be32, EncodeList, EncodeEntry, ReadEntry, EntryFits, Inverts, Canonical;
    EntriesInvert();
    CanonicalThen(m, rest);
    var body := Be32(|m.entries|) + (EncodeList(EncodeEntry, m.entries) + rest);
    if ReadManifest(bs) == Some(Parsed(m, rest)) {
      var name := ReadText(bs).value;
      var version := ReadText(name.rest).value;
      ReadTextIff(bs, m.packageName, name.rest);
      ReadTextIff(name.rest, m.version, version.rest);
      ReadCountedIff(ReadEntry, EncodeEntry, EntryFits, version.rest, m.entries, rest);
    }
    if m.Fits() && m.trustedRoot == None && bs == Canonical(m) + rest {
      ReadTextIff(bs, m.packageName, EncodeText(m.version) + body);
      ReadTextIff(EncodeText(m.version) + body, m.version, body);
      ReadCountedIff(ReadEntry, EncodeEntry, EntryFits, body, m.entries, rest);
    }
  }

  /**
   The decoder accepts a byte string as `m` exactly when it is the canonical encoding of `m` and every length
   in `m` fits 32 bits. The recorded root is not part of the encoding.
   */
  lemma DecodeIff(bs: ByteString, m: Manifest)
    ensures Decode(bs) == Some(m) <==> m.Fits() && m.trustedRoot == None && bs == Canonical(m)
  {
    hide ReadManifest, Canonical;
    ReadManifestIff(bs, m, []);
    assert Canonical(m) + [] == Canonical(m);
  }

  function WithoutRoot(m: Manifest): Manifest {
    Manifest(m.packageName, m.version, m.entries, None)
  }

  /** Equal but for the recorded root. */
  predicate SameContents(a: Manifest, b: Manifest) {
    a.packageName == b.packageName && a.version == b.version && a.entries == b.entries
  }

  lemma RootIsNotEncoded(m: Manifest)
    ensures Canonical(WithoutRoot(m)) == Canonical(m) && (m.Fits() <==> WithoutRoot(m).Fits())
  {
  }

  /** No canonical encoding begins another. */
  lemma CanonicalPrefixFree(a: Manifest, b: Manifest)
    requires a.Fits() && b.Fits() && Canonical(a) <= Canonical(b)
    ensures SameContents(a, b)
  {
    hide ReadManifest, Canonical, Manifest.Fits;
    RootIsNotEncoded(a);
    RootIsNotEncoded(b);
    var x := Canonical(b)[|Canonical(a)|..];
    assert Canonical(b) == Canonical(a) + x && Canonical(b) == Canonical(b) + [];
    ReadManifestIff(Canonical(b), WithoutRoot(a), x);
    ReadManifestIff(Canonical(b), WithoutRoot(b), []);
  }

  /** Equal canonical bytes mean equal manifests, up to the recorded root. */
  lemma CanonicalInjective(a: Manifest, b: Manifest)
    requires a.Fits() && b.Fits() && Canonical(a) == Canonical(b)
    ensures a.packageName == b.packageName && a.version == b.version && a.entries == b.entries
  {
    hide Canonical;
    CanonicalPrefixFree(a, b);
  }

  function Nulls(n: nat): Text {
    seq(n, _ => 0 as char)
  }

  /** Past 32 bits injectivity fails: a long run of NULs can be read as the name or as the version. */
  lemma WrappedLengthsCollide()
    ensures var a := Manifest(Nulls(LENGTH_LIMIT), [], [], None);
            var b := Manifest([], Nulls(LENGTH_LIMIT), [], None);
            a != b && Canonical(a) == Canonical(b)
  {
    var long := Nulls(LENGTH_LIMIT);
    var a, b := Manifest(long, [], [], None), Manifest([], long, [], None);
    assert |a.packageName| != |b.packageName|;
    FourBytes(0);
    assert Be32(0) == [0, 0, 0, 0] == Be32(LENGTH_LIMIT);
    assert EncodeText([]) == [0, 0, 0, 0];
    assert EncodeText(long) == [0, 0, 0, 0] + TextBytes(long);
    var zeros := TextBytes(long);
    assert forall b | b in zeros :: b == 0;
    assert Canonical(a) == ([0, 0, 0, 0] + zeros) + ([0, 0, 0, 0] + ([0, 0, 0, 0] + []));
    assert Canonical(b) == [0, 0, 0, 0] + (([0, 0, 0, 0] + zeros) + ([0, 0, 0, 0] + []));
    Commute(zeros);
  }

  lemma Commute(zeros: ByteString)
    requires forall b | b in zeros :: b == 0
    ensures ([0, 0, 0, 0] + zeros) + ([0, 0, 0, 0] + ([0, 0, 0, 0] + []))
            == [0, 0, 0, 0] + (([0, 0, 0, 0] + zeros) + ([0, 0, 0, 0] + []))
  {
    var four: ByteString := [0, 0, 0, 0];
    var left, right := (four + zeros) + (four + (four + [])), four + ((four + zeros) + (four + []));
    forall i | 0 <= i < |left| ensures left[i] == 0 == right[i] {
      assert left[i] in left && right[i] in right;
    }
  }

  // ---- Verification against a store ----

  function ContentRootOf(m: Manifest): Digest512 {
    Sha3Of512(Canonical(m))
  }

  method ContentRoot(m: Manifest) returns (d: Digest512)
    ensures d == ContentRootOf(m) == Sha3Of512(Canonical(m))
  {
    var bytes := Canonicalise(m);
    d := Hash512(bytes);
  }

  datatype Failure = MissingEntry(index: nat) | RootMismatch

  /** Why `m` fails against the digests of a store: its first missing entry, else a root that does not match. */
  method Verify(m: Manifest, store: set<Digest512>) returns (failure: Option<Failure>)
    ensures failure == None
            <==> (forall e | e in m.entries :: e.digest in store)
                 && (m.trustedRoot.Some? ==> m.trustedRoot.value == ContentRootOf(m))
    ensures forall k: nat | failure == Some(MissingEntry(k)) ::
              k < |m.entries| && m.entries[k].digest !in store
              && forall j | 0 <= j < k :: m.entries[j].digest in store
    ensures failure == Some(RootMismatch) ==> forall e | e in m.entries :: e.digest in store
  {
    hide ContentRootOf;
    for i := 0 to |m.entries|
      invariant forall j | 0 <= j < i :: m.entries[j].digest in store
    {
      if m.entries[i].digest !in store {
        return Some(MissingEntry(i));
      }
    }
    var local := ContentRoot(m);
    if m.trustedRoot.Some? && local != m.trustedRoot.value {
      return Some(RootMismatch);
    }
    return None;
  }

  /** Manifests with different contents are hashed from different inputs, even as the code pads them. */
  lemma PaddedEncodingsDiffer(a: Manifest, b: Manifest)
    requires a.Fits() && b.Fits() && PaddedInput(Canonical(a), 72) == PaddedInput(Canonical(b), 72)
    ensures SameContents(a, b)
  {
    hide PaddedInput, Canonical;
    SamePaddedInput(Canonical(a), Canonical(b));
    if Canonical(a) <= Canonical(b) {
      CanonicalPrefixFree(a, b);
    } else {
      CanonicalPrefixFree(b, a);
    }
  }

  /**
   A manifest that verifies against the root of `signed` has its contents, unless the sponge itself gives one
   output for two different padded inputs.
   */
  lemma VerifiedMeansSignedOrCollision(signed: Manifest, m: Manifest)
    requires signed.Fits() && m.Fits()
    requires ContentRootOf(m) == ContentRootOf(signed)
    ensures SameContents(m, signed) || SpongeCollision(Canonical(signed), Canonical(m), 64, 72)
  {
    hide Sha3Of512, Canonical, SpongeCollision, PaddedInput;
    EqualDigests(Canonical(signed), Canonical(m));
    if PaddedInput(Canonical(signed), 72) == PaddedInput(Canonical(m), 72) {
      PaddedEncodingsDiffer(signed, m);
    }
  }
}
