/** The text form of a boot manifest: the printer, the best-effort parser, and when they undo each other. */
module BootText {
  import opened Boot
  import opened Bytes
  import opened Encoding
  import opened Wrappers

  // ---- Library calls: find, to_string, stoull ----

  /** The first position of `c` in `s`, or the length of `s`. */
  function Find(s: Text, c: Char8): (k: nat)
    ensures k <= |s| && (k < |s| ==> s[k] == c)
    ensures c !in s[..k]
  {
    if s == [] || s[0] == c then 0
    else
      var k := Find(s[1..], c);
      assert s[..k + 1] == [s[0]] + s[1..][..k];
      k + 1
  }

  predicate IsDigit(c: Char8) {
    '0' <= c <= '9'
  }

  function DigitOf(n: nat): Char8
    requires n < 10
  {
    (48 + n) as char
  }

  function DigitValue(c: Char8): nat
    requires IsDigit(c)
  {
    c as int - 48
  }

  function Decimal(n: nat): Text {
    if n < 10 then [DigitOf(n)] else Decimal(n / 10) + [DigitOf(n % 10)]
  }

  predicate AllDigits(s: Text) {
    forall c | c in s :: IsDigit(c)
  }

  function Value(digits: Text): nat
    requires AllDigits(digits)
  {
    if digits == [] then 0 else 10 * Value(digits[..|digits| - 1]) + DigitValue(digits[|digits| - 1])
  }

  predicate IsSpace(c: Char8) {
    c == ' ' || 9 <= c as int <= 13
  }

  function SkipSpace(s: Text): Text {
    if s != [] && IsSpace(s[0]) then SkipSpace(s[1..]) else s
  }

  function DigitPrefix(s: Text): (d: Text)
    ensures AllDigits(d)
  {
    if s != [] && IsDigit(s[0]) then [s[0]] + DigitPrefix(s[1..]) else []
  }

  /** std::stoull in base ten: `None` for either exception. A minus sign negates modulo 2^64. */
  function Stoull(s: Text): Option<Word> {
    var t := SkipSpace(s);
    var signed := t != [] && (t[0] == '-' || t[0] == '+');
    var digits := DigitPrefix(if signed then t[1..] else t);
    if digits == [] || Value(digits) >= TWO_64 then None
    else Some(if signed && t[0] == '-' then Wrap(TWO_64 - Value(digits)) else Value(digits))
  }

  lemma {:induction false} DecimalDigits(n: nat)
    ensures Decimal(n) != [] && AllDigits(Decimal(n)) && Value(Decimal(n)) == n
  {
    if n < 10 {
      assert Decimal(n)[..0] == [];
    } else {
      DecimalDigits(n / 10);
      assert Decimal(n)[..|Decimal(n)| - 1] == Decimal(n / 10);
    }
  }

  lemma {:induction false} AllDigitPrefix(s: Text)
    requires AllDigits(s)
    ensures DigitPrefix(s) == s
  {
    if s != [] {
      AllDigitPrefix(s[1..]);
      assert s == [s[0]] + s[1..];
    }
  }

  lemma StoullOfDecimal(w: Word)
    ensures Stoull(Decimal(w)) == Some(w)
  {
    DecimalDigits(w);
    AllDigitPrefix(Decimal(w));
    assert Decimal(w)[0] in Decimal(w);
  }

  /** A run of digits is read as its value, or throws when that does not fit 64 bits. */
  lemma StoullOfDigits(s: Text)
    requires s != [] && AllDigits(s)
    ensures Stoull(s) == if Value(s) < TWO_64 then Some(Value(s)) else None
  {
    AllDigitPrefix(s);
    assert s[0] in s;
  }

  /** Without a digit, a sign or a space at its start a text throws. */
  lemma StoullThrows(s: Text)
    requires s == [] || !(IsDigit(s[0]) || IsSpace(s[0]) || s[0] == '-' || s[0] == '+')
    ensures Stoull(s) == None
  {
  }

  // ---- The printer ----

  function KindName(k: Kind): Text {
    match k
    case KindText => "text"
    case KindRodata => "rodata"
    case KindData => "data"
    case KindBss => "bss"
  }

  function SegmentFields(s: Segment): Text {
    KindName(s.kind) + " " + (s.name + " " + (Decimal(s.vaddr) + " " + (Decimal(s.memsz) + " "
      + (Decimal(s.filesz) + " " + Decimal(s.hash)))))
  }

  function SegmentLine(s: Segment): Text {
    "segment: " + SegmentFields(s)
  }

  function SegmentLines(ss: seq<Segment>): Text {
    if ss == [] then [] else SegmentLine(ss[0]) + "\n" + SegmentLines(ss[1..])
  }

  function CapabilityLines(n: nat): Text {
    if n == 0 then [] else "cap: cap\n" + CapabilityLines(n - 1)
  }

  function Printed(m: Manifest): Text {
    "version: " + m.version + "\n" + ("build:   " + m.buildId + "\n"
      + (SegmentLines(m.segments) + CapabilityLines(|m.capabilities|)))
  }

  lemma {:induction false} SegmentLinesOneMore(ss: seq<Segment>, k: nat)
    requires k < |ss|
    ensures SegmentLines(ss[..k + 1]) == SegmentLines(ss[..k]) + (SegmentLine(ss[k]) + "\n")
  {
    hide SegmentLine;
    if k == 0 {
      assert ss[..1][1..] == [];
    } else {
      assert ss[..k + 1][1..] == ss[1..][..k] && ss[..k][1..] == ss[1..][..k - 1];
      SegmentLinesOneMore(ss[1..], k - 1);
    }
  }

  lemma {:induction false} CapabilityLinesOneMore(n: nat)
    ensures CapabilityLines(n + 1) == CapabilityLines(n) + "cap: cap\n"
  {
    if n > 0 {
      CapabilityLinesOneMore(n - 1);
    }
  }

  lemma NoLines(ss: seq<Segment>)
    ensures SegmentLines(ss[..0]) == [] && CapabilityLines(0) == []
  {
  }

  method ToText(m: Manifest) returns (out: Text)
    ensures out == Printed(m)
  {
    hide SegmentLine, SegmentLines, CapabilityLines;
    out := "version: " + m.version + "\n";
    out := out + ("build:   " + m.buildId + "\n");
    ghost var header := out;
    NoLines(m.segments);
    for k := 0 to |m.segments|
      invariant out == header + SegmentLines(m.segments[..k])
    {
      SegmentLinesOneMore(m.segments, k);
      out := out + (SegmentLine(m.segments[k]) + "\n");
    }
    assert m.segments[..|m.segments|] == m.segments;
    for k := 0 to |m.capabilities|
      invariant out == header + SegmentLines(m.segments) + CapabilityLines(k)
    {
      CapabilityLinesOneMore(k);
      out := out + "cap: cap\n";
    }
  }

  // ---- The parser ----

  /** What parsing a line, or a text, comes to: a manifest so far, or an exception from a number. */
  datatype Progress = Going(manifest: Manifest) | Threw(manifest: Manifest)

  predicate IsBlank(c: Char8) {
    c == ' ' || c == '\t'
  }

  function Strip(s: Text): Text {
    if s != [] && IsBlank(s[0]) then Strip(s[1..]) else s
  }

  /** What follows a separator found at `k`, if there is one. */
  function After(s: Text, k: nat): Text
    requires k <= |s|
  {
    if k < |s| then s[k + 1..] else []
  }

  /** The field up to the next space, and what follows that space. */
  function Field(s: Text): Text {
    s[..Find(s, ' ')]
  }

  function Rest(s: Text): Text {
    After(s, Find(s, ' '))
  }

  /** An unknown kind stays at its default. */
  function KindOf(name: Text): Kind {
    if name == "rodata" then KindRodata
    else if name == "data" then KindData
    else if name == "bss" then KindBss
    else KindText
  }

  function ParseSegment(val: Text): Option<Segment> {
    var s1 := Rest(val);
    var s2 := Rest(s1);
    var s3 := Rest(s2);
    var s4 := Rest(s3);
    var s5 := Rest(s4);
    var (vaddr, memsz, filesz, hash) := (Stoull(Field(s2)), Stoull(Field(s3)), Stoull(Field(s4)), Stoull(Field(s5)));
    if vaddr.None? || memsz.None? || filesz.None? || hash.None? then None
    else Some(Segment(KindOf(Field(val)), Field(s1), vaddr.value, memsz.value, filesz.value, hash.value))
  }

  function ParseLine(line: Text, m: Manifest): Progress {
    var colon := Find(line, ':');
    if colon == |line| then Going(m)
    else
      var key, val := line[..colon], Strip(line[colon + 1..]);
      if key == "version" then Going(Manifest(val, m.buildId, m.segments, m.capabilities))
      else if key == "build" then Going(Manifest(m.version, val, m.segments, m.capabilities))
      else if key == "segment" then
        match ParseSegment(val)
        case None => Threw(m)
        case Some(s) => Going(Manifest(m.version, m.buildId, m.segments + [s], m.capabilities))
      else Going(m)
  }

  function ParseLines(s: Text, m: Manifest): Progress
    decreases |s|
  {
    if s == [] then Going(m)
    else
      var eol := Find(s, '\n');
      match ParseLine(s[..eol], m)
      case Threw(m1) => Threw(m1)
      case Going(m1) => ParseLines(After(s, eol), m1)
  }

  function Continue(p: Progress, rest: Text): Progress {
    if p.Threw? then p else ParseLines(rest, p.manifest)
  }

  const EMPTY: Manifest := Manifest([], [], [], [])

  /** The `substr`/`find` step of the field scanner, from position `p`. */
  method Next(val: Text, p: nat) returns (field: Text, q: nat)
    requires p <= |val|
    ensures p <= q <= |val| && field == Field(val[p..]) && val[q..] == Rest(val[p..])
  {
    var k := Find(val[p..], ' ');
    field := val[p..][..k];
    if p + k == |val| {
      q := |val|;
    } else {
      q := p + k + 1;
    }
  }

  /** What is still to be parsed at index `i`; skipping the last line's end may step past the text. */
  function From(s: Text, i: nat): Text {
    if i <= |s| then s[i..] else []
  }

  lemma FromEnds(s: Text)
    ensures From(s, 0) == s
  {
  }

  lemma NothingLeft(s: Text, i: nat, m: Manifest)
    requires |s| <= i
    ensures From(s, i) == [] && ParseLines([], m) == Going(m)
  {
  }

  lemma ParseStep(s: Text, i: nat, eol: nat, m: Manifest)
    requires i < |s| && eol == i + Find(s[i..], '\n')
    ensures eol <= |s|
    ensures ParseLines(From(s, i), m) == Continue(ParseLine(s[i..eol], m), From(s, eol + 1))
  {
    hide ParseLine;
    assert s[i..][..eol - i] == s[i..eol];
    assert After(s[i..], eol - i) == From(s, eol + 1);
  }

  /** Parses `s`. `threw` means an exception left the function, with `out` as filled so far. */
  method ParseText(s: Text) returns (threw: bool, ok: bool, out: Manifest)
    ensures ParseLines(s, EMPTY) == if threw then Threw(out) else Going(out)
    ensures !threw ==> (ok <==> out.version != [])
  {
    hide Find, ParseLine, ParseLines, From;
    out := EMPTY;
    threw, ok := false, false;
    var i := 0;
    FromEnds(s);
    while i < |s|
      invariant 0 <= i <= |s| + 1
      invariant ParseLines(s, EMPTY) == ParseLines(From(s, i), out)
      invariant !threw
      decreases |s| + 1 - i
    {
      var eol := i + Find(s[i..], '\n');
      var line := s[i..eol];
      ParseStep(s, i, eol, out);
      i := eol + 1;
      threw, out := TakeLine(line, out);
      if threw {
        return;
      }
    }
    NothingLeft(s, i, out);
    ok := out.version != [];
  }

  /** One turn of the parser's loop: the line's key decides what it sets. */
  method TakeLine(line: Text, m: Manifest) returns (failed: bool, out: Manifest)
    ensures ParseLine(line, m) == if failed then Threw(out) else Going(out)
  {
    hide Stoull;
    failed, out := false, m;
    if line == [] {
      return;
    }
    var colon := Find(line, ':');
    if colon == |line| {
      return;
    }
    var key, val := line[..colon], line[colon + 1..];
    var j := 0;
    assert val[0..] == val;
    while j < |val| && IsBlank(val[j])
      invariant j <= |val| && Strip(val) == Strip(val[j..])
    {
      j := j + 1;
    }
    val := val[j..];
    if key == "version" {
      out := Manifest(val, m.buildId, m.segments, m.capabilities);
    } else if key == "build" {
      out := Manifest(m.version, val, m.segments, m.capabilities);
    } else if key == "segment" {
      var seg := ReadFields(val);
      if seg.None? {
        failed := true;
      } else {
        out := Manifest(m.version, m.buildId, m.segments + [seg.value], m.capabilities);
      }
    }
  }

  /** The six fields of a segment line. */
  method ReadFields(val: Text) returns (seg: Option<Segment>)
    ensures seg == ParseSegment(val)
  {
    hide Field, Rest, Stoull, KindOf;
    assert val[0..] == val;
    var kind, p := Next(val, 0);
    var name, vaddr, memsz, filesz, hash;
    name, p := Next(val, p);
    vaddr, p := Next(val, p);
    memsz, p := Next(val, p);
    filesz, p := Next(val, p);
    hash, p := Next(val, p);
    var (v, m, f, h) := (Stoull(vaddr), Stoull(memsz), Stoull(filesz), Stoull(hash));
    if v.None? || m.None? || f.None? || h.None? {
      return None;
    }
    return Some(Segment(KindOf(kind), name, v.value, m.value, f.value, h.value));
  }

  // ---- When parsing undoes printing ----

  predicate NoLeadingBlank(s: Text) {
    s != [] ==> s[0] != ' ' && s[0] != '\t'
  }

  predicate OneLine(s: Text) {
    '\n' !in s
  }

  predicate CleanName(s: Text) {
    ' ' !in s && OneLine(s)
  }

  predicate CleanNames(ss: seq<Segment>) {
    forall s | s in ss :: CleanName(s.name)
  }

  /** No text of `m` is one that the separators would cut or strip. */
  predicate Clean(m: Manifest) {
    && OneLine(m.version) && NoLeadingBlank(m.version)
    && OneLine(m.buildId) && NoLeadingBlank(m.buildId)
    && CleanNames(m.segments)
  }

  /** What the text form can carry: clean texts and no capabilities. */
  predicate Printable(m: Manifest) {
    m.capabilities == [] && Clean(m)
  }

  lemma {:induction false} FindUnique(s: Text, c: Char8, k: nat)
    requires k <= |s| && c !in s[..k] && (k < |s| ==> s[k] == c)
    ensures Find(s, c) == k
  {
    if k > 0 {
      assert s[..k][0] == s[0] && s[..k][1..] == s[1..][..k - 1];
      FindUnique(s[1..], c, k - 1);
    }
  }

  lemma FindInPrefix(a: Text, c: Char8, rest: Text)
    requires c !in a
    ensures Find(a + [c] + rest, c) == |a|
    ensures Find(a, c) == |a|
  {
    var s := a + [c] + rest;
    assert s[..|a|] == a && a[..|a|] == a;
    FindUnique(s, c, |a|);
    FindUnique(a, c, |a|);
  }

  /** The first field of a list of fields. */
  lemma FieldOf(f: Text, rest: Text)
    requires ' ' !in f
    ensures Field(f + " " + rest) == f && Rest(f + " " + rest) == rest
    ensures Field(f) == f && Rest(f) == []
  {
    FindInPrefix(f, ' ', rest);
  }

  lemma DecimalIsAField(n: nat)
    ensures ' ' !in Decimal(n) && OneLine(Decimal(n))
  {
    DecimalDigits(n);
  }

  lemma SegmentRoundTrip(s: Segment)
    requires CleanName(s.name)
    ensures ParseSegment(SegmentFields(s)) == Some(s)
  {
    hide Field, Rest, Stoull, Decimal;
    StoullOfDecimal(s.vaddr);
    StoullOfDecimal(s.memsz);
    StoullOfDecimal(s.filesz);
    StoullOfDecimal(s.hash);
    DecimalIsAField(s.vaddr);
    DecimalIsAField(s.memsz);
    DecimalIsAField(s.filesz);
    DecimalIsAField(s.hash);
    var f5 := Decimal(s.hash);
    var f4 := Decimal(s.filesz) + " " + f5;
    var f3 := Decimal(s.memsz) + " " + f4;
    var f2 := Decimal(s.vaddr) + " " + f3;
    var f1 := s.name + " " + f2;
    FieldOf(f5, []);
    FieldOf(Decimal(s.filesz), f5);
    FieldOf(Decimal(s.memsz), f4);
    FieldOf(Decimal(s.vaddr), f3);
    FieldOf(s.name, f2);
    FieldOf(KindName(s.kind), f1);
    assert SegmentFields(s) == KindName(s.kind) + " " + f1;
  }

  lemma LineThenRest(line: Text, rest: Text, m: Manifest)
    requires OneLine(line)
    ensures ParseLines(line + "\n" + rest, m) == Continue(ParseLine(line, m), rest)
  {
    hide ParseLine;
    FindInPrefix(line, '\n', rest);
    var s := line + "\n" + rest;
    assert s[..|line|] == line && s[|line| + 1..] == rest;
  }

  lemma {:induction false} StripBlanks(n: nat, s: Text)
    requires NoLeadingBlank(s)
    ensures Strip(Blanks(n) + s) == s
  {
    if n == 0 {
      assert Blanks(0) + s == s;
    } else {
      StripBlanks(n - 1, s);
      assert (Blanks(n) + s)[1..] == Blanks(n - 1) + s;
    }
  }

  function Blanks(n: nat): Text {
    seq(n, _ => ' ')
  }

  /** A line splits at its first colon, and the blanks after that go. */
  lemma KeyAndValue(key: Text, n: nat, val: Text)
    requires ':' !in key && NoLeadingBlank(val)
    ensures var line := key + ":" + (Blanks(n) + val);
            Find(line, ':') == |key| && line[..|key|] == key && Strip(line[|key| + 1..]) == val
  {
    FindInPrefix(key, ':', Blanks(n) + val);
    StripBlanks(n, val);
    var line := key + ":" + (Blanks(n) + val);
    assert line[|key| + 1..] == Blanks(n) + val;
  }

  lemma VersionLine(v: Text, m: Manifest)
    requires NoLeadingBlank(v)
    ensures ParseLine("version: " + v, m) == Going(Manifest(v, m.buildId, m.segments, m.capabilities))
  {
    hide ParseSegment, Blanks, Find, Strip, NoLeadingBlank;
    KeyAndValue("version", 1, v);
    VersionPrefix(v);
  }

  lemma VersionPrefix(x: Text)
    ensures "version: " + x == "version" + ":" + (Blanks(1) + x)
  {
  }

  lemma BuildPrefix(x: Text)
    ensures "build:   " + x == "build" + ":" + (Blanks(3) + x)
  {
  }

  lemma BuildLine(b: Text, m: Manifest)
    requires NoLeadingBlank(b)
    ensures ParseLine("build:   " + b, m) == Going(Manifest(m.version, b, m.segments, m.capabilities))
  {
    hide ParseSegment, Blanks, Find, Strip, NoLeadingBlank;
    KeyAndValue("build", 3, b);
    BuildPrefix(b);
  }

  lemma FieldsStartWithLetter(s: Segment)
    ensures NoLeadingBlank(SegmentFields(s))
  {
    assert SegmentFields(s)[0] == KindName(s.kind)[0];
  }

  lemma SegmentPrefix(x: Text)
    ensures "segment: " + x == "segment" + ":" + (Blanks(1) + x)
  {
  }

  lemma SegmentLineParses(s: Segment, m: Manifest)
    requires CleanName(s.name)
    ensures ParseLine(SegmentLine(s), m) == Going(Manifest(m.version, m.buildId, m.segments + [s], m.capabilities))
  {
    hide ParseSegment, SegmentFields, Blanks, Find, Strip, NoLeadingBlank;
    FieldsStartWithLetter(s);
    SegmentRoundTrip(s);
    KeyAndValue("segment", 1, SegmentFields(s));
    SegmentPrefix(SegmentFields(s));
  }

  lemma SegmentIsOneLine(s: Segment)
    requires CleanName(s.name)
    ensures OneLine(SegmentLine(s))
  {
    hide Decimal;
    DecimalIsAField(s.vaddr);
    DecimalIsAField(s.memsz);
    DecimalIsAField(s.filesz);
    DecimalIsAField(s.hash);
  }

  lemma {:induction false} SegmentsParse(ss: seq<Segment>, rest: Text, m: Manifest)
    requires CleanNames(ss)
    ensures ParseLines(SegmentLines(ss) + rest, m)
            == ParseLines(rest, Manifest(m.version, m.buildId, m.segments + ss, m.capabilities))
    decreases ss
  {
    hide ParseLine, SegmentLine, ParseLines;
    if ss == [] {
      assert m.segments + [] == m.segments && SegmentLines([]) + rest == rest;
    } else {
      SegmentLineParses(ss[0], m);
      SegmentIsOneLine(ss[0]);
      var more := SegmentLines(ss[1..]) + rest;
      assert SegmentLines(ss) + rest == SegmentLine(ss[0]) + "\n" + more;
      LineThenRest(SegmentLine(ss[0]), more, m);
      SegmentsParse(ss[1..], rest, Manifest(m.version, m.buildId, m.segments + [ss[0]], m.capabilities));
      assert m.segments + [ss[0]] + ss[1..] == m.segments + ss;
    }
  }

  lemma CapabilityLine(m: Manifest)
    ensures OneLine("cap: cap") && ParseLine("cap: cap", m) == Going(m)
  {
    hide ParseSegment, Blanks, Find, Strip, NoLeadingBlank;
    CapIsClean();
    KeyAndValue("cap", 1, "cap");
    assert "cap: cap" == "cap" + ":" + (Blanks(1) + "cap") by { CapPrefix(); }
  }

  lemma CapIsClean()
    ensures NoLeadingBlank("cap")
  {
  }

  lemma CapPrefix()
    ensures "cap: cap" == "cap" + ":" + (Blanks(1) + "cap")
  {
  }

  /** Capability lines are skipped. */
  lemma {:induction false} CapabilitiesSkipped(n: nat, m: Manifest)
    ensures ParseLines(CapabilityLines(n), m) == Going(m)
  {
    hide ParseLine, ParseLines, CapabilityLines;
    if n == 0 {
      NoLines([]);
      NothingLeft([], 0, m);
    } else {
      CapabilityLine(m);
      CapabilityLinesFirst(n);
      LineThenRest("cap: cap", CapabilityLines(n - 1), m);
      CapabilitiesSkipped(n - 1, m);
    }
  }

  lemma CapabilityLinesFirst(n: nat)
    requires n > 0
    ensures CapabilityLines(n) == "cap: cap" + "\n" + CapabilityLines(n - 1)
  {
  }

  /** A line without a colon, or with a key that is none of the three, changes nothing wherever it stands. */
  lemma OtherLinesSkipped(key: Text, val: Text, rest: Text, m: Manifest)
    requires ':' !in key && OneLine(key) && OneLine(val)
    ensures ParseLines(key + "\n" + rest, m) == ParseLines(rest, m)
    ensures key !in {"version", "build", "segment"} ==>
              ParseLines(key + ":" + val + "\n" + rest, m) == ParseLines(rest, m)
  {
    hide ParseLines, ParseSegment, Find, Strip;
    LineThenRest(key, rest, m);
    LineThenRest(key + ":" + val, rest, m);
    FindInPrefix(key, ':', val);
    assert (key + ":" + val)[..|key|] == key;
  }

  lemma PrintedParses(m: Manifest)
    requires Clean(m)
    ensures ParseLines(Printed(m), EMPTY) == Going(m.(capabilities := []))
  {
    hide ParseLine, ParseLines, SegmentLines, CapabilityLines;
    var tail := SegmentLines(m.segments) + CapabilityLines(|m.capabilities|);
    var build := "build:   " + m.buildId + "\n" + tail;
    assert Printed(m) == "version: " + m.version + "\n" + build;
    VersionLine(m.version, EMPTY);
    LineThenRest("version: " + m.version, build, EMPTY);
    var m1 := Manifest(m.version, [], [], []);
    BuildLine(m.buildId, m1);
    LineThenRest("build:   " + m.buildId, tail, m1);
    SegmentsParse(m.segments, CapabilityLines(|m.capabilities|), Manifest(m.version, m.buildId, [], []));
    assert [] + m.segments == m.segments;
    CapabilitiesSkipped(|m.capabilities|, m.(capabilities := []));
  }

  lemma {:induction false} StripIsSuffix(s: Text)
    ensures NoLeadingBlank(Strip(s)) && forall c | c in Strip(s) :: c in s
  {
    if s != [] && IsBlank(s[0]) {
      StripIsSuffix(s[1..]);
    }
  }

  lemma FieldIsClean(s: Text)
    requires OneLine(s)
    ensures CleanName(Field(s)) && OneLine(Rest(s))
  {
  }

  lemma ParseLineKeepsPrintable(line: Text, m: Manifest)
    requires OneLine(line) && Printable(m)
    ensures Printable(ParseLine(line, m).manifest)
  {
    hide Stoull, Field, Rest;
    var colon := Find(line, ':');
    if colon < |line| {
      StripIsSuffix(line[colon + 1..]);
      var val := Strip(line[colon + 1..]);
      FieldIsClean(val);
      FieldIsClean(Rest(val));
    }
  }

  /** The parser only ever produces manifests that the text form can carry. */
  lemma {:induction false} ParseYieldsPrintable(s: Text, m: Manifest)
    requires Printable(m)
    ensures Printable(ParseLines(s, m).manifest)
    decreases |s|
  {
    hide ParseLine, Printable;
    if s != [] {
      var eol := Find(s, '\n');
      ParseLineKeepsPrintable(s[..eol], m);
      var p := ParseLine(s[..eol], m);
      if p.Going? {
        ParseYieldsPrintable(After(s, eol), p.manifest);
      }
    }
  }

  lemma EmptyIsPrintable()
    ensures Printable(EMPTY)
  {
  }

  /**
   Parsing the printed text of any manifest gives it back without its capabilities, which the text only counts,
   exactly when its texts survive the separators.
   */
  lemma CleanRoundTripIff(m: Manifest)
    ensures ParseLines(Printed(m), EMPTY) == Going(m.(capabilities := [])) <==> Clean(m)
  {
    hide Clean, ParseLines, Printed;
    if Clean(m) {
      PrintedParses(m);
    }
    EmptyIsPrintable();
    ParseYieldsPrintable(Printed(m), EMPTY);
    CleanWithoutCapabilities(m);
  }

  lemma CleanWithoutCapabilities(m: Manifest)
    ensures Clean(m.(capabilities := [])) <==> Clean(m)
  {
  }

  /**
   Parsing the printed text reports success and gives the manifest back exactly when its version is not empty
   and its texts survive the separators.
   */
  lemma TextRoundTripIff(m: Manifest)
    ensures ParseLines(Printed(m), EMPTY) == Going(m) && m.version != [] <==> Printable(m) && m.version != []
  {
    hide Clean, ParseLines, Printed;
    CleanRoundTripIff(m);
    EmptyIsPrintable();
    ParseYieldsPrintable(Printed(m), EMPTY);
  }

  /** The same about the printer and the parser run one after the other. */
  method PrintThenParse(m: Manifest) returns (same: bool)
    ensures same <==> Printable(m) && m.version != []
  {
    var text := ToText(m);
    var threw, ok, back := ParseText(text);
    TextRoundTripIff(m);
    same := !threw && ok && back == m;
  }
}
