/**
 The streaming hashers: a rate-sized buffer in front of the sponge, finalised once and then squeezed.
 */
module Sha3 {
  import opened Arithmetic
  import opened Keccak
  import opened Sponge

  /** The sponge state from which a hasher that was fed `m` squeezes. */
  function FinalState(m: Bytes, f: Suffix, rate: nat): State
    requires 0 < rate <= STATE_BYTES
  {
    Absorb(ZeroState(), CodePadded(m, f, rate), rate)
  }

  /** The first `d` bytes of output for message `m`. */
  function Digest(m: Bytes, f: Suffix, d: nat, rate: nat): (z: Bytes)
    requires 0 < rate <= STATE_BYTES
    ensures |z| == d
  {
    Stream(FinalState(m, f, rate), 0, d, rate)
  }

  /** The digest that FIPS 202 specifies, for every message that does not end one byte short of a block. */
  lemma DigestIsStandard(m: Bytes, f: Suffix, d: nat, rate: nat)
    requires 0 < rate <= STATE_BYTES && |m| % rate != rate - 1
    ensures Digest(m, f, d, rate) == Output(FipsPadded(m, f, rate), d, rate)
    ensures BitsOf(FipsPadded(m, f, rate)) == PaddedBits(m, f, rate)
  {
    hide Stream, Absorb, CodePadded, FipsPadded, PaddedBits, BitsOf;
    PaddingConformsIff(m, f, rate);
    FipsPaddedIsStandard(m, f, rate);
  }

  /** The output for `m` is the sponge's on the input as the code pads it. */
  lemma DigestIsOutput(m: Bytes, f: Suffix, d: nat, rate: nat)
    requires 0 < rate <= STATE_BYTES
    ensures Digest(m, f, d, rate) == Output(CodePadded(m, f, rate), d, rate)
  {
  }

  /** Every message that ends two or more bytes short of a block shares its digest with a longer one. */
  lemma TwinDigests(m: Bytes, f: Suffix, d: nat, rate: nat)
    requires 0 < rate <= STATE_BYTES && |m| % rate < rate - 1
    ensures PadTwin(m, f, rate) != m && Digest(PadTwin(m, f, rate), f, d, rate) == Digest(m, f, d, rate)
  {
    hide Absorb, Stream, CodePadded;
    CodePaddedEqualIff(m, PadTwin(m, f, rate), f, rate);
    assert |PadTwin(m, f, rate)| > |m|;
  }

  // ---- The two loops over state bytes ----

  /** XORs a rate block into the state, byte by byte, and permutes. */
  method AbsorbInto(input: State, data: Bytes) returns (state: State)
    requires |data| <= STATE_BYTES
    ensures state == AbsorbBlock(input, data)
  {
    hide KeccakF, Place, Xor;
    state := input;
    for i := 0 to |data|
      invariant state == XorBytes(input, data, i)
    {
      var lane, byte := i / 8, i % 8;
      var mask := Place(data[i], byte);
      state := state[lane := Xor(state[lane], mask)];
    }
    state := KeccakF1600(state);
  }

  /** Copies the first `n` bytes of the state string out. */
  method SqueezeInto(state: State, out: array<bv8>, n: nat)
    requires n <= out.Length && n <= STATE_BYTES
    modifies out
    ensures forall i | 0 <= i < n :: out[i] == StateByte(state, i)
    ensures out[n..] == old(out[n..])
  {
    hide Pick;
    for i := 0 to n
      invariant forall k | 0 <= k < i :: out[k] == StateByte(state, k)
      invariant out[n..] == old(out[n..])
    {
      var lane, byte := i / 8, i % 8;
      out[i] := Pick(state[lane], byte);
    }
  }

  method CopyInto(dst: array<bv8>, at: nat, src: Bytes)
    requires at + |src| <= dst.Length
    modifies dst
    ensures dst[..at] == old(dst[..at]) && dst[at..at + |src|] == src
    ensures dst[at + |src|..] == old(dst[at + |src|..])
  {
    forall k | 0 <= k < |src| {
      dst[at + k] := src[k];
    }
  }

  // ---- What absorbing a little more does ----

  lemma AppendToTail(m: Bytes, x: Bytes, rate: nat)
    requires 0 < rate <= STATE_BYTES && |Tail(m, rate)| + |x| < rate
    ensures Absorb(ZeroState(), m + x, rate) == Absorb(ZeroState(), m, rate)
    ensures Tail(m + x, rate) == Tail(m, rate) + x
  {
    hide AbsorbBlock;
    AbsorbMore(ZeroState(), m, x, rate);
  }

  lemma CompleteBlock(m: Bytes, x: Bytes, rate: nat)
    requires 0 < rate <= STATE_BYTES && |Tail(m, rate)| + |x| == rate
    ensures Absorb(ZeroState(), m + x, rate) == AbsorbBlock(Absorb(ZeroState(), m, rate), Tail(m, rate) + x)
    ensures Tail(m + x, rate) == []
  {
    hide AbsorbBlock;
    AbsorbMore(ZeroState(), m, x, rate);
    var block := Tail(m, rate) + x;
    assert block == block + [];
    AbsorbOne(Absorb(ZeroState(), m, rate), block, [], rate);
  }

  lemma WholeStep(m: Bytes, block: Bytes, rate: nat)
    requires 0 < rate <= |m|
    ensures Whole(m, rate) + block == m[..rate] + (Whole(m[rate..], rate) + block)
  {
    var t := |m| - |Tail(m, rate)|;
    assert m[..t] == m[..rate] + m[rate..][..t - rate];
  }

  lemma {:induction false} WholeBlocks(s: State, m: Bytes, block: Bytes, rate: nat)
    requires 0 < rate <= STATE_BYTES && |block| == rate
    ensures Absorb(s, Whole(m, rate) + block, rate) == AbsorbBlock(Absorb(s, m, rate), block)
    decreases |m|
  {
    hide AbsorbBlock;
    if |m| < rate {
      assert Whole(m, rate) + block == block + [];
      AbsorbOne(s, block, [], rate);
    } else {
      WholeBlocks(AbsorbBlock(s, m[..rate]), m[rate..], block, rate);
      WholeStep(m, block, rate);
      AbsorbOne(s, m[..rate], Whole(m[rate..], rate) + block, rate);
    }
  }

  /** Absorbing the code's last block after the whole ones is absorbing the padded message. */
  lemma LastBlock(m: Bytes, f: Suffix, rate: nat)
    requires 0 < rate <= STATE_BYTES
    ensures AbsorbBlock(Absorb(ZeroState(), m, rate), CodeBlock(Tail(m, rate), f, rate)) == FinalState(m, f, rate)
  {
    hide AbsorbBlock, CodeBlock;
    WholeBlocks(ZeroState(), m, CodeBlock(Tail(m, rate), f, rate), rate);
  }

  /** The two writes after clearing the rest of the buffer leave the code's last block in it. */
  lemma BlockInBuffer(b: Bytes, tail: Bytes, f: Suffix, rate: nat)
    requires |b| == rate && |tail| < rate && b[..|tail|] == tail && b[|tail|..] == Zeros(rate - |tail|)
    ensures b[|tail| := f.Code()][rate - 1 := 0x80] == CodeBlock(tail, f, rate)
  {
    hide Suffix.Code;
    var c := f.Code();
    assert b == tail + Zeros(rate - |tail|);
    assert Zeros(rate - |tail|)[0 := c] == [c] + Zeros(rate - |tail| - 1);
    assert b[|tail| := c] == tail + [c] + Zeros(rate - |tail| - 1);
  }

  lemma JoinSlices(m: Bytes, data: Bytes, from: nat, p: nat, q: nat)
    requires from <= p <= q <= |data|
    ensures m + data[from..p] + data[p..q] == m + data[from..q]
    ensures data[p..|data|] == data[p..] && data[0..p] == data[..p] && data[0..q] == data[..q]
    ensures data[0..|data|] == data && m + [] == m && data[p..p] == []
  {
  }

  // ---- Squeezing within a block ----

  /** The stretch of output that the current block still holds. */
  lemma StreamInBlock(s: State, from: nat, n: nat, rate: nat)
    requires 0 < rate <= STATE_BYTES && Squeezed(s, from, rate).pos + n <= rate
    ensures var c := Squeezed(s, from, rate);
            forall i | c.pos <= i < c.pos + n :: StateByte(c.state, i) == StreamByte(s, from + (i - c.pos), rate)
  {
    hide StateByte, KeccakF, Squeezed;
    var c := Squeezed(s, from, rate);
    forall i | c.pos <= i < c.pos + n
      ensures StateByte(c.state, i) == StreamByte(s, from + (i - c.pos), rate)
    {
      SqueezedWithin(s, from, i - c.pos, rate);
    }
  }

  lemma StreamNone(s: State, from: nat, rate: nat)
    requires 0 < rate <= STATE_BYTES
    ensures Stream(s, from, 0, rate) == []
  {
  }

  /** Where the cursor stands after them. */
  lemma CursorAfter(s: State, from: nat, n: nat, rate: nat)
    requires 0 < rate && Squeezed(s, from, rate).pos + n <= rate
    ensures var c := Squeezed(s, from, rate);
            Squeezed(s, from + n, rate)
            == if c.pos + n == rate then Cursor(KeccakF(c.state), 0) else Cursor(c.state, c.pos + n)
  {
    hide KeccakF;
    var c := Squeezed(s, from, rate);
    if c.pos + n < rate {
      SqueezedWithin(s, from, n, rate);
    } else {
      SqueezedWithin(s, from, n - 1, rate);
      assert from + n - 1 == from + (n - 1);
    }
  }

  /** Whether every copy of a squeeze of `n` bytes from position `pos` stays inside the scratch block. */
  predicate CopiesInBounds(pos: nat, n: nat, rate: nat)
    requires pos < rate
    decreases n
  {
    n == 0
    || var take := Min(rate, n);
       pos + take <= rate && CopiesInBounds(if pos + take == rate then 0 else pos + take, n - take, rate)
  }

  lemma {:induction false} InBoundsFromBlockStart(n: nat, rate: nat)
    requires rate > 0
    ensures CopiesInBounds(0, n, rate)
    decreases n
  {
    if n > rate {
      InBoundsFromBlockStart(n - rate, rate);
    }
  }

  /**
   The copy length is capped by the rate and not by what is left of the block, so a squeeze stays in bounds
   exactly when it starts on a block boundary or ends within the current block.
   */
  lemma InBoundsIff(pos: nat, n: nat, rate: nat)
    requires pos < rate
    ensures CopiesInBounds(pos, n, rate) <==> pos == 0 || pos + n <= rate
  {
    if pos == 0 {
      InBoundsFromBlockStart(n, rate);
    }
  }

  /** After `n` bytes of output the position is what is left of `n` over whole blocks. */
  lemma PositionAfter(s: State, n: nat, rate: nat)
    requires 0 < rate <= STATE_BYTES
    ensures Squeezed(s, n, rate).pos == n % rate
  {
    hide Squeezed, Permuted, StreamByte, StateByte;
    DivModSplit(n, rate);
    StreamIsSponge(s, n / rate, n % rate, rate);
  }

  /** The output of consecutive squeezes of the given lengths. */
  function Pieces(s: State, from: nat, counts: seq<nat>, rate: nat): Bytes
    requires 0 < rate <= STATE_BYTES
    decreases counts
  {
    if counts == [] then [] else Stream(s, from, counts[0], rate) + Pieces(s, from + counts[0], counts[1..], rate)
  }

  function Total(counts: seq<nat>): nat {
    if counts == [] then 0 else counts[0] + Total(counts[1..])
  }

  /** Any series of squeezes yields one squeeze of the total length. */
  lemma {:induction false} PiecesAreOneStream(s: State, from: nat, counts: seq<nat>, rate: nat)
    requires 0 < rate <= STATE_BYTES
    ensures Pieces(s, from, counts, rate) == Stream(s, from, Total(counts), rate)
    decreases counts
  {
    hide StreamByte;
    if counts != [] {
      PiecesAreOneStream(s, from + counts[0], counts[1..], rate);
      StreamConcat(s, from, counts[0], Total(counts[1..]), rate);
    }
  }

  function Concat(chunks: seq<Bytes>): Bytes {
    if chunks == [] then [] else chunks[0] + Concat(chunks[1..])
  }

  lemma {:induction false} ConcatOneMore(chunks: seq<Bytes>, k: nat)
    requires k < |chunks|
    ensures Concat(chunks[..k + 1]) == Concat(chunks[..k]) + chunks[k]
  {
    if k > 0 {
      ConcatOneMore(chunks[1..], k - 1);
      assert chunks[..k + 1][1..] == chunks[1..][..k] && chunks[..k][1..] == chunks[1..][..k - 1];
    } else {
      assert chunks[..1][1..] == [];
    }
  }

  /**
   A hasher: Sha3T when `suffix` is the SHA-3 one, Shake when it is the SHAKE one. The ghost fields record
   what was absorbed since the last reset and how much was squeezed.
   */
  class Hasher {
    const rate: nat
    const suffix: Suffix
    const buf: array<bv8>
    var state: State
    var buffered: nat
    var absorbPos: nat
    var finalized: bool
    ghost var absorbed: Bytes
    ghost var squeezed: nat

    /**
     While absorbing, the state is the fold of the whole blocks seen and the buffer holds the rest; once
     finalised, state and position are the cursor of the output stream.
     */
    ghost predicate Valid()
      reads this, buf
    {
      && 0 < rate <= STATE_BYTES
      && buf.Length == rate
      && (suffix == Sha3Suffix ==> squeezed == 0)
      && (if finalized then
            Cursor(state, absorbPos) == Squeezed(FinalState(absorbed, suffix, rate), squeezed, rate)
          else
            && squeezed == 0
            && state == Sponge.Absorb(ZeroState(), absorbed, rate)
            && buffered <= rate
            && buf[..buffered] == Tail(absorbed, rate))
    }

    constructor (rate: nat, suffix: Suffix)
      requires 0 < rate <= STATE_BYTES
      ensures Valid() && fresh(buf) && this.rate == rate && this.suffix == suffix
      ensures !finalized && absorbed == [] && squeezed == 0
    {
      this.rate := rate;
      this.suffix := suffix;
      buf := new bv8[rate](_ => 0);
      state := ZeroState();
      buffered := 0;
      absorbPos := 0;
      finalized := false;
      absorbed := [];
      squeezed := 0;
    }

    lemma ValidRate()
      requires Valid()
      ensures 0 < rate
    {
    }

    /** Starts over. `absorbPos` keeps its value: finalising sets it. */
    method Reset()
      requires Valid()
      modifies this
      ensures Valid() && !finalized && absorbed == [] && squeezed == 0
    {
      state := ZeroState();
      buffered := 0;
      finalized := false;
      absorbed := [];
      squeezed := 0;
    }

    /** Tops a part-filled buffer up from `data`, and absorbs it if that completes a block. */
    method FillBuffer(data: Bytes) returns (take: nat)
      requires Valid() && !finalized && 0 < buffered < rate
      modifies this, buf
      ensures Valid() && !finalized && take <= |data| && buffered < rate
      ensures absorbed == old(absorbed) + data[..take]
      ensures take == |data| || buffered == 0
    {
      hide AbsorbBlock, Sponge.Absorb, Tail, Squeezed, FinalState;
      take := Min(rate - buffered, |data|);
      CopyInto(buf, buffered, data[..take]);
      if buffered + take == rate {
        CompleteBlock(absorbed, data[..take], rate);
      } else {
        AppendToTail(absorbed, data[..take], rate);
      }
      assert buf[..buffered + take] == Tail(absorbed, rate) + data[..take];
      buffered := buffered + take;
      absorbed := absorbed + data[..take];
      if buffered == rate {
        assert buf[..] == buf[..buffered];
        state := AbsorbInto(state, buf[..]);
        buffered := 0;
      }
    }

    /** Absorbs one whole block straight from the input. */
    method AbsorbWhole(block: Bytes)
      requires Valid() && !finalized && buffered == 0 && |block| == rate
      modifies `state, `absorbed
      ensures Valid() && absorbed == old(absorbed) + block
    {
      hide AbsorbBlock, Sponge.Absorb, Tail, Squeezed, FinalState;
      state := AbsorbInto(state, block);
      assert Tail(absorbed, rate) + block == block;
      CompleteBlock(absorbed, block, rate);
      absorbed := absorbed + block;
    }

    /** Keeps what is left, less than a block, in the buffer. */
    method KeepRest(rest: Bytes)
      requires Valid() && !finalized && buffered + |rest| < rate
      modifies `buffered, `absorbed, buf
      ensures Valid() && absorbed == old(absorbed) + rest
    {
      hide AbsorbBlock, Sponge.Absorb, Tail, Squeezed, FinalState;
      CopyInto(buf, buffered, rest);
      AppendToTail(absorbed, rest, rate);
      assert buf[..buffered + |rest|] == Tail(absorbed, rate) + rest;
      buffered := buffered + |rest|;
      absorbed := absorbed + rest;
    }

    /** Absorbs the whole blocks of `data` from position `from` on; fewer than `rate` bytes are left. */
    method AbsorbBlocks(data: Bytes, from: nat) returns (p: nat)
      requires Valid() && !finalized && from <= |data|
      requires buffered == 0 || from == |data|
      modifies `state, `absorbed
      ensures Valid() && from <= p <= |data| && absorbed == old(absorbed) + data[from..p]
      ensures p == |data| || |data| - p < rate
    {
      hide Valid;
      ValidRate();
      p := from;
      JoinSlices(absorbed, data, from, from, from);
      while |data| - p >= rate
        invariant Valid() && from <= p <= |data|
        invariant absorbed == old(absorbed) + data[from..p]
      {
        AbsorbWhole(data[p..p + rate]);
        JoinSlices(old(absorbed), data, from, p, p + rate);
        p := p + rate;
      }
    }

    /** Feeds `data` in; a finalised hasher ignores it. */
    method Absorb(data: Bytes)
      requires Valid()
      modifies this, buf
      ensures Valid() && finalized == old(finalized) && squeezed == old(squeezed)
      ensures absorbed == if finalized then old(absorbed) else old(absorbed) + data
    {
      hide Sponge.Absorb, Squeezed, FinalState, Tail;
      if finalized {
        return;
      }
      ghost var m := absorbed;
      var p := 0;
      if buffered > 0 {
        p := FillBuffer(data);
      }
      var q := AbsorbBlocks(data, p);
      JoinSlices(m, data, 0, p, q);
      if q < |data| {
        KeepRest(data[q..]);
      }
      JoinSlices(m, data, 0, q, |data|);
    }

    /** Pads the last block in place and absorbs it, once. */
    method Finish()
      requires Valid()
      modifies this, buf
      ensures Valid() && finalized && absorbed == old(absorbed) && squeezed == old(squeezed)
      ensures !old(finalized) ==> absorbPos == 0
      ensures old(finalized) ==> state == old(state) && absorbPos == old(absorbPos)
    {
      hide AbsorbBlock, Sponge.Absorb, FinalState, Tail, Zeros, CodeBlock, KeccakF;
      if !finalized {
        ghost var tail := Tail(absorbed, rate);
        assert |tail| == |buf[..buffered]| == buffered;
        ZerosLength(rate - buffered);
        CopyInto(buf, buffered, Zeros(rate - buffered));
        ghost var cleared := buf[..];
        assert cleared[..buffered] == tail && cleared[buffered..] == Zeros(rate - buffered);
        BlockInBuffer(cleared, tail, suffix, rate);
        buf[buffered] := suffix.Code();
        buf[rate - 1] := 0x80;
        assert buf[..] == cleared[buffered := suffix.Code()][rate - 1 := 0x80];
        state := AbsorbInto(state, buf[..]);
        LastBlock(absorbed, suffix, rate);
        buffered := 0;
        absorbPos := 0;
        finalized := true;
      }
    }

    /** The digest of everything absorbed; asking again gives it again. */
    method Final(outputBytes: nat) returns (digest: Bytes)
      requires Valid() && suffix == Sha3Suffix && outputBytes <= rate
      modifies this, buf
      ensures Valid() && finalized && absorbed == old(absorbed)
      ensures digest == Digest(absorbed, suffix, outputBytes, rate)
    {
      hide AbsorbBlock, Sponge.Absorb, FinalState, StateByte, StreamByte;
      Finish();
      var scratch := new bv8[rate];
      SqueezeInto(state, scratch, rate);
      digest := scratch[..outputBytes];
      StreamInBlock(FinalState(absorbed, suffix, rate), 0, outputBytes, rate);
    }

    /** Copies `take` bytes out of the current block, and permutes once it is used up. */
    method SqueezePiece(scratch: array<bv8>, take: nat, ghost s: State, ghost from: nat) returns (piece: Bytes)
      requires 0 < rate <= STATE_BYTES && scratch.Length == rate
      requires Cursor(state, absorbPos) == Squeezed(s, from, rate) && absorbPos + take <= rate
      modifies `state, `absorbPos, scratch
      ensures Cursor(state, absorbPos) == Squeezed(s, from + take, rate)
      ensures absorbPos == if old(absorbPos) + take == rate then 0 else old(absorbPos) + take
      ensures piece == Stream(s, from, take, rate)
    {
      hide StateByte, StreamByte, Squeezed, KeccakF;
      SqueezeInto(state, scratch, rate);
      CursorAfter(s, from, take, rate);
      StreamInBlock(s, from, take, rate);
      piece := scratch[absorbPos..absorbPos + take];
      absorbPos := absorbPos + take;
      if absorbPos == rate {
        absorbPos := 0;
        state := KeccakF1600(state);
      }
    }

    /** The next `n` bytes of output. */
    method SqueezeBytes(n: nat) returns (out: Bytes)
      requires Valid() && suffix == ShakeSuffix
      requires finalized ==> absorbPos == 0 || absorbPos + n <= rate
      modifies this, buf
      ensures Valid() && finalized && absorbed == old(absorbed) && squeezed == old(squeezed) + n
      ensures out == Stream(FinalState(absorbed, suffix, rate), old(squeezed), n, rate)
    {
      hide FinalState, StreamByte, Stream, Squeezed, KeccakF;
      ghost var start := squeezed;
      Finish();
      ghost var s := FinalState(absorbed, suffix, rate);
      out := [];
      StreamNone(s, start, rate);
      var scratch := new bv8[rate];
      while |out| < n
        invariant |out| <= n && absorbPos < rate
        invariant absorbPos == 0 || absorbPos + (n - |out|) <= rate
        invariant Cursor(state, absorbPos) == Squeezed(s, start + |out|, rate)
        invariant out == Stream(s, start, |out|, rate)
        modifies `state, `absorbPos, scratch
      {
        var take := Min(rate, n - |out|);
        StreamConcat(s, start, |out|, take, rate);
        var piece := SqueezePiece(scratch, take, s, start + |out|);
        out := out + piece;
      }
      squeezed := start + n;
    }
  }

  /** One call: the digest of `data`. */
  method OneShot(rate: nat, outputBytes: nat, data: Bytes) returns (digest: Bytes)
    requires 0 < rate <= STATE_BYTES && outputBytes <= rate
    ensures digest == Digest(data, Sha3Suffix, outputBytes, rate)
  {
    var h := new Hasher(rate, Sha3Suffix);
    h.Absorb(data);
    assert [] + data == data;
    digest := h.Final(outputBytes);
  }

  method ShakeOneShot(rate: nat, data: Bytes, n: nat) returns (out: Bytes)
    requires 0 < rate <= STATE_BYTES
    ensures out == Digest(data, ShakeSuffix, n, rate)
  {
    var h := new Hasher(rate, ShakeSuffix);
    h.Absorb(data);
    assert [] + data == data;
    out := h.SqueezeBytes(n);
  }

  /**
   The position at which a squeeze of `n` bytes leaves a fresh SHAKE hasher: from there exactly those squeezes
   stay in bounds that follow whole blocks or fit the rest of the block.
   */
  method PositionAfterSqueeze(rate: nat, data: Bytes, n: nat) returns (out: Bytes, pos: nat)
    requires 0 < rate <= STATE_BYTES
    ensures out == Digest(data, ShakeSuffix, n, rate) && pos == n % rate
    ensures forall k: nat :: CopiesInBounds(pos, k, rate) <==> n % rate == 0 || n % rate + k <= rate
  {
    hide CopiesInBounds, Squeezed, FinalState, Stream;
    var h := new Hasher(rate, ShakeSuffix);
    h.Absorb(data);
    assert [] + data == data;
    out := h.SqueezeBytes(n);
    pos := h.absorbPos;
    PositionAfter(FinalState(data, ShakeSuffix, rate), n, rate);
    forall k: nat ensures CopiesInBounds(pos, k, rate) <==> n % rate == 0 || n % rate + k <= rate {
      InBoundsIff(pos, k, rate);
    }
  }

  /** So one byte and then a whole block runs out of bounds, at every rate above one. */
  method SqueezeOutOfBounds(rate: nat, data: Bytes) returns (pos: nat)
    requires 1 < rate <= STATE_BYTES
    ensures pos == 1 && !CopiesInBounds(pos, rate, rate)
  {
    hide CopiesInBounds, Digest;
    ModUnique(1, rate, 0, 1);
    var out;
    out, pos := PositionAfterSqueeze(rate, data, 1);
  }

  /** The chunked loop of sha3_512_file: any cutting of a message into chunks gives its one-shot digest. */
  method ChunkedDigest(rate: nat, outputBytes: nat, chunks: seq<Bytes>) returns (digest: Bytes)
    requires 0 < rate <= STATE_BYTES && outputBytes <= rate
    ensures digest == Digest(Concat(chunks), Sha3Suffix, outputBytes, rate)
  {
    hide Digest;
    var h := new Hasher(rate, Sha3Suffix);
    for k := 0 to |chunks|
      invariant h.Valid() && fresh(h) && fresh(h.buf) && h.rate == rate && h.suffix == Sha3Suffix
      invariant !h.finalized && h.absorbed == Concat(chunks[..k])
    {
      ConcatOneMore(chunks, k);
      h.Absorb(chunks[k]);
    }
    assert chunks[..|chunks|] == chunks;
    digest := h.Final(outputBytes);
  }
}
