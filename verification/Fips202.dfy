/**
 The SHA-3 functions as FIPS 202 writes them: strings of single bits, the step mappings bit by bit, and the
 sponge on bit strings of any length. Nothing here knows of lanes, bytes or tables.
 */
module Fips202 {
  type BitString = seq<bool>

  const WIDTH: nat := 1600

  type StateString = s: BitString | |s| == WIDTH witness seq(WIDTH, _ => false)

  // ---- The state array, section 3.1.2 ----

  /** Where A[x, y, z] stands in the state string; x and y are taken modulo 5, z modulo 64. */
  function Place(x: int, y: int, z: int): (p: nat)
    ensures p < WIDTH
  {
    64 * (5 * (y % 5) + x % 5) + z % 64
  }

  function At(s: StateString, x: int, y: int, z: int): bool {
    s[Place(x, y, z)]
  }

  // ---- The step mappings, section 3.2; each is given by its bit (x, y, z) ----

  function ColumnParity(s: StateString, x: int, z: int): bool {
    (((At(s, x, 0, z) != At(s, x, 1, z)) != At(s, x, 2, z)) != At(s, x, 3, z)) != At(s, x, 4, z)
  }

  function ThetaBit(s: StateString, x: int, y: int, z: int): bool {
    At(s, x, y, z) != (ColumnParity(s, x - 1, z) != ColumnParity(s, x + 1, z - 1))
  }

  function Theta(s: StateString): StateString {
    seq(WIDTH, p requires 0 <= p < WIDTH => ThetaBit(s, p / 64 % 5, p / 64 / 5, p % 64))
  }

  /** The coordinates that algorithm 2 visits at step `t`. */
  function Visit(t: nat): (int, int) {
    if t == 0 then (1, 0)
    else
      var (x, y) := Visit(t - 1);
      (y, (2 * x + 3 * y) % 5)
  }

  /** Bit (x, y, z) after the first `n` steps of algorithm 2. */
  function RhoBit(s: StateString, x: int, y: int, z: int, n: nat): bool {
    if n == 0 then At(s, x, y, z)
    else if Visit(n - 1) == (x, y) then At(s, x, y, z - n * (n + 1) / 2)
    else RhoBit(s, x, y, z, n - 1)
  }

  function Rho(s: StateString): StateString {
    seq(WIDTH, p requires 0 <= p < WIDTH => RhoBit(s, p / 64 % 5, p / 64 / 5, p % 64, 24))
  }

  function PiBit(s: StateString, x: int, y: int, z: int): bool {
    At(s, x + 3 * y, x, z)
  }

  function Pi(s: StateString): StateString {
    seq(WIDTH, p requires 0 <= p < WIDTH => PiBit(s, p / 64 % 5, p / 64 / 5, p % 64))
  }

  function ChiBit(s: StateString, x: int, y: int, z: int): bool {
    At(s, x, y, z) != (!At(s, x + 1, y, z) && At(s, x + 2, y, z))
  }

  function Chi(s: StateString): StateString {
    seq(WIDTH, p requires 0 <= p < WIDTH => ChiBit(s, p / 64 % 5, p / 64 / 5, p % 64))
  }

  // ---- Round constants, algorithms 5 and 6 ----

  type Register = r: BitString | |r| == 8 witness seq(8, _ => false)

  /** R becomes 0 || R; bit 8 is added to bits 0, 4, 5 and 6 and then cut off. */
  function Shifted(r: Register): Register {
    var s := [false] + r;
    [s[0] != s[8], s[1], s[2], s[3], s[4] != s[8], s[5] != s[8], s[6] != s[8], s[7]]
  }

  function RegisterAfter(n: nat): Register {
    if n == 0 then [true, false, false, false, false, false, false, false] else Shifted(RegisterAfter(n - 1))
  }

  function Rc(t: nat): bool {
    if t % 255 == 0 then true else RegisterAfter(t % 255)[0]
  }

  /** Bit `z` of the constant of round `n`: bit 2^j - 1 is rc(j + 7n), all others are zero. */
  function RoundConstantBit(n: nat, z: nat): bool {
    if z == 0 then Rc(7 * n)
    else if z == 1 then Rc(1 + 7 * n)
    else if z == 3 then Rc(2 + 7 * n)
    else if z == 7 then Rc(3 + 7 * n)
    else if z == 15 then Rc(4 + 7 * n)
    else if z == 31 then Rc(5 + 7 * n)
    else if z == 63 then Rc(6 + 7 * n)
    else false
  }

  function Iota(s: StateString, n: nat): StateString {
    seq(WIDTH, p requires 0 <= p < WIDTH => if p < 64 then s[p] != RoundConstantBit(n, p) else s[p])
  }

  // ---- The permutation, section 3.3 ----

  function Round(s: StateString, n: nat): StateString {
    Iota(Chi(Pi(Rho(Theta(s)))), n)
  }

  function Rounds(s: StateString, n: nat): StateString {
    if n == 0 then s else Round(Rounds(s, n - 1), n - 1)
  }

  function KeccakP(s: StateString): StateString {
    Rounds(s, 24)
  }

  // ---- The sponge, sections 4 and 5 ----

  function Falses(n: nat): BitString {
    seq(n, _ => false)
  }

  function OnePad(j: nat): BitString {
    [true] + Falses(j) + [true]
  }

  /** The j of pad10*1: (-m - 2) mod x. */
  function PadZeros(x: nat, m: int): nat
    requires x > 0
  {
    (-m - 2) % x
  }

  /** pad10*1 of section 5.1. */
  function Pad101(x: nat, m: nat): BitString
    requires x > 0
  {
    OnePad(PadZeros(x, m))
  }

  /** S xor (P || 0^c). */
  function Added(s: StateString, p: BitString): StateString
    requires |p| <= WIDTH
  {
    seq(WIDTH, i requires 0 <= i < WIDTH => if i < |p| then s[i] != p[i] else s[i])
  }

  function AbsorbString(s: StateString, p: BitString, r: nat): StateString
    requires 0 < r <= WIDTH
    decreases |p|
  {
    if |p| < r then s else AbsorbString(KeccakP(Added(s, p[..r])), p[r..], r)
  }

  function SqueezeString(s: StateString, r: nat, d: nat): BitString
    requires 0 < r <= WIDTH
    decreases d
  {
    if d <= r then s[..d] else s[..r] + SqueezeString(KeccakP(s), r, d - r)
  }

  /** SPONGE[KECCAK-p[1600, 24], pad10*1, r](m, d) of algorithm 8. */
  function SpongeString(m: BitString, r: nat, d: nat): BitString
    requires 0 < r <= WIDTH
  {
    SqueezeString(AbsorbString(Falses(WIDTH), m + Pad101(r, |m|), r), r, d)
  }

  // ---- The functions of section 6 ----

  function Sha3_224(m: BitString): BitString {
    SpongeString(m + [false, true], WIDTH - 448, 224)
  }

  function Sha3_256(m: BitString): BitString {
    SpongeString(m + [false, true], WIDTH - 512, 256)
  }

  function Sha3_384(m: BitString): BitString {
    SpongeString(m + [false, true], WIDTH - 768, 384)
  }

  function Sha3_512(m: BitString): BitString {
    SpongeString(m + [false, true], WIDTH - 1024, 512)
  }

  function Shake128(m: BitString, d: nat): BitString {
    SpongeString(m + [true, true, true, true], WIDTH - 256, d)
  }

  function Shake256(m: BitString, d: nat): BitString {
    SpongeString(m + [true, true, true, true], WIDTH - 512, d)
  }
}
