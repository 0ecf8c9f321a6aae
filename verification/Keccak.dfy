/**
 The Keccak-f[1600] permutation: the step mappings of section 3.2 of FIPS 202 on lanes, and the table-driven
 code for them. Lane (x, y) is element x + 5y of the state.
 */
module Keccak {
  type Lane = bv64

  type State = s: seq<Lane> | |s| == 25 witness seq(25, _ => 0)

  const ROUNDS: nat := 24

  function Double(x: Lane): Lane {
    x << 1
  }

  function Halve(x: Lane): Lane {
    x >> 1
  }

  /** `x << n`, one place at a time. */
  function Left(x: Lane, n: nat): Lane {
    if n == 0 then x else Double(Left(x, n - 1))
  }

  /** `x >> n`, one place at a time. */
  function Right(x: Lane, n: nat): Lane {
    if n == 0 then x else Halve(Right(x, n - 1))
  }

  function Or(a: Lane, b: Lane): Lane {
    a | b
  }

  function Rotl(x: Lane, n: nat): Lane
    requires n < 64
  {
    if n == 0 then x else Or(Left(x, n), Right(x, 64 - n))
  }

  // The lane operations, named so that proofs can treat them as black boxes.

  function Xor(a: Lane, b: Lane): Lane {
    a ^ b
  }

  function Parity(a: Lane, b: Lane, c: Lane, d: Lane, e: Lane): Lane {
    Xor(Xor(Xor(Xor(a, b), c), d), e)
  }

  function Nonlinear(a: Lane, b: Lane, c: Lane): Lane {
    a ^ (!b & c)
  }

  function Index(x: int, y: int): (i: nat)
    ensures i < 25
  {
    x % 5 + 5 * (y % 5)
  }

  // ---- The step mappings of FIPS 202 ----

  function Column(s: State, x: int): Lane {
    Parity(s[Index(x, 0)], s[Index(x, 1)], s[Index(x, 2)], s[Index(x, 3)], s[Index(x, 4)])
  }

  /** What theta adds to the lanes of column `x`. */
  function Mix(s: State, x: int): Lane {
    Xor(Column(s, x - 1), Rotl(Column(s, x + 1), 1))
  }

  function ThetaLane(s: State, i: nat): Lane
    requires i < 25
  {
    Xor(s[i], Mix(s, i % 5))
  }

  function Theta(s: State): State {
    seq(25, i requires 0 <= i < 25 => ThetaLane(s, i))
  }

  /** The lane that the walk of algorithm 2 visits after lane `i`: (x, y) becomes (y, 2x + 3y). */
  function NextLane(i: nat): (j: nat)
    ensures j < 25
  {
    Index(i / 5, 2 * (i % 5) + 3 * (i / 5))
  }

  /** The lane visited at step `t`; the walk starts at (1, 0). */
  function Walk(t: nat): (i: nat)
    ensures i < 25
  {
    if t == 0 then 1 else NextLane(Walk(t - 1))
  }

  /** The rotation at step `t`. */
  function Triangle(t: nat): (n: nat)
    ensures n < 64
  {
    (t + 1) * (t + 2) / 2 % 64
  }

  /** The lanes that the first `n` steps of the walk rotate. */
  function RhoSteps(s: State, n: nat): State {
    if n == 0 then s else RhoSteps(s, n - 1)[Walk(n - 1) := Rotl(s[Walk(n - 1)], Triangle(n - 1))]
  }

  function Rho(s: State): State {
    RhoSteps(s, 24)
  }

  /** The lane that pi moves to place `i`. */
  function PiSource(i: nat): (j: nat)
    ensures j < 25
  {
    Index(i % 5 + 3 * (i / 5), i % 5)
  }

  function Pi(s: State): State {
    seq(25, i requires 0 <= i < 25 => s[PiSource(i)])
  }

  function ChiLane(s: State, i: nat): Lane
    requires i < 25
  {
    Nonlinear(s[i], s[Index(i % 5 + 1, i / 5)], s[Index(i % 5 + 2, i / 5)])
  }

  function Chi(s: State): State {
    seq(25, i requires 0 <= i < 25 => ChiLane(s, i))
  }

  function Iota(s: State, rc: Lane): State {
    s[0 := Xor(s[0], rc)]
  }

  // ---- Round constants ----

  /** One step of the shift register of algorithm 5; bit k of the byte is R[k]. */
  function Feedback(r: bv8): bv8 {
    (r << 1) ^ (if r & 0x80 != 0 then 0x71 else 0)
  }

  function Feedback7(r: bv8): bv8 {
    Feedback(Feedback(Feedback(Feedback(Feedback(Feedback(Feedback(r)))))))
  }

  /** The register before round `n`. */
  function Register(n: nat): bv8 {
    if n == 0 then 1 else Feedback7(Register(n - 1))
  }

  function Low(r: bv8): Lane {
    (r & 1) as bv64
  }

  /** `x << (2^j - 1)`. */
  function Moved(x: Lane, j: nat): Lane {
    match j
    case 0 => x
    case 1 => x << 1
    case 2 => x << 3
    case 3 => x << 7
    case 4 => x << 15
    case 5 => x << 31
    case _ => x << 63
  }

  function OrSeven(a: Lane, b: Lane, c: Lane, d: Lane, e: Lane, f: Lane, g: Lane): Lane {
    Or(Or(Or(Or(Or(Or(a, b), c), d), e), f), g)
  }

  /** The constant that algorithm 6 builds from seven register outputs. */
  function RoundConstant(r0: bv8): Lane {
    var r1 := Feedback(r0);
    var r2 := Feedback(r1);
    var r3 := Feedback(r2);
    var r4 := Feedback(r3);
    var r5 := Feedback(r4);
    var r6 := Feedback(r5);
    OrSeven(Low(r0), Moved(Low(r1), 1), Moved(Low(r2), 2), Moved(Low(r3), 3), Moved(Low(r4), 4), Moved(Low(r5), 5),
      Moved(Low(r6), 6))
  }

  function Round(s: State, rc: Lane): State {
    Iota(Chi(Pi(Rho(Theta(s)))), rc)
  }

  /** The first `n` rounds. */
  function Rounds(s: State, n: nat): State
    requires n <= ROUNDS
  {
    if n == 0 then s else Round(Rounds(s, n - 1), RoundConstant(Register(n - 1)))
  }

  function KeccakF(s: State): State {
    Rounds(s, ROUNDS)
  }

  // ---- The tables of the code ----

  const RC: seq<Lane> := [
    0x0000000000000001, 0x0000000000008082, 0x800000000000808A, 0x8000000080008000,
    0x000000000000808B, 0x0000000080000001, 0x8000000080008081, 0x8000000000008009,
    0x000000000000008A, 0x0000000000000088, 0x0000000080008009, 0x000000008000000A,
    0x000000008000808B, 0x800000000000008B, 0x8000000000008089, 0x8000000000008003,
    0x8000000000008002, 0x8000000000000080, 0x000000000000800A, 0x800000008000000A,
    0x8000000080008081, 0x8000000000008080, 0x0000000080000001, 0x8000000080008008]

  const OFFSET: seq<nat> := [
    0, 1, 62, 28, 27,
    36, 44, 6, 55, 20,
    3, 10, 43, 25, 39,
    41, 45, 15, 21, 8,
    18, 2, 61, 56, 14]

  const SRC: seq<nat> := [
    1, 5, 14, 18, 22,
    2, 6, 10, 19, 23,
    3, 7, 11, 15, 24,
    4, 8, 12, 16, 20,
    21, 17, 13, 9]

  const TGT: seq<nat> := [
    10, 16, 22, 3, 9,
    20, 1, 7, 13, 19,
    5, 11, 17, 23, 4,
    15, 21, 2, 8, 14,
    24, 18, 12, 6]

  /** The place in SRC and TGT of target lane `j`. */
  const SLOT: seq<nat> := [
    24, 6, 17, 3, 14,
    10, 23, 7, 18, 4,
    0, 11, 22, 8, 19,
    15, 1, 12, 21, 9,
    5, 16, 2, 13, 20]

  /** PiSource, tabulated. */
  const PI_SOURCE: seq<nat> := [
    0, 6, 12, 18, 24, 3, 9, 10, 16, 22, 1, 7, 13, 19, 20, 4, 5, 11, 17, 23, 2, 8, 14, 15, 21]

  lemma PiRow0(x: nat)
    requires x < 5
    ensures PI_SOURCE[x + 0] == Index(x + 0, x)
  {
  }

  lemma PiRow1(x: nat)
    requires x < 5
    ensures PI_SOURCE[x + 5] == Index(x + 3, x)
  {
  }

  lemma PiRow2(x: nat)
    requires x < 5
    ensures PI_SOURCE[x + 10] == Index(x + 6, x)
  {
  }

  lemma PiRow3(x: nat)
    requires x < 5
    ensures PI_SOURCE[x + 15] == Index(x + 9, x)
  {
  }

  lemma PiRow4(x: nat)
    requires x < 5
    ensures PI_SOURCE[x + 20] == Index(x + 12, x)
  {
  }

  lemma PiTable(x: nat, y: nat)
    requires x < 5 && y < 5
    ensures PI_SOURCE[x + 5 * y] == Index(x + 3 * y, x)
  {
    hide Index;
    if y == 0 {
      PiRow0(x);
    } else if y == 1 {
      PiRow1(x);
    } else if y == 2 {
      PiRow2(x);
    } else if y == 3 {
      PiRow3(x);
    } else {
      PiRow4(x);
    }
  }

  lemma TablesArePiLow(k: nat)
    requires k < 12
    ensures TGT[k] < 25 && SRC[k] == PI_SOURCE[TGT[k]] && SRC[k] < 25
  {
  }

  lemma TablesArePiHigh(k: nat)
    requires 12 <= k < 24
    ensures TGT[k] < 25 && SRC[k] == PI_SOURCE[TGT[k]] && SRC[k] < 25
  {
  }

  lemma TablesArePi(k: nat)
    requires k < 24
    ensures TGT[k] < 25 && SRC[k] == PI_SOURCE[TGT[k]] && SRC[k] < 25
  {
    if k < 12 {
      TablesArePiLow(k);
    } else {
      TablesArePiHigh(k);
    }
  }

  lemma SlotTable(k: nat)
    requires k < 24
    ensures SLOT[TGT[k]] == k
  {
  }

  lemma SlotsCoverLow(j: nat)
    requires 0 < j < 13
    ensures SLOT[j] < 24 && TGT[SLOT[j]] == j
  {
  }

  lemma SlotsCoverHigh(j: nat)
    requires 13 <= j < 25
    ensures SLOT[j] < 24 && TGT[SLOT[j]] == j
  {
  }

  lemma SlotsCover(j: nat)
    requires 0 < j < 25
    ensures SLOT[j] < 24 && TGT[SLOT[j]] == j
  {
    if j < 13 {
      SlotsCoverLow(j);
    } else {
      SlotsCoverHigh(j);
    }
  }

  /** The lanes of the walk, and the step at which it reaches each lane. */
  const WALK: seq<nat> := [1, 10, 7, 11, 17, 18, 3, 5, 16, 8, 21, 24, 4, 15, 23, 19, 13, 12, 2, 20, 14, 22, 9, 6]

  const STEP: seq<nat> := [24, 0, 18, 6, 12, 7, 23, 2, 9, 22, 1, 3, 17, 16, 20, 13, 8, 4, 5, 15, 19, 10, 21, 14, 11]

  /** NextLane, tabulated. */
  const NEXT: seq<nat> := [0, 10, 20, 5, 15, 16, 1, 11, 21, 6, 7, 17, 2, 12, 22, 23, 8, 18, 3, 13, 14, 24, 9, 19, 4]

  lemma NextRow0(x: nat)
    requires x < 5
    ensures NEXT[x + 0] == Index(0, 2 * x + 0)
  {
  }

  lemma NextRow1(x: nat)
    requires x < 5
    ensures NEXT[x + 5] == Index(1, 2 * x + 3)
  {
  }

  lemma NextRow2(x: nat)
    requires x < 5
    ensures NEXT[x + 10] == Index(2, 2 * x + 6)
  {
  }

  lemma NextRow3(x: nat)
    requires x < 5
    ensures NEXT[x + 15] == Index(3, 2 * x + 9)
  {
  }

  lemma NextRow4(x: nat)
    requires x < 5
    ensures NEXT[x + 20] == Index(4, 2 * x + 12)
  {
  }

  lemma NextTable(x: nat, y: nat)
    requires x < 5 && y < 5
    ensures NEXT[x + 5 * y] == Index(y, 2 * x + 3 * y)
  {
    hide Index;
    if y == 0 {
      NextRow0(x);
    } else if y == 1 {
      NextRow1(x);
    } else if y == 2 {
      NextRow2(x);
    } else if y == 3 {
      NextRow3(x);
    } else {
      NextRow4(x);
    }
  }

  function NextAt(i: nat): nat
    requires i < 25
  {
    NEXT[i]
  }

  function WalkAt(t: nat): nat
    requires t < 24
  {
    WALK[t]
  }

  lemma WalkTable(t: nat)
    requires t < 23
    ensures WalkAt(t) < 25 && NextAt(WalkAt(t)) == WalkAt(t + 1)
  {
  }

  lemma OffsetTableA(t: nat)
    requires t < 6
    ensures OFFSET[WALK[t]] == Triangle(t)
  {
  }

  lemma OffsetTableB(t: nat)
    requires 6 <= t < 12
    ensures OFFSET[WALK[t]] == Triangle(t)
  {
  }

  lemma OffsetTableC(t: nat)
    requires 12 <= t < 18
    ensures OFFSET[WALK[t]] == Triangle(t)
  {
  }

  lemma OffsetTableD(t: nat)
    requires 18 <= t < 24
    ensures OFFSET[WALK[t]] == Triangle(t)
  {
  }

  lemma OffsetTable(t: nat)
    requires t < 24
    ensures OFFSET[WALK[t]] == Triangle(t)
  {
    hide Triangle;
    if t < 6 {
      OffsetTableA(t);
    } else if t < 12 {
      OffsetTableB(t);
    } else if t < 18 {
      OffsetTableC(t);
    } else {
      OffsetTableD(t);
    }
  }

  lemma StepTable(t: nat)
    requires t < 24
    ensures STEP[WALK[t]] == t
  {
  }

  lemma StepCovers(i: nat)
    requires i < 25
    ensures STEP[i] < 24 ==> WALK[STEP[i]] == i
    ensures STEP[i] <= 24 && (STEP[i] == 24 ==> i == 0)
  {
  }

  lemma NextLaneTable(i: nat)
    requires i < 25
    ensures NextLane(i) == NextAt(i)
  {
    hide Index;
    NextTable(i % 5, i / 5);
    assert i % 5 + 5 * (i / 5) == i;
  }

  /** The walk, step by step, is the tabulated one. */
  lemma {:induction false} WalkIs(t: nat)
    requires t < 24
    ensures Walk(t) == WalkAt(t)
  {
    hide NextLane, NextAt, WalkAt;
    if t == 0 {
      WalkStart();
    } else {
      WalkIs(t - 1);
      WalkTable(t - 1);
      NextLaneTable(WalkAt(t - 1));
    }
  }

  lemma WalkStart()
    ensures WalkAt(0) == Walk(0)
  {
  }

  const REGISTER: seq<bv8> := [
    0x01, 0x80, 0xD8, 0x1A, 0xDF, 0x09, 0x35, 0x4F, 0xCA, 0x70, 0x41, 0xEC,
    0xD5, 0xCD, 0x63, 0xAB, 0xAA, 0x2A, 0xF2, 0xE8, 0x37, 0x3E, 0x0B, 0x44]

  /** One entry of the two tables: the round constant, and the register's next state. */
  predicate RegisterEntry(k: nat)
    requires k < 24
  {
    RoundConstant(REGISTER[k]) == RC[k] && (k < 23 ==> Feedback7(REGISTER[k]) == REGISTER[k + 1])
  }

  lemma RegisterTableA(k: nat)
    requires k < 3
    ensures RegisterEntry(k)
  {
  }

  lemma RegisterTableB(k: nat)
    requires 3 <= k < 6
    ensures RegisterEntry(k)
  {
  }

  lemma RegisterTableC(k: nat)
    requires 6 <= k < 9
    ensures RegisterEntry(k)
  {
  }

  lemma RegisterTableD(k: nat)
    requires 9 <= k < 12
    ensures RegisterEntry(k)
  {
  }

  lemma RegisterTableE(k: nat)
    requires 12 <= k < 15
    ensures RegisterEntry(k)
  {
  }

  lemma RegisterTableF(k: nat)
    requires 15 <= k < 18
    ensures RegisterEntry(k)
  {
  }

  lemma RegisterTableG(k: nat)
    requires 18 <= k < 21
    ensures RegisterEntry(k)
  {
  }

  lemma RegisterTableH(k: nat)
    requires 21 <= k < 24
    ensures RegisterEntry(k)
  {
  }

  lemma RegisterTable(k: nat)
    requires k < 24
    ensures RegisterEntry(k)
  {
    hide RegisterEntry;
    if k < 3 {
      RegisterTableA(k);
    } else if k < 6 {
      RegisterTableB(k);
    } else if k < 9 {
      RegisterTableC(k);
    } else if k < 12 {
      RegisterTableD(k);
    } else if k < 15 {
      RegisterTableE(k);
    } else if k < 18 {
      RegisterTableF(k);
    } else if k < 21 {
      RegisterTableG(k);
    } else {
      RegisterTableH(k);
    }
  }

  lemma {:induction false} RegisterIs(n: nat)
    requires n < 24
    ensures Register(n) == REGISTER[n] && RoundConstant(Register(n)) == RC[n]
  {
    hide RoundConstant, Feedback7;
    RegisterTable(n);
    if n > 0 {
      RegisterTable(n - 1);
      RegisterIs(n - 1);
    }
  }

  // The table entries as functions, so that proofs need not unfold the tables.

  function Off(i: nat): (n: nat)
    requires i < 25
    ensures n < 64
  {
    OffsetBound(i);
    OFFSET[i]
  }

  lemma OffsetBound(i: nat)
    requires i < 25
    ensures OFFSET[i] < 64
  {
  }

  function Src(k: nat): (i: nat)
    requires k < 24
    ensures i < 25
  {
    TablesArePi(k);
    SRC[k]
  }

  function Tgt(k: nat): (j: nat)
    requires k < 24
    ensures 0 < j < 25
  {
    TgtBound(k);
    TGT[k]
  }

  lemma TgtBound(k: nat)
    requires k < 24
    ensures 0 < TGT[k] < 25
  {
  }

  /** The place in SRC and TGT of the non-zero target lane `j`. */
  function Slot(j: nat): (k: nat)
    requires 0 < j < 25
    ensures k < 24 && Tgt(k) == j
  {
    SlotsCover(j);
    SLOT[j]
  }

  lemma SlotOfTgt(k: nat)
    requires k < 24
    ensures Slot(Tgt(k)) == k
  {
    SlotTable(k);
  }

  lemma SlotIsPi(j: nat)
    requires 0 < j < 25
    ensures Src(Slot(j)) == PiSource(j) && PiSource(j) != 0
  {
    hide Index;
    TablesArePi(SLOT[j]);
    PiTable(j % 5, j / 5);
    PiNonZero(j);
  }

  lemma PiNonZero(j: nat)
    requires 0 < j < 25
    ensures PI_SOURCE[j] != 0
  {
  }

  /** The step of the walk that reaches lane `i`; 24 for lane 0, which it never reaches. */
  function StepOf(i: nat): (t: nat)
    requires i < 25
    ensures t <= 24 && (t == 24 <==> i == 0)
  {
    StepCovers(i);
    STEP[i]
  }

  lemma WalkStep(t: nat, i: nat)
    requires t < 24 && i < 25
    ensures StepOf(i) == t <==> Walk(t) == i
    ensures Walk(t) == i ==> Off(i) == Triangle(t)
  {
    WalkIs(t);
    OffsetTable(t);
    StepTable(t);
    StepCovers(i);
  }

  /** What the walk has done to lane `i` after `n` steps: each lane is rotated once, by its table entry. */
  lemma {:induction false} RhoAt(s: State, n: nat, i: nat)
    requires n <= 24 && i < 25
    ensures RhoSteps(s, n)[i] == if StepOf(i) < n then Rotl(s[i], Off(i)) else s[i]
  {
    hide Rotl, Triangle, Walk, StepOf, Off;
    if n > 0 {
      RhoAt(s, n - 1, i);
      WalkStep(n - 1, i);
    }
  }

  lemma PiOfZero()
    ensures PiSource(0) == 0
  {
  }

  /** The combined rho and pi pass of the code. */
  lemma RhoPiAt(s: State, j: nat)
    requires j < 25
    ensures Pi(Rho(s))[j] == if j == 0 then s[0] else Rotl(s[Src(Slot(j))], Off(Src(Slot(j))))
  {
    hide Rotl, RhoSteps, StepOf, Off, Src, Slot, PiSource;
    RhoAt(s, 24, PiSource(j));
    PiOfZero();
    if j > 0 {
      SlotIsPi(j);
    }
  }

  // ---- The code ----

  lemma RowIndex(y: nat, x: nat)
    requires y < 5 && x < 5
    ensures (5 * y + x) % 5 == x && (5 * y + x) / 5 == y
  {
  }

  lemma FiveUpdatesAt(s: State, i: nat, a: Lane, b: Lane, c: Lane, d: Lane, e: Lane, k: nat)
    requires i + 5 <= 25 && k < 25
    ensures s[i := a][i + 1 := b][i + 2 := c][i + 3 := d][i + 4 := e][k]
            == if k == i then a else if k == i + 1 then b else if k == i + 2 then c
               else if k == i + 3 then d else if k == i + 4 then e else s[k]
  {
  }

  /** The rows below `y` are those of `after`, the others those of `before`. */
  predicate RowsDone(s: State, before: State, after: State, y: nat) {
    forall k | 0 <= k < 25 :: s[k] == if k < 5 * y then after[k] else before[k]
  }

  /** Replacing row `y` by that of `after` gets one row further. */
  lemma RowDone(s: State, before: State, after: State, y: nat, a: Lane, b: Lane, c: Lane, d: Lane, e: Lane)
    requires y < 5 && RowsDone(s, before, after, y)
    requires a == after[5 * y] && b == after[5 * y + 1] && c == after[5 * y + 2]
             && d == after[5 * y + 3] && e == after[5 * y + 4]
    ensures var i := 5 * y;
            RowsDone(s[i := a][i + 1 := b][i + 2 := c][i + 3 := d][i + 4 := e], before, after, y + 1)
  {
    var i := 5 * y;
    var t: State := s[i := a][i + 1 := b][i + 2 := c][i + 3 := d][i + 4 := e];
    forall k | 0 <= k < 25 ensures t[k] == if k < 5 * (y + 1) then after[k] else before[k] {
      FiveUpdatesAt(s, i, a, b, c, d, e, k);
    }
  }

  lemma RowLeft(s: State, before: State, after: State, y: nat)
    requires y < 5 && RowsDone(s, before, after, y)
    ensures var i := 5 * y;
            s[i] == before[i] && s[i + 1] == before[i + 1] && s[i + 2] == before[i + 2]
            && s[i + 3] == before[i + 3] && s[i + 4] == before[i + 4]
  {
  }

  lemma RowsStart(before: State, after: State)
    ensures RowsDone(before, before, after, 0)
  {
  }

  lemma RowsEnd(s: State, before: State, after: State)
    requires RowsDone(s, before, after, 5)
    ensures s == after
  {
  }

  lemma ThetaIndex(s: State, i: nat)
    requires i < 25
    ensures Theta(s)[i] == ThetaLane(s, i)
  {
    hide ThetaLane;
  }

  lemma ThetaAt(s: State, y: nat, x: nat)
    requires y < 5 && x < 5
    ensures Theta(s)[5 * y + x] == Xor(s[5 * y + x], Mix(s, x))
  {
    hide Mix, Xor, Theta;
    RowIndex(y, x);
    ThetaIndex(s, 5 * y + x);
  }

  lemma ThetaRow(s: State, y: nat)
    requires y < 5
    ensures var i := 5 * y;
            Theta(s)[i] == Xor(s[i], Mix(s, 0))
            && Theta(s)[i + 1] == Xor(s[i + 1], Mix(s, 1))
            && Theta(s)[i + 2] == Xor(s[i + 2], Mix(s, 2))
            && Theta(s)[i + 3] == Xor(s[i + 3], Mix(s, 3))
            && Theta(s)[i + 4] == Xor(s[i + 4], Mix(s, 4))
  {
    hide Mix, Theta, Xor;
    ThetaAt(s, y, 0);
    ThetaAt(s, y, 1);
    ThetaAt(s, y, 2);
    ThetaAt(s, y, 3);
    ThetaAt(s, y, 4);
  }

  lemma ColumnIs(s: State, x: int)
    ensures var i := x % 5; Column(s, x) == Parity(s[i], s[i + 5], s[i + 10], s[i + 15], s[i + 20])
  {
    hide Parity;
  }

  lemma FirstColumns(s: State)
    ensures Column(s, 0) == Parity(s[0], s[5], s[10], s[15], s[20])
    ensures Column(s, 1) == Parity(s[1], s[6], s[11], s[16], s[21])
    ensures Column(s, 2) == Parity(s[2], s[7], s[12], s[17], s[22])
  {
    hide Column, Parity;
    ColumnIs(s, 0);
    ColumnIs(s, 1);
    ColumnIs(s, 2);
  }

  lemma LastColumns(s: State)
    ensures Column(s, 3) == Parity(s[3], s[8], s[13], s[18], s[23])
    ensures Column(s, 4) == Parity(s[4], s[9], s[14], s[19], s[24])
  {
    hide Column, Parity;
    ColumnIs(s, 3);
    ColumnIs(s, 4);
  }

  lemma ColumnsWrap(s: State)
    ensures Column(s, -1) == Column(s, 4) && Column(s, 5) == Column(s, 0)
  {
    hide Column, Parity;
    ColumnIs(s, 0);
    ColumnIs(s, 4);
    ColumnIs(s, 5);
    ColumnIs(s, -1);
  }

  /** The five column corrections. */
  method Corrections(s: State) returns (d0: Lane, d1: Lane, d2: Lane, d3: Lane, d4: Lane)
    ensures d0 == Mix(s, 0) && d1 == Mix(s, 1) && d2 == Mix(s, 2) && d3 == Mix(s, 3) && d4 == Mix(s, 4)
  {
    hide Rotl, Column, Xor, Parity;
    var c0 := Parity(s[0], s[5], s[10], s[15], s[20]);
    var c1 := Parity(s[1], s[6], s[11], s[16], s[21]);
    var c2 := Parity(s[2], s[7], s[12], s[17], s[22]);
    var c3 := Parity(s[3], s[8], s[13], s[18], s[23]);
    var c4 := Parity(s[4], s[9], s[14], s[19], s[24]);
    FirstColumns(s);
    LastColumns(s);
    ColumnsWrap(s);
    hide Index;
    d0 := Xor(c4, Rotl(c1, 1));
    d1 := Xor(c0, Rotl(c2, 1));
    d2 := Xor(c1, Rotl(c3, 1));
    d3 := Xor(c2, Rotl(c4, 1));
    d4 := Xor(c3, Rotl(c0, 1));
  }

  method ThetaPass(input: State) returns (s: State)
    ensures s == Theta(input)
  {
    hide Mix, Theta, RowsDone, Xor;
    s := input;
    var d0, d1, d2, d3, d4 := Corrections(s);
    RowsStart(input, Theta(input));
    for y := 0 to 5
      invariant RowsDone(s, input, Theta(input), y)
    {
      var i := 5 * y;
      ThetaRow(input, y);
      RowLeft(s, input, Theta(input), y);
      RowDone(s, input, Theta(input), y,
              Xor(s[i], d0), Xor(s[i + 1], d1), Xor(s[i + 2], d2), Xor(s[i + 3], d3), Xor(s[i + 4], d4));
      s := s[i := Xor(s[i], d0)][i + 1 := Xor(s[i + 1], d1)][i + 2 := Xor(s[i + 2], d2)]
            [i + 3 := Xor(s[i + 3], d3)][i + 4 := Xor(s[i + 4], d4)];
    }
    RowsEnd(s, input, Theta(input));
  }

  /** Every lane is moved and rotated in a copy, so no lane is read after it was written. */
  method RhoPiPass(s: State) returns (t: State)
    ensures t == Pi(Rho(s))
  {
    hide Rotl, Pi, Rho, Src, Tgt, Off, Slot;
    t := s;
    for k := 0 to 24
      invariant t[0] == s[0]
      invariant forall j | 0 < j < 25 && Slot(j) < k :: t[j] == Rotl(s[Src(Slot(j))], Off(Src(Slot(j))))
    {
      SlotOfTgt(k);
      t := t[Tgt(k) := Rotl(s[Src(k)], Off(Src(k)))];
    }
    forall j | 0 <= j < 25 ensures t[j] == Pi(Rho(s))[j] {
      RhoPiAt(s, j);
    }
  }

  lemma ChiIndex(s: State, i: nat)
    requires i < 25
    ensures Chi(s)[i] == ChiLane(s, i)
  {
    hide ChiLane;
  }

  lemma IndexInRow(x: nat, y: nat)
    requires y < 5
    ensures Index(x, y) == 5 * y + x % 5
  {
  }

  lemma ChiAt(s: State, y: nat, x: nat, x1: nat, x2: nat)
    requires y < 5 && x < 5 && x1 == (x + 1) % 5 && x2 == (x + 2) % 5
    ensures Chi(s)[5 * y + x] == Nonlinear(s[5 * y + x], s[5 * y + x1], s[5 * y + x2])
  {
    hide Nonlinear, Chi, Index;
    RowIndex(y, x);
    IndexInRow(x + 1, y);
    IndexInRow(x + 2, y);
    ChiIndex(s, 5 * y + x);
  }

  lemma ChiRowLow(s: State, y: nat)
    requires y < 5
    ensures var i := 5 * y;
            Chi(s)[i] == Nonlinear(s[i], s[i + 1], s[i + 2])
            && Chi(s)[i + 1] == Nonlinear(s[i + 1], s[i + 2], s[i + 3])
            && Chi(s)[i + 2] == Nonlinear(s[i + 2], s[i + 3], s[i + 4])
  {
    hide Chi, Nonlinear;
    ChiAt(s, y, 0, 1, 2);
    ChiAt(s, y, 1, 2, 3);
    ChiAt(s, y, 2, 3, 4);
  }

  lemma ChiRowHigh(s: State, y: nat)
    requires y < 5
    ensures var i := 5 * y;
            Chi(s)[i + 3] == Nonlinear(s[i + 3], s[i + 4], s[i])
            && Chi(s)[i + 4] == Nonlinear(s[i + 4], s[i], s[i + 1])
  {
    hide Chi, Nonlinear;
    ChiAt(s, y, 3, 4, 0);
    ChiAt(s, y, 4, 0, 1);
  }

  method ChiPass(input: State) returns (s: State)
    ensures s == Chi(input)
  {
    hide Chi, RowsDone, Nonlinear;
    s := input;
    RowsStart(input, Chi(input));
    for y := 0 to 5
      invariant RowsDone(s, input, Chi(input), y)
    {
      var i := 5 * y;
      ChiRowLow(input, y);
      ChiRowHigh(input, y);
      RowLeft(s, input, Chi(input), y);
      var a, b, c, d, e := s[i], s[i + 1], s[i + 2], s[i + 3], s[i + 4];
      RowDone(s, input, Chi(input), y, Nonlinear(a, b, c), Nonlinear(b, c, d), Nonlinear(c, d, e), Nonlinear(d, e, a),
        Nonlinear(e, a, b));
      s := s[i := Nonlinear(a, b, c)][i + 1 := Nonlinear(b, c, d)][i + 2 := Nonlinear(c, d, e)]
            [i + 3 := Nonlinear(d, e, a)][i + 4 := Nonlinear(e, a, b)];
    }
    RowsEnd(s, input, Chi(input));
  }

  method KeccakF1600(input: State) returns (s: State)
    ensures s == KeccakF(input)
  {
    hide Theta, Pi, Rho, Chi, Xor, Register, RoundConstant;
    s := input;
    for round := 0 to ROUNDS
      invariant s == Rounds(input, round)
    {
      s := ThetaPass(s);
      s := RhoPiPass(s);
      s := ChiPass(s);
      RegisterIs(round);
      s := s[0 := Xor(s[0], RC[round])];
    }
  }
}
