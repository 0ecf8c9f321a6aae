/** The permutation on lanes is, bit by bit, the one of FIPS 202. */
module KeccakBits {
  import opened Keccak
  import opened LaneBits
  import opened Sponge
  import F = Fips202

  /** The state string: bit `z` of lane `i` stands at 64i + z. */
  function StringOf(s: State): F.StateString {
    seq(F.WIDTH, p requires 0 <= p < F.WIDTH => Bit(s[p / 64], p % 64))
  }

  lemma PlaceParts(x: int, y: int, z: int)
    ensures F.Place(x, y, z) / 64 == Index(x, y) && F.Place(x, y, z) % 64 == z % 64
  {
  }

  lemma AtIs(s: State, x: int, y: int, z: int)
    ensures F.At(StringOf(s), x, y, z) == Bit(s[Index(x, y)], z % 64)
  {
    hide Bit, Index, F.Place;
    PlaceParts(x, y, z);
  }

  lemma IndexOfLane(i: nat)
    requires i < 25
    ensures Index(i % 5, i / 5) == i && i / 5 < 5
  {
  }

  // ---- Theta ----

  lemma ColumnBit(s: State, x: int, z: int)
    ensures Bit(Column(s, x), z % 64) == F.ColumnParity(StringOf(s), x, z)
  {
    hide Bit, Index, Parity, F.At, StringOf;
    ParityBit(s[Index(x, 0)], s[Index(x, 1)], s[Index(x, 2)], s[Index(x, 3)], s[Index(x, 4)], z % 64);
    AtIs(s, x, 0, z);
    AtIs(s, x, 1, z);
    AtIs(s, x, 2, z);
    AtIs(s, x, 3, z);
    AtIs(s, x, 4, z);
  }

  lemma ThetaLaneBit(s: State, i: nat, z: nat)
    requires i < 25 && z < 64
    ensures Bit(ThetaLane(s, i), z) == F.ThetaBit(StringOf(s), i % 5, i / 5, z)
  {
    hide Bit, Column, Xor, Rotl, Index, F.At, F.ColumnParity, StringOf;
    var x := i % 5;
    XorBit(s[i], Mix(s, x), z);
    XorBit(Column(s, x - 1), Rotl(Column(s, x + 1), 1), z);
    RotatedBit(Column(s, x + 1), 1, z);
    ColumnBit(s, x - 1, z);
    ColumnBit(s, x + 1, z - 1);
    AtIs(s, x, i / 5, z);
    IndexOfLane(i);
  }

  /** Strings whose bits agree lane by lane are equal. */
  lemma SameString(s: State, t: F.StateString)
    requires forall i, z | 0 <= i < 25 && 0 <= z < 64 :: Bit(s[i], z) == t[64 * i + z]
    ensures StringOf(s) == t
  {
    hide Bit;
    forall p | 0 <= p < F.WIDTH ensures StringOf(s)[p] == t[p] {
      assert p == 64 * (p / 64) + p % 64;
    }
  }

  lemma LanePlace(i: nat, z: nat)
    requires i < 25 && z < 64
    ensures (64 * i + z) / 64 == i && (64 * i + z) % 64 == z
  {
  }

  lemma ThetaString(s: State)
    ensures StringOf(Theta(s)) == F.Theta(StringOf(s))
  {
    hide Bit, ThetaLane, F.ThetaBit, StringOf;
    forall i, z | 0 <= i < 25 && 0 <= z < 64 ensures Bit(Theta(s)[i], z) == F.Theta(StringOf(s))[64 * i + z] {
      LanePlace(i, z);
      ThetaLaneBit(s, i, z);
    }
    SameString(Theta(s), F.Theta(StringOf(s)));
  }

  // ---- Rho ----

  lemma NextOf(x: nat, y: nat)
    requires x < 5 && y < 5
    ensures NextLane(x + 5 * y) == y + 5 * ((2 * x + 3 * y) % 5)
  {
    RowIndex(y, x);
    hide Index;
    FirstSmall(y, 2 * x + 3 * y);
  }

  lemma FirstSmall(x: nat, y: int)
    requires x < 5
    ensures Index(x, y) == x + 5 * (y % 5)
  {
  }

  lemma {:induction false} WalkVisits(t: nat)
    ensures var (x, y) := F.Visit(t); 0 <= x < 5 && 0 <= y < 5 && Walk(t) == x + 5 * y
  {
    hide NextLane;
    if t > 0 {
      WalkVisits(t - 1);
      var (x, y) := F.Visit(t - 1);
      NextOf(x, y);
    }
  }

  lemma ModOfDifference(z: int, t: int)
    ensures (z - t % 64) % 64 == (z - t) % 64
  {
  }

  lemma TriangleBit(x: Lane, n: nat, z: nat)
    requires n > 0 && z < 64
    ensures Bit(Rotl(x, Triangle(n - 1)), z) == Bit(x, (z - n * (n + 1) / 2) % 64)
  {
    hide Bit, Rotl;
    RotatedBit(x, Triangle(n - 1), z);
    ModOfDifference(z, n * (n + 1) / 2);
  }

  lemma {:induction false} RhoStepsBit(s: State, i: nat, z: nat, n: nat)
    requires i < 25 && z < 64
    ensures Bit(RhoSteps(s, n)[i], z) == F.RhoBit(StringOf(s), i % 5, i / 5, z, n)
    decreases n
  {
    hide Bit, Rotl, Triangle, Index, F.At, F.Visit, Walk, StringOf;
    IndexOfLane(i);
    if n == 0 {
      AtIs(s, i % 5, i / 5, z);
    } else {
      RhoStepsBit(s, i, z, n - 1);
      WalkVisits(n - 1);
      if Walk(n - 1) == i {
        TriangleBit(s[i], n, z);
        AtIs(s, i % 5, i / 5, z - n * (n + 1) / 2);
      }
    }
  }

  lemma RhoString(s: State)
    ensures StringOf(Rho(s)) == F.Rho(StringOf(s))
  {
    hide Bit, RhoSteps, F.RhoBit, StringOf;
    forall i, z | 0 <= i < 25 && 0 <= z < 64 ensures Bit(Rho(s)[i], z) == F.Rho(StringOf(s))[64 * i + z] {
      LanePlace(i, z);
      RhoStepsBit(s, i, z, 24);
    }
    SameString(Rho(s), F.Rho(StringOf(s)));
  }

  // ---- Pi and chi ----

  lemma PiString(s: State)
    ensures StringOf(Pi(s)) == F.Pi(StringOf(s))
  {
    hide Bit, Index, F.At, StringOf;
    forall i, z | 0 <= i < 25 && 0 <= z < 64 ensures Bit(Pi(s)[i], z) == F.Pi(StringOf(s))[64 * i + z] {
      LanePlace(i, z);
      AtIs(s, i % 5 + 3 * (i / 5), i % 5, z);
    }
    SameString(Pi(s), F.Pi(StringOf(s)));
  }

  lemma ChiLaneBit(s: State, i: nat, z: nat)
    requires i < 25 && z < 64
    ensures Bit(ChiLane(s, i), z) == F.ChiBit(StringOf(s), i % 5, i / 5, z)
  {
    hide Bit, Index, Nonlinear, F.At, StringOf;
    var x, y := i % 5, i / 5;
    NonlinearBit(s[i], s[Index(x + 1, y)], s[Index(x + 2, y)], z);
    AtIs(s, x, y, z);
    AtIs(s, x + 1, y, z);
    AtIs(s, x + 2, y, z);
    IndexOfLane(i);
  }

  lemma ChiString(s: State)
    ensures StringOf(Chi(s)) == F.Chi(StringOf(s))
  {
    hide Bit, ChiLane, F.ChiBit, StringOf;
    forall i, z | 0 <= i < 25 && 0 <= z < 64 ensures Bit(Chi(s)[i], z) == F.Chi(StringOf(s))[64 * i + z] {
      LanePlace(i, z);
      ChiLaneBit(s, i, z);
    }
    SameString(Chi(s), F.Chi(StringOf(s)));
  }

  // ---- Iota: the register and the constants ----

  lemma FeedbackBits(r: bv8)
    ensures ByteBits(Feedback(r)) == F.Shifted(ByteBits(r))
  {
  }

  lemma FeedbackNext(r: bv8, n: nat)
    requires ByteBits(r) == F.RegisterAfter(n)
    ensures ByteBits(Feedback(r)) == F.RegisterAfter(n + 1)
  {
    hide ByteBits, Feedback, F.Shifted;
    FeedbackBits(r);
  }

  lemma FeedbackSeven(r: bv8, n: nat)
    requires ByteBits(r) == F.RegisterAfter(n)
    ensures ByteBits(Feedback7(r)) == F.RegisterAfter(n + 7)
  {
    hide ByteBits, Feedback, F.RegisterAfter;
    FeedbackNext(r, n);
    FeedbackNext(Feedback(r), n + 1);
    FeedbackNext(Feedback(Feedback(r)), n + 2);
    FeedbackNext(Feedback(Feedback(Feedback(r))), n + 3);
    FeedbackNext(Feedback(Feedback(Feedback(Feedback(r)))), n + 4);
    FeedbackNext(Feedback(Feedback(Feedback(Feedback(Feedback(r))))), n + 5);
    FeedbackNext(Feedback(Feedback(Feedback(Feedback(Feedback(Feedback(r)))))), n + 6);
  }

  lemma {:induction false} RegisterString(n: nat)
    ensures ByteBits(Register(n)) == F.RegisterAfter(7 * n)
  {
    hide Feedback7;
    if n == 0 {
      assert Register(0) == 1;
    } else {
      RegisterString(n - 1);
      FeedbackSeven(Register(n - 1), 7 * (n - 1));
    }
  }

  lemma LowHalves(r: bv8)
    ensures Halve(Low(r)) == 0 && (Odd(Low(r)) <==> ByteBits(r)[0])
  {
  }

  lemma {:induction false} ZeroBit(z: nat)
    ensures !Bit(0, z)
  {
    RightOfZero(z);
  }

  /** One register output, moved to place `n`. */
  lemma LowPlaced(r: bv8, n: nat, z: nat)
    requires z < 64
    ensures Bit(Left(Low(r), n), z) <==> z == n && ByteBits(r)[0]
  {
    hide Bit, Low, Halve, Odd, ByteBits, Left;
    LeftBit(Low(r), n, z);
    if z >= n {
      LowHalves(r);
      BitIs(Low(r), z - n);
      if z > n {
        ZeroBit(z - n - 1);
      }
    }
  }

  function MovedBy(j: nat): nat {
    match j case 0 => 0 case 1 => 1 case 2 => 3 case 3 => 7 case 4 => 15 case 5 => 31 case _ => 63
  }

  lemma MovedIs(x: Lane, j: nat)
    requires j < 7
    ensures Moved(x, j) == Left(x, MovedBy(j))
  {
    hide Left;
    match j
    case 0 => LeftNone(x);
    case 1 => LeftOne(x);
    case 2 => LeftThree(x);
    case 3 => LeftSeven(x);
    case 4 => LeftFifteen(x);
    case 5 => LeftThirtyOne(x);
    case _ => LeftSixtyThree(x);
  }

  lemma OutputPlaced(r: bv8, j: nat, z: nat)
    requires j < 7 && z < 64
    ensures Bit(Moved(Low(r), j), z) <==> z == MovedBy(j) && ByteBits(r)[0]
  {
    hide Bit, Low, ByteBits, Left, Moved;
    MovedIs(Low(r), j);
    LowPlaced(r, MovedBy(j), z);
  }

  lemma OrSevenBit(a: Lane, b: Lane, c: Lane, d: Lane, e: Lane, f: Lane, g: Lane, z: nat)
    ensures Bit(OrSeven(a, b, c, d, e, f, g), z)
            <==> Bit(a, z) || Bit(b, z) || Bit(c, z) || Bit(d, z) || Bit(e, z) || Bit(f, z) || Bit(g, z)
  {
    hide Bit, Or;
    OrBit(a, b, z);
    OrBit(Or(a, b), c, z);
    OrBit(Or(Or(a, b), c), d, z);
    OrBit(Or(Or(Or(a, b), c), d), e, z);
    OrBit(Or(Or(Or(Or(a, b), c), d), e), f, z);
    OrBit(Or(Or(Or(Or(Or(a, b), c), d), e), f), g, z);
  }

  /** Seven register outputs, each at its place. */
  lemma ConstantBit(r0: bv8, z: nat)
    requires z < 64
    ensures var r1 := Feedback(r0);
            var r2 := Feedback(r1);
            var r3 := Feedback(r2);
            var r4 := Feedback(r3);
            var r5 := Feedback(r4);
            var r6 := Feedback(r5);
            Bit(RoundConstant(r0), z)
            <==> (z == 0 && ByteBits(r0)[0]) || (z == 1 && ByteBits(r1)[0]) || (z == 3 && ByteBits(r2)[0])
                 || (z == 7 && ByteBits(r3)[0]) || (z == 15 && ByteBits(r4)[0]) || (z == 31 && ByteBits(r5)[0])
                 || (z == 63 && ByteBits(r6)[0])
  {
    hide Bit, Low, ByteBits, Left, Moved, OrSeven, Feedback;
    var r1 := Feedback(r0);
    var r2 := Feedback(r1);
    var r3 := Feedback(r2);
    var r4 := Feedback(r3);
    var r5 := Feedback(r4);
    var r6 := Feedback(r5);
    LowPlaced(r0, 0, z);
    LeftNone(Low(r0));
    OutputPlaced(r1, 1, z);
    OutputPlaced(r2, 2, z);
    OutputPlaced(r3, 3, z);
    OutputPlaced(r4, 4, z);
    OutputPlaced(r5, 5, z);
    OutputPlaced(r6, 6, z);
    OrSevenBit(Low(r0), Moved(Low(r1), 1), Moved(Low(r2), 2), Moved(Low(r3), 3), Moved(Low(r4), 4), Moved(Low(r5), 5),
      Moved(Low(r6), 6), z);
  }

  /** The register's first output is 1, as rc has it for multiples of 255. */
  lemma FirstOutput()
    ensures F.RegisterAfter(0)[0]
  {
  }

  lemma RcIs(t: nat)
    requires t < 255
    ensures F.Rc(t) == F.RegisterAfter(t)[0]
  {
    hide F.RegisterAfter;
    FirstOutput();
    assert t % 255 == t;
  }

  /** Output `j` of round `n`. */
  lemma OutputIs(r: bv8, n: nat, j: nat)
    requires n < 24 && j < 7 && ByteBits(r) == F.RegisterAfter(7 * n + j)
    ensures ByteBits(r)[0] == F.Rc(j + 7 * n)
    ensures ByteBits(Feedback(r)) == F.RegisterAfter(7 * n + (j + 1))
  {
    hide ByteBits, Feedback, F.RegisterAfter, F.Rc;
    RcIs(j + 7 * n);
    FeedbackNext(r, 7 * n + j);
  }

  lemma ConstantString(n: nat, z: nat)
    requires n < 24 && z < 64
    ensures Bit(RoundConstant(Register(n)), z) == F.RoundConstantBit(n, z)
  {
    hide Bit, RoundConstant, ByteBits, Feedback, Register, F.RegisterAfter, F.Rc;
    var r0 := Register(n);
    var r1 := Feedback(r0);
    var r2 := Feedback(r1);
    var r3 := Feedback(r2);
    var r4 := Feedback(r3);
    var r5 := Feedback(r4);
    RegisterString(n);
    OutputIs(r0, n, 0);
    OutputIs(r1, n, 1);
    OutputIs(r2, n, 2);
    OutputIs(r3, n, 3);
    OutputIs(r4, n, 4);
    OutputIs(r5, n, 5);
    OutputIs(Feedback(r5), n, 6);
    ConstantBit(r0, z);
  }

  lemma IotaString(s: State, n: nat)
    requires n < 24
    ensures StringOf(Iota(s, RoundConstant(Register(n)))) == F.Iota(StringOf(s), n)
  {
    hide Bit, Xor, RoundConstant, Register, F.RoundConstantBit;
    var rc := RoundConstant(Register(n));
    forall i, z | 0 <= i < 25 && 0 <= z < 64
      ensures Bit(Iota(s, rc)[i], z) == F.Iota(StringOf(s), n)[64 * i + z]
    {
      LanePlace(i, z);
      if i == 0 {
        XorBit(s[0], rc, z);
        ConstantString(n, z);
      }
    }
    SameString(Iota(s, rc), F.Iota(StringOf(s), n));
  }

  // ---- The permutation ----

  lemma RoundString(s: State, n: nat)
    requires n < 24
    ensures StringOf(Round(s, RoundConstant(Register(n)))) == F.Round(StringOf(s), n)
  {
    hide Theta, Rho, Pi, Chi, Iota, F.Theta, F.Rho, F.Pi, F.Chi, F.Iota, RoundConstant, Register, StringOf;
    ThetaString(s);
    RhoString(Theta(s));
    PiString(Rho(Theta(s)));
    ChiString(Pi(Rho(Theta(s))));
    IotaString(Chi(Pi(Rho(Theta(s)))), n);
  }

  lemma {:induction false} RoundsString(s: State, n: nat)
    requires n <= 24
    ensures StringOf(Rounds(s, n)) == F.Rounds(StringOf(s), n)
  {
    hide Round, F.Round, RoundConstant, Register, StringOf;
    if n > 0 {
      RoundsString(s, n - 1);
      RoundString(Rounds(s, n - 1), n - 1);
    }
  }

  /** The permutation of the lanes is KECCAK-p[1600, 24] on the state string. */
  lemma PermutationIsFips(s: State)
    ensures StringOf(KeccakF(s)) == F.KeccakP(StringOf(s))
  {
    hide Rounds, F.Rounds, StringOf;
    RoundsString(s, 24);
  }
}
