/** The bits of a lane, and what the lane operations do to them. */
module LaneBits {
  import opened Keccak

  /** Bit `z` of a lane, the least significant first: `(x >> z) & 1`. */
  predicate Bit(x: Lane, z: nat) {
    Odd(Right(x, z))
  }

  predicate Odd(x: Lane) {
    x & 1 != 0
  }

  lemma {:induction false} RightOfHalf(x: Lane, n: nat)
    ensures Right(Halve(x), n) == Halve(Right(x, n))
  {
    hide Halve;
    if n > 0 {
      RightOfHalf(x, n - 1);
    }
  }

  /** Bits beyond the lowest are those of the half. */
  lemma BitIs(x: Lane, z: nat)
    ensures Bit(x, z) == if z == 0 then Odd(x) else Bit(Halve(x), z - 1)
  {
    hide Halve, Odd;
    if z > 0 {
      RightOfHalf(x, z - 1);
    }
  }

  // ---- Bitwise operations ----

  function And(a: Lane, b: Lane): Lane {
    a & b
  }

  lemma OrHalves(a: Lane, b: Lane)
    ensures Halve(Or(a, b)) == Or(Halve(a), Halve(b)) && (Odd(Or(a, b)) <==> Odd(a) || Odd(b))
  {
  }

  lemma AndHalves(a: Lane, b: Lane)
    ensures Halve(And(a, b)) == And(Halve(a), Halve(b)) && (Odd(And(a, b)) <==> Odd(a) && Odd(b))
  {
  }

  lemma XorHalves(a: Lane, b: Lane)
    ensures Halve(Xor(a, b)) == Xor(Halve(a), Halve(b)) && (Odd(Xor(a, b)) <==> Odd(a) != Odd(b))
  {
  }

  lemma NonlinearHalves(a: Lane, b: Lane, c: Lane)
    ensures Halve(Nonlinear(a, b, c)) == Nonlinear(Halve(a), Halve(b), Halve(c))
    ensures Odd(Nonlinear(a, b, c)) <==> Odd(a) != (!Odd(b) && Odd(c))
  {
  }

  lemma {:induction false} OrBit(a: Lane, b: Lane, z: nat)
    ensures Bit(Or(a, b), z) <==> Bit(a, z) || Bit(b, z)
    decreases z
  {
    hide Bit, Halve, Odd, Or;
    OrHalves(a, b);
    BitIs(a, z);
    BitIs(b, z);
    BitIs(Or(a, b), z);
    if z > 0 {
      OrBit(Halve(a), Halve(b), z - 1);
    }
  }

  lemma {:induction false} AndBit(a: Lane, b: Lane, z: nat)
    ensures Bit(And(a, b), z) <==> Bit(a, z) && Bit(b, z)
    decreases z
  {
    hide Bit, Halve, Odd, And;
    AndHalves(a, b);
    BitIs(a, z);
    BitIs(b, z);
    BitIs(And(a, b), z);
    if z > 0 {
      AndBit(Halve(a), Halve(b), z - 1);
    }
  }

  lemma {:induction false} XorBit(a: Lane, b: Lane, z: nat)
    ensures Bit(Xor(a, b), z) <==> Bit(a, z) != Bit(b, z)
    decreases z
  {
    hide Bit, Halve, Odd, Xor;
    XorHalves(a, b);
    BitIs(a, z);
    BitIs(b, z);
    BitIs(Xor(a, b), z);
    if z > 0 {
      XorBit(Halve(a), Halve(b), z - 1);
    }
  }

  /** What chi does to each bit. */
  lemma {:induction false} NonlinearBit(a: Lane, b: Lane, c: Lane, z: nat)
    ensures Bit(Nonlinear(a, b, c), z) <==> Bit(a, z) != (!Bit(b, z) && Bit(c, z))
    decreases z
  {
    hide Bit, Halve, Odd, Nonlinear;
    NonlinearHalves(a, b, c);
    BitIs(a, z);
    BitIs(b, z);
    BitIs(c, z);
    BitIs(Nonlinear(a, b, c), z);
    if z > 0 {
      NonlinearBit(Halve(a), Halve(b), Halve(c), z - 1);
    }
  }

  /** The parity of five bits. */
  lemma ParityBit(a: Lane, b: Lane, c: Lane, d: Lane, e: Lane, z: nat)
    ensures Bit(Parity(a, b, c, d, e), z)
            <==> ((((Bit(a, z) != Bit(b, z)) != Bit(c, z)) != Bit(d, z)) != Bit(e, z))
  {
    hide Bit, Xor;
    XorBit(a, b, z);
    XorBit(Xor(a, b), c, z);
    XorBit(Xor(Xor(a, b), c), d, z);
    XorBit(Xor(Xor(Xor(a, b), c), d), e, z);
  }

  // ---- Shifts ----

  lemma {:induction false} RightAdds(x: Lane, m: nat, n: nat)
    ensures Right(Right(x, m), n) == Right(x, m + n)
  {
    hide Halve;
    if n > 0 {
      RightAdds(x, m, n - 1);
    }
  }

  lemma {:induction false} RightOfZero(n: nat)
    ensures Right(0, n) == 0
  {
    if n > 0 {
      RightOfZero(n - 1);
    }
  }

  lemma RightTwo(x: Lane)
    ensures Right(x, 2) == x >> 2
  {
    assert Right(x, 1) == x >> 1;
  }

  lemma RightFour(x: Lane)
    ensures Right(x, 4) == x >> 4
  {
    RightTwo(x);
    RightTwo(x >> 2);
    hide Right;
    RightAdds(x, 2, 2);
  }

  lemma RightEight(x: Lane)
    ensures Right(x, 8) == x >> 8
  {
    hide Right;
    RightFour(x);
    RightFour(x >> 4);
    RightAdds(x, 4, 4);
  }

  lemma RightSixteen(x: Lane)
    ensures Right(x, 16) == x >> 16
  {
    hide Right;
    RightEight(x);
    RightEight(x >> 8);
    RightAdds(x, 8, 8);
  }

  lemma RightThirtyTwo(x: Lane)
    ensures Right(x, 32) == x >> 32
  {
    hide Right;
    RightSixteen(x);
    RightSixteen(x >> 16);
    RightAdds(x, 16, 16);
  }

  // The other whole bytes.

  lemma RightNone(x: Lane)
    ensures Right(x, 0) == x
  {
  }

  lemma RightTwentyFour(x: Lane)
    ensures Right(x, 24) == x >> 24
  {
    hide Right;
    RightSixteen(x);
    RightEight(x >> 16);
    RightAdds(x, 16, 8);
  }

  lemma RightForty(x: Lane)
    ensures Right(x, 40) == x >> 40
  {
    hide Right;
    RightThirtyTwo(x);
    RightEight(x >> 32);
    RightAdds(x, 32, 8);
  }

  lemma RightFortyEight(x: Lane)
    ensures Right(x, 48) == x >> 48
  {
    hide Right;
    RightThirtyTwo(x);
    RightSixteen(x >> 32);
    RightAdds(x, 32, 16);
  }

  lemma RightFiftySix(x: Lane)
    ensures Right(x, 56) == x >> 56
  {
    hide Right;
    RightFortyEight(x);
    RightEight(x >> 48);
    RightAdds(x, 48, 8);
  }

  /** A lane has 64 bits. */
  lemma NoMoreBits(x: Lane, z: nat)
    requires z >= 64
    ensures !Bit(x, z)
  {
    RightThirtyTwo(x);
    RightThirtyTwo(x >> 32);
    hide Right;
    RightAdds(x, 32, 32);
    RightAdds(x, 64, z - 64);
    RightOfZero(z - 64);
  }

  lemma RightBit(x: Lane, n: nat, z: nat)
    ensures Bit(Right(x, n), z) == Bit(x, n + z)
  {
    hide Right, Odd;
    RightAdds(x, n, z);
  }

  /** All bits but the highest. */
  const LOW: Lane := 0x7FFF_FFFF_FFFF_FFFF

  lemma LowShifted()
    ensures Right(LOW, 62) != 0
  {
    hide Right;
    RightThirtyTwo(LOW);
    RightSixteen(LOW >> 32);
    RightEight(LOW >> 48);
    RightFour(LOW >> 56);
    RightTwo(LOW >> 60);
    RightAdds(LOW, 32, 16);
    RightAdds(LOW, 48, 8);
    RightAdds(LOW, 56, 4);
    RightAdds(LOW, 60, 2);
  }

  predicate Ones(x: Lane) {
    x & (x + 1) == 0
  }

  lemma OnesHalve(x: Lane)
    requires Ones(x)
    ensures Ones(Halve(x)) && (x != 0 ==> Odd(x))
  {
  }

  lemma {:induction false} OnesRight(n: nat)
    ensures Ones(Right(LOW, n))
  {
    if n > 0 {
      OnesRight(n - 1);
      OnesHalve(Right(LOW, n - 1));
    }
  }

  lemma LowBit(z: nat)
    requires z < 63
    ensures Bit(LOW, z)
  {
    LowShifted();
    RightAdds(LOW, z, 62 - z);
    RightOfZero(62 - z);
    OnesRight(z);
    OnesHalve(Right(LOW, z));
  }

  lemma DoubleHalves(x: Lane)
    ensures Halve(Double(x)) == And(x, LOW) && !Odd(Double(x))
  {
  }

  lemma DoubleBit(x: Lane, z: nat)
    requires z < 64
    ensures Bit(Double(x), z) == (z > 0 && Bit(x, z - 1))
  {
    hide Bit, Double, Halve, Odd, And;
    DoubleHalves(x);
    BitIs(Double(x), z);
    if z > 0 {
      AndBit(x, LOW, z - 1);
      LowBit(z - 1);
    }
  }

  lemma {:induction false} LeftBit(x: Lane, n: nat, z: nat)
    requires z < 64
    ensures Bit(Left(x, n), z) == (z >= n && Bit(x, z - n))
  {
    hide Bit, Double;
    if n > 0 {
      DoubleBit(Left(x, n - 1), z);
      if z > 0 {
        LeftBit(x, n - 1, z - 1);
      }
    }
  }

  lemma {:induction false} LeftAdds(x: Lane, m: nat, n: nat)
    ensures Left(Left(x, m), n) == Left(x, m + n)
  {
    hide Double;
    if n > 0 {
      LeftAdds(x, m, n - 1);
    }
  }

  lemma LeftNone(x: Lane)
    ensures Left(x, 0) == x
  {
  }

  lemma LeftOne(x: Lane)
    ensures Left(x, 1) == x << 1
  {
  }

  lemma LeftTwo(x: Lane)
    ensures Left(x, 2) == x << 2
  {
    LeftOne(x);
    LeftOne(x << 1);
    hide Left;
    LeftAdds(x, 1, 1);
  }

  lemma LeftFour(x: Lane)
    ensures Left(x, 4) == x << 4
  {
    hide Left;
    LeftTwo(x);
    LeftTwo(x << 2);
    LeftAdds(x, 2, 2);
  }

  lemma LeftEight(x: Lane)
    ensures Left(x, 8) == x << 8
  {
    hide Left;
    LeftFour(x);
    LeftFour(x << 4);
    LeftAdds(x, 4, 4);
  }

  lemma LeftSixteen(x: Lane)
    ensures Left(x, 16) == x << 16
  {
    hide Left;
    LeftEight(x);
    LeftEight(x << 8);
    LeftAdds(x, 8, 8);
  }

  lemma LeftThirtyTwo(x: Lane)
    ensures Left(x, 32) == x << 32
  {
    hide Left;
    LeftSixteen(x);
    LeftSixteen(x << 16);
    LeftAdds(x, 16, 16);
  }

  // The shifts that build the round constants.

  lemma LeftThree(x: Lane)
    ensures Left(x, 3) == x << 3
  {
    hide Left;
    LeftTwo(x);
    LeftOne(x << 2);
    LeftAdds(x, 2, 1);
  }

  lemma LeftSeven(x: Lane)
    ensures Left(x, 7) == x << 7
  {
    hide Left;
    LeftFour(x);
    LeftThree(x << 4);
    LeftAdds(x, 4, 3);
  }

  lemma LeftFifteen(x: Lane)
    ensures Left(x, 15) == x << 15
  {
    hide Left;
    LeftEight(x);
    LeftSeven(x << 8);
    LeftAdds(x, 8, 7);
  }

  lemma LeftThirtyOne(x: Lane)
    ensures Left(x, 31) == x << 31
  {
    hide Left;
    LeftSixteen(x);
    LeftFifteen(x << 16);
    LeftAdds(x, 16, 15);
  }

  lemma LeftSixtyThree(x: Lane)
    ensures Left(x, 63) == x << 63
  {
    hide Left;
    LeftThirtyTwo(x);
    LeftThirtyOne(x << 32);
    LeftAdds(x, 32, 31);
  }

  /** Rotating by `n` takes each bit `n` places up, round the end. */
  lemma RotlBit(x: Lane, n: nat, z: nat)
    requires n < 64 && z < 64
    ensures Bit(Rotl(x, n), (z + n) % 64) == Bit(x, z)
  {
    hide Bit, Left, Right, Or;
    if n > 0 {
      var t := if z + n < 64 then z + n else z + n - 64;
      assert t == (z + n) % 64;
      OrBit(Left(x, n), Right(x, 64 - n), t);
      LeftBit(x, n, t);
      RightBit(x, 64 - n, t);
      if z + n < 64 {
        NoMoreBits(x, 64 - n + t);
      }
    }
  }

  /** The same, read backwards. */
  lemma RotatedBit(x: Lane, n: nat, z: nat)
    requires n < 64 && z < 64
    ensures Bit(Rotl(x, n), z) == Bit(x, (z - n) % 64)
  {
    hide Bit, Rotl;
    var t := if z >= n then z - n else z - n + 64;
    assert t == (z - n) % 64 && (t + n) % 64 == z;
    RotlBit(x, n, t);
  }
}
