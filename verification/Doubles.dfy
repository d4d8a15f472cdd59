/**
 Whole numbers as they come out of an IEEE 754 double.

 A Lua script sees every argument through `tonumber`, and the event consumer sees every
 number of an event's data as a JSON float64. Both give the double nearest to the number,
 ties going to the even mantissa. Identifiers of the system lie far above 2^53, where
 doubles are more than one apart.

 Proofs that only pass rounded numbers along `hide` Nearest (or Double): what it computes is
 of no interest there, and its arithmetic would only distract the solver.
 */
module Doubles {

  /** 2^53: every whole number up to here is a double. */
  const EXACT: int := 0x20_0000_0000_0000

  /** The distance between neighbouring doubles around x. */
  function Spacing(x: nat): (s: nat)
    ensures s > 0
  {
    if x < EXACT then 1 else 2 * Spacing(x / 2)
  }

  /** The leading 53 bits of x. */
  function Mantissa(x: nat): (m: nat)
    ensures m <= x && m < EXACT
  {
    if x < EXACT then x else Mantissa(x / 2)
  }

  /** The largest double that is not above x. */
  function Floor(x: nat): (f: nat)
    ensures f <= x < f + Spacing(x)
    ensures x > 0 ==> f > 0
  {
    if x < EXACT then x else 2 * Floor(x / 2)
  }

  function Nearest(x: nat): (y: nat)
    ensures x > 0 ==> y > 0
  {
    var rest := x - Floor(x);
    if 2 * rest < Spacing(x) || (2 * rest == Spacing(x) && Mantissa(x) % 2 == 0)
    then Floor(x) else Floor(x) + Spacing(x)
  }

  /** The double nearest to x, as a whole number; rounding is symmetric around zero. */
  function Double(x: int): int {
    if x >= 0 then Nearest(x) else 0 - Nearest(-x)
  }

  /** x is itself a double. */
  predicate Representable(x: int) {
    Double(x) == x
  }

  lemma FloorOfTwice(f: nat)
    requires 2 * f >= EXACT
    ensures Floor(2 * f) == 2 * Floor(f)
  {
    assert 2 * f / 2 == f;
  }

  /** The lower neighbour of x is a double ... */
  lemma {:induction false} FloorIsDouble(x: nat)
    ensures Floor(Floor(x)) == Floor(x)
    ensures x >= EXACT ==> Floor(x) >= EXACT
  {
    if x >= EXACT {
      var h := x / 2;
      FloorIsDouble(h);
      var f := Floor(h);
      assert Floor(x) == 2 * f && 2 * f >= EXACT;
      FloorOfTwice(f);
    }
  }

  lemma PowerIsDouble()
    ensures Floor(EXACT) == EXACT
  {
    FloorOfTwice(EXACT / 2);
  }

  /** ... and so is the upper one. */
  lemma {:induction false} CeilingIsDouble(x: nat)
    ensures Floor(Floor(x) + Spacing(x)) == Floor(x) + Spacing(x)
  {
    PowerIsDouble();
    if x >= EXACT {
      var h := x / 2;
      CeilingIsDouble(h);
      FloorIsDouble(x);
      var c := Floor(h) + Spacing(h);
      assert Floor(x) + Spacing(x) == 2 * c && 2 * c >= EXACT;
      FloorOfTwice(c);
    }
  }

  /** Rounding keeps exactly the numbers on the grid. */
  lemma OnTheGrid(x: nat)
    ensures Nearest(x) == x <==> Floor(x) == x
  {
  }

  /** The leading bits times the spacing make up the lower neighbour. */
  lemma {:induction false} FloorIsProduct(x: nat)
    ensures Floor(x) == Mantissa(x) * Spacing(x)
  {
    if x >= EXACT {
      FloorIsProduct(x / 2);
      TwiceProduct(Mantissa(x / 2), Spacing(x / 2));
    }
  }

  lemma TwiceProduct(m: nat, s: nat)
    ensures m * (2 * s) == 2 * (m * s)
  {
  }

  lemma AtLeastOnce(k: int, d: nat)
    requires k >= 1
    ensures k * d >= d
  {
    assert k * d == (k - 1) * d + d;
  }

  lemma SmallMultiple(k: int, d: nat)
    requires 0 - d < k * d < d
    ensures k == 0
  {
    if k >= 1 {
      AtLeastOnce(k, d);
    } else if k <= -1 {
      AtLeastOnce(0 - k, d);
    }
  }

  lemma Quotient(x: nat, d: nat, q: nat, r: nat)
    requires x == q * d + r && r < d
    ensures x / d == q && x % d == r
  {
    var p := x / d;
    assert x == p * d + x % d;
    assert (p - q) * d == p * d - q * d;
    SmallMultiple(p - q, d);
  }

  lemma GridForm(x: nat)
    ensures Floor(x) == Mantissa(x) * Spacing(x)
    ensures x / Spacing(x) == Mantissa(x) && x % Spacing(x) == x - Floor(x)
  {
    FloorIsProduct(x);
    hide Floor, Mantissa, Spacing;
    Quotient(x, Spacing(x), Mantissa(x), x - Floor(x));
  }

  /** The doubles are the multiples of the spacing around them. */
  lemma RepresentableIff(x: nat)
    ensures Representable(x) <==> x % Spacing(x) == 0
  {
    GridForm(x);
    OnTheGrid(x);
  }

  // ---- doubles without reference to how rounding is computed ----

  function Pow2(k: nat): (p: nat)
    ensures p > 0
  {
    if k == 0 then 1 else 2 * Pow2(k - 1)
  }

  /** 53 bits, shifted. */
  predicate Shifted(x: nat, m: nat, k: nat) {
    m <= EXACT && x == m * Pow2(k)
  }

  lemma {:induction false} SpacingIsPow2(x: nat) returns (k: nat)
    ensures Spacing(x) == Pow2(k)
  {
    k := 0;
    if x >= EXACT {
      var j := SpacingIsPow2(x / 2);
      k := j + 1;
    }
  }

  lemma {:induction false} ShiftedIsDouble(m: nat, k: nat)
    requires m <= EXACT
    ensures Floor(m * Pow2(k)) == m * Pow2(k)
  {
    if k == 0 {
      PowerIsDouble();
    } else {
      ShiftedIsDouble(m, k - 1);
      TwiceProduct(m, Pow2(k - 1));
      var h := m * Pow2(k - 1);
      if 2 * h >= EXACT {
        FloorOfTwice(h);
      }
    }
  }

  /** A whole number is a double exactly if it is 53 bits, shifted. */
  lemma RepresentableIffShifted(x: nat)
    ensures Representable(x) <==> exists m, k :: Shifted(x, m, k)
  {
    OnTheGrid(x);
    if m, k :| Shifted(x, m, k) {
      ShiftedIsDouble(m, k);
    }
    if Representable(x) {
      FloorIsProduct(x);
      var k := SpacingIsPow2(x);
      assert Shifted(x, Mantissa(x), k);
    }
  }

  lemma {:induction false} FloorIsHigh(x: nat)
    requires x >= EXACT / 2
    ensures Floor(x) >= EXACT / 2
  {
    if x >= EXACT {
      FloorIsHigh(x / 2);
    }
  }

  /** Between neighbouring doubles nothing rounds down to itself. */
  lemma {:induction false} GapIsEmpty(x: nat, y: nat)
    requires Floor(x) <= y < Floor(x) + Spacing(x)
    ensures Floor(y) == Floor(x)
  {
    if x >= EXACT {
      FloorIsHigh(x / 2);
      GapIsEmpty(x / 2, y / 2);
    }
  }

  /** No double lies closer to x than the one it is rounded to. */
  lemma DoubleIsNearest(x: nat, y: nat)
    requires Representable(y)
    ensures Double(x) - x <= (if y >= x then y - x else x - y)
    ensures x - Double(x) <= (if y >= x then y - x else x - y)
  {
    OnTheGrid(y);
    if Floor(x) <= y < Floor(x) + Spacing(x) {
      GapIsEmpty(x, y);
    }
  }

  /** Going through a double twice changes nothing more than going through it once. */
  lemma DoubleTwice(x: int)
    ensures Double(Double(x)) == Double(x)
  {
    var n: nat := if x >= 0 then x else -x;
    FloorIsDouble(n);
    CeilingIsDouble(n);
  }

  lemma SmallIsExact(x: int)
    requires 0 - EXACT <= x <= EXACT
    ensures Representable(x)
  {
    PowerIsDouble();
  }

  /** Rounding moves a number by at most half of the spacing. */
  lemma NearestIsClose(x: nat)
    ensures x - Spacing(x) <= 2 * Nearest(x) - x <= x + Spacing(x)
  {
  }

  /** For positive 63-bit numbers doubles are at most 1024 apart. */
  lemma SpacingBelow63Bits(x: nat)
    requires x < EXACT * 1024
    ensures Spacing(x) <= 1024
  {
    SpacingBelow(x, 1024);
  }

  lemma {:induction false} SpacingBelow(x: nat, bound: nat)
    requires bound > 0 && x < EXACT * bound
    requires bound in {1, 2, 4, 8, 16, 32, 64, 128, 256, 512, 1024}
    ensures Spacing(x) <= bound
  {
    if x >= EXACT {
      SpacingBelow(x / 2, bound / 2);
    }
  }

  lemma {:induction false} SpacingIsPower(x: nat, bound: nat)
    requires bound in {1, 2, 4, 8, 16, 32, 64, 128, 256, 512, 1024} && x < EXACT * bound
    ensures Spacing(x) in {1, 2, 4, 8, 16, 32, 64, 128, 256, 512, 1024} && Spacing(x) <= bound
  {
    if x >= EXACT {
      SpacingIsPower(x / 2, bound / 2);
    }
  }

  /** Within a block that starts at a multiple of its size the spacing does not change. */
  lemma {:induction false} SpacingOfBlock(base: nat, r: nat, block: nat)
    requires block in {1, 2, 4, 8, 16, 32, 64, 128, 256, 512, 1024, 2048, 4096}
    requires base % block == 0 && r < block
    ensures Spacing(base + r) == Spacing(base)
    decreases base
  {
    if block > 1 && base + r >= EXACT {
      StartsInBlock(base, block);
      assert base >= EXACT;
      var half := block / 2;
      assert (base + r) / 2 == base / 2 + r / 2 && base / 2 % half == 0 by {
        var q := base / block;
        assert base == q * block;
        HalfOfBlock(q, block, half);
      }
      SpacingOfBlock(base / 2, r / 2, half);
    }
  }

  lemma StartsInBlock(base: nat, block: nat)
    requires block in {1, 2, 4, 8, 16, 32, 64, 128, 256, 512, 1024, 2048, 4096} && base % block == 0
    ensures base < EXACT ==> base + block <= EXACT
  {
  }

  lemma HalfOfBlock(q: nat, block: nat, half: nat)
    requires block in {2, 4, 8, 16, 32, 64, 128, 256, 512, 1024, 2048, 4096} && half == block / 2
    ensures q * block % 2 == 0 && q * block / 2 % half == 0
  {
    assert q * block == 2 * (q * half);
    Quotient(q * half, half, q, 0);
  }

  /** From 2^58 up to 2^59 the doubles are the multiples of 64. */
  lemma GridOf64(x: nat)
    requires 0x400_0000_0000_0000 <= x < 0x800_0000_0000_0000
    ensures Spacing(x) == 64 && Floor(x) == x / 64 * 64
  {
    var x1 := x / 2;
    var x2 := x1 / 2;
    var x3 := x2 / 2;
    var x4 := x3 / 2;
    var x5 := x4 / 2;
    var x6 := x5 / 2;
    Halve(x, x1);
    Halve(x1, x2);
    Halve(x2, x3);
    Halve(x3, x4);
    Halve(x4, x5);
    Halve(x5, x6);
    hide Spacing, Floor;
    assert x6 == x / 64;
  }

  lemma MultiplesOf64(x: int)
    requires 0x400_0000_0000_0000 <= x < 0x800_0000_0000_0000
    ensures Representable(x) <==> x % 64 == 0
  {
    GridOf64(x);
    OnTheGrid(x);
  }

  lemma Halve(x: nat, h: nat)
    requires x >= EXACT && h == x / 2
    ensures Spacing(x) == 2 * Spacing(h) && Floor(x) == 2 * Floor(h)
    ensures h < EXACT ==> Spacing(h) == 1 && Floor(h) == h
  {
  }
}
