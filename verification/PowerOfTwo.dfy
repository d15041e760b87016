/** Rounding a size up to a power of two by smearing its bits. Bits are those of a natural
    number, the lowest first. */
module PowerOfTwo {
  function Power(k: nat): (p: nat)
    ensures p >= 1
  {
    if k == 0 then 1 else 2 * Power(k - 1)
  }

  /** x | y */
  function Or(x: nat, y: nat): nat {
    if x == 0 && y == 0 then 0
    else 2 * Or(x / 2, y / 2) + if x % 2 == 1 || y % 2 == 1 then 1 else 0
  }

  /** x >> s */
  function Shift(x: nat, s: nat): nat {
    if s == 0 then x else Shift(x / 2, s - 1)
  }

  /** The first steps of x |= x >> 1, x |= x >> 2, x |= x >> 4 and so on. */
  function Smear(x: nat, steps: nat): nat {
    if steps == 0 then x
    else
      var y := Smear(x, steps - 1);
      Or(y, Shift(y, Power(steps - 1)))
  }

  /** pow2gt */
  function Pow2Gt(x: int): int
    requires 1 <= x <= 0x4000_0000
  {
    Smear(x - 1, 5) + 1
  }

  lemma {:induction false} ShiftHalf(x: nat, s: nat)
    ensures Shift(x / 2, s) == Shift(x, s) / 2
  {
    if s > 0 {
      ShiftHalf(x / 2, s - 1);
    }
  }

  /** Smearing works bit by bit: dropping the lowest bit before or after is the same. */
  lemma {:induction false} SmearHalf(x: nat, steps: nat)
    ensures Smear(x / 2, steps) == Smear(x, steps) / 2
  {
    if steps > 0 {
      SmearHalf(x, steps - 1);
      ShiftHalf(Smear(x, steps - 1), Power(steps - 1));
    }
  }

  lemma {:induction false} SmearShift(x: nat, steps: nat, s: nat)
    ensures Smear(Shift(x, s), steps) == Shift(Smear(x, steps), s)
  {
    if s > 0 {
      SmearShift(x / 2, steps, s - 1);
      SmearHalf(x, steps);
    }
  }

  /** Whether one of the lowest n bits is set. */
  predicate LowBits(x: nat, n: nat) {
    n > 0 && (x % 2 == 1 || LowBits(x / 2, n - 1))
  }

  lemma {:induction false} LowAndHigh(x: nat, m: nat, n: nat)
    ensures LowBits(x, m + n) <==> LowBits(x, m) || LowBits(Shift(x, m), n)
  {
    if m > 0 {
      LowAndHigh(x / 2, m - 1, n);
    }
  }

  /** The lowest bit after smearing says whether any of the lowest 2^steps bits was set. */
  lemma {:induction false} LowestBit(x: nat, steps: nat)
    ensures Smear(x, steps) % 2 == 1 <==> LowBits(x, Power(steps))
    decreases steps
  {
    if steps == 0 {
      assert LowBits(x, 1) <==> x % 2 == 1 || LowBits(x / 2, 0);
    } else {
      var s := Power(steps - 1);
      LowestBit(x, steps - 1);
      LowestBit(Shift(x, s), steps - 1);
      SmearShift(x, steps - 1, s);
      LowAndHigh(x, s, s);
    }
  }

  lemma {:induction false} SomeBit(x: nat, n: nat)
    requires x < Power(n)
    ensures LowBits(x, n) <==> x > 0
  {
    if n > 0 {
      SomeBit(x / 2, n - 1);
    }
  }

  lemma {:induction false} PowerGrows(j: nat, k: nat)
    requires j <= k
    ensures Power(j) <= Power(k) && (j < k ==> Power(j) <= Power(k - 1))
  {
    if j < k {
      PowerGrows(j, k - 1);
    }
  }

  lemma {:induction false} SmearZero(steps: nat)
    ensures Smear(0, steps) == 0
  {
    if steps > 0 {
      SmearZero(steps - 1);
      ShiftZero(Power(steps - 1));
    }
  }

  lemma {:induction false} ShiftZero(s: nat)
    ensures Shift(0, s) == 0
  {
    if s > 0 {
      ShiftZero(s - 1);
    }
  }

  lemma Width()
    ensures Power(5) == 32 && Power(30) == 0x4000_0000
  {
    assert Power(10) == 1024;
    assert Power(20) == 1024 * 1024;
  }

  /** From its highest bit down, a smeared number is all ones. */
  lemma {:induction false} AllOnes(x: nat, k: nat)
    requires x < Power(k) && (k == 0 || Power(k - 1) <= x) && k <= 32
    ensures Smear(x, 5) + 1 == Power(k)
  {
    if k == 0 {
      SmearZero(5);
    } else {
      Width();
      LowestBit(x, 5);
      PowerGrows(k, 32);
      SomeBit(x, 32);
      SmearHalf(x, 5);
      AllOnes(x / 2, k - 1);
    }
  }

  /** The least power of two that is at least x. */
  lemma LeastPower(x: int) returns (k: nat)
    requires 1 <= x <= 0x4000_0000
    ensures Pow2Gt(x) == Power(k) && x <= Power(k) <= 0x4000_0000
    ensures forall j: nat :: x <= Power(j) ==> Power(k) <= Power(j)
  {
    k := 0;
    Width();
    while Power(k) < x
      invariant k <= 30 && (k > 0 ==> Power(k - 1) < x)
      decreases 30 - k
    {
      PowerGrows(k, 30);
      k := k + 1;
    }
    AllOnes(x - 1, k);
    PowerGrows(k, 30);
    forall j: nat | x <= Power(j) ensures Power(k) <= Power(j) {
      if j < k {
        PowerGrows(j, k);
      } else {
        PowerGrows(k, j);
      }
    }
  }
}
