/**
 * JavaScript's bitwise `&` and `|` on non-negative numbers below 2^31, the
 * only numbers the subnet calculator applies them to. There they act on the
 * binary expansions of their operands, which is how they are defined here:
 * by halving, one bit at a time.
 */
module Bits {

  function Pow2(n: nat): (r: nat)
    ensures r >= 1
  {
    if n == 0 then 1 else 2 * Pow2(n - 1)
  }

  lemma {:induction false} Pow2Add(a: nat, b: nat)
    ensures Pow2(a) * Pow2(b) == Pow2(a + b)
  {
    if a > 0 {
      Pow2Add(a - 1, b);
    }
  }

  lemma {:induction false} Pow2Monotone(a: nat, b: nat)
    requires a <= b
    ensures Pow2(a) <= Pow2(b)
    decreases b
  {
    if a < b {
      Pow2Monotone(a, b - 1);
    }
  }

  lemma Pow2Octets()
    ensures Pow2(8) == 0x100 && Pow2(16) == 0x1_0000
    ensures Pow2(24) == 0x100_0000 && Pow2(32) == 0x1_0000_0000
  {
    assert Pow2(8) == 0x100;
    Pow2Add(8, 8);
    Pow2Add(16, 8);
    Pow2Add(16, 16);
  }

  /** Bit `i` of `x`, counting from the least significant bit (i = 0). */
  predicate TestBit(x: nat, i: nat) {
    if i == 0 then x % 2 == 1 else TestBit(x / 2, i - 1)
  }

  /** `a & b`. */
  function And(a: nat, b: nat): (r: nat)
    ensures r <= a && r <= b
  {
    if a == 0 || b == 0 then 0
    else 2 * And(a / 2, b / 2) + (if a % 2 == 1 && b % 2 == 1 then 1 else 0)
  }

  /** `a | b`. */
  function Or(a: nat, b: nat): (r: nat)
    ensures a <= r && b <= r
    decreases a + b
  {
    if a == 0 then b
    else if b == 0 then a
    else 2 * Or(a / 2, b / 2) + (if a % 2 == 1 || b % 2 == 1 then 1 else 0)
  }

  lemma {:induction false} ZeroBits(i: nat)
    ensures !TestBit(0, i)
  {
    if i > 0 {
      ZeroBits(i - 1);
    }
  }

  /** A bit of `a & b` is set exactly when it is set in both operands. */
  lemma {:induction false} AndBit(a: nat, b: nat, i: nat)
    ensures TestBit(And(a, b), i) <==> TestBit(a, i) && TestBit(b, i)
    decreases i
  {
    if a == 0 || b == 0 {
      ZeroBits(i);
      if i > 0 {
        ZeroBits(i - 1);
      }
    } else if i > 0 {
      AndBit(a / 2, b / 2, i - 1);
    }
  }

  /** A bit of `a | b` is set exactly when it is set in either operand. */
  lemma {:induction false} OrBit(a: nat, b: nat, i: nat)
    ensures TestBit(Or(a, b), i) <==> TestBit(a, i) || TestBit(b, i)
    decreases i
  {
    if a == 0 {
      ZeroBits(i);
    } else if b == 0 {
      ZeroBits(i);
    } else if i > 0 {
      OrBit(a / 2, b / 2, i - 1);
    }
  }

  /** `|` keeps numbers of `n` bits within `n` bits. */
  lemma {:induction false} OrBound(a: nat, b: nat, n: nat)
    requires a < Pow2(n) && b < Pow2(n)
    ensures Or(a, b) < Pow2(n)
    decreases n
  {
    if a != 0 && b != 0 {
      OrBound(a / 2, b / 2, n - 1);
    }
  }

  /** On operands with no bit in common, `|` is addition. */
  lemma {:induction false} OrDisjoint(a: nat, b: nat)
    requires And(a, b) == 0
    ensures Or(a, b) == a + b
    decreases a + b
  {
    if a != 0 && b != 0 {
      OrDisjoint(a / 2, b / 2);
    }
  }

  /** Two numbers of `n` bits that agree on every bit are equal. */
  lemma {:induction false} BitsDetermine(x: nat, y: nat, n: nat)
    requires x < Pow2(n) && y < Pow2(n)
    requires forall i :: 0 <= i < n ==> (TestBit(x, i) <==> TestBit(y, i))
    ensures x == y
    decreases n
  {
    if n > 0 {
      assert TestBit(x, 0) <==> TestBit(y, 0);
      forall i | 0 <= i < n - 1
        ensures TestBit(x / 2, i) <==> TestBit(y / 2, i)
      {
        assert TestBit(x, i + 1) <==> TestBit(y, i + 1);
      }
      BitsDetermine(x / 2, y / 2, n - 1);
    }
  }

  /** `2^n - 1 - m` is `m` with its low `n` bits inverted. */
  lemma {:induction false} ComplementBit(m: nat, n: nat, i: nat)
    requires m < Pow2(n) && i < n
    ensures TestBit(Pow2(n) - 1 - m, i) <==> !TestBit(m, i)
    decreases n
  {
    var q, r := m / 2, m % 2;
    assert Pow2(n) - 1 - m == 2 * (Pow2(n - 1) - 1 - q) + (1 - r);
    Halve(Pow2(n - 1) - 1 - q, 1 - r);
    if i > 0 {
      ComplementBit(q, n - 1, i - 1);
    }
  }

  lemma Halve(a: int, b: int)
    requires 0 <= b < 2
    ensures (2 * a + b) / 2 == a && (2 * a + b) % 2 == b
  {
  }

  /** `2^w - 2^z` has bits `z` to `w - 1` set and the bits below `z` clear. */
  lemma {:induction false} HighOnesBit(w: nat, z: nat, i: nat)
    requires z <= w && i < w
    ensures Pow2(z) <= Pow2(w)
    ensures TestBit(Pow2(w) - Pow2(z), i) <==> z <= i
    decreases z
  {
    Pow2Monotone(z, w);
    if z == 0 {
      ComplementBit(0, w, i);
      ZeroBits(i);
    } else {
      assert Pow2(w) - Pow2(z) == 2 * (Pow2(w - 1) - Pow2(z - 1));
      if i > 0 {
        HighOnesBit(w - 1, z - 1, i - 1);
      }
    }
  }
}
