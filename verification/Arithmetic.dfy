/** Powers of two, the integer form of a rounded-up base-two logarithm, and circular probe windows. */
module Arithmetic {

  function Pow2(n: nat): (r: nat)
    ensures r >= 1
  {
    if n == 0 then 1 else 2 * Pow2(n - 1)
  }

  lemma {:induction false} Pow2Add(a: nat, b: nat)
    ensures Pow2(a + b) == Pow2(a) * Pow2(b)
  {
    if b == 0 {
    } else {
      Pow2Add(a, b - 1);
      assert Pow2(a + b) == 2 * Pow2(a + (b - 1));
      DoubleFactor(Pow2(a), Pow2(b - 1));
    }
  }

  lemma {:induction false} Pow2Monotone(a: nat, b: nat)
    requires a <= b
    ensures Pow2(a) <= Pow2(b)
  {
    if a < b {
      Pow2Monotone(a, b - 1);
    }
  }

  lemma Pow2Of56()
    ensures Pow2(56) == 0x100_0000_0000_0000
  {
    assert Pow2(7) == 128;
    Pow2Add(7, 7);
    Pow2Add(14, 14);
    Pow2Add(28, 28);
  }

  function ShiftLeft(x: nat, n: nat): (r: nat)
    decreases n
  {
    if n == 0 then x else 2 * ShiftLeft(x, n - 1)
  }

  lemma {:induction false} ShiftLeftIsScale(x: nat, n: nat)
    ensures ShiftLeft(x, n) == x * Pow2(n)
    decreases n
  {
    if n > 0 {
      ShiftLeftIsScale(x, n - 1);
      DoubleFactor(x, Pow2(n - 1));
    }
  }

  lemma {:induction false} ShiftLeftTwice(x: nat, m: nat, n: nat)
    ensures ShiftLeft(ShiftLeft(x, m), n) == ShiftLeft(x, m + n)
    decreases n
  {
    if n > 0 {
      ShiftLeftTwice(x, m, n - 1);
    }
  }

  lemma DoubleFactor(x: nat, y: nat)
    ensures x * (2 * y) == 2 * (x * y)
  {
  }

  function ShiftRight(x: nat, n: nat): (r: nat)
    decreases n
  {
    if n == 0 then x else ShiftRight(x, n - 1) / 2
  }

  lemma {:induction false} ShiftRightBelow(x: nat, n: nat, bits: nat)
    requires x < Pow2(bits + n)
    ensures ShiftRight(x, n) < Pow2(bits)
    decreases n
  {
    if n > 0 {
      ShiftRightBelow(x, n - 1, bits + 1);
    }
  }

  lemma {:induction false} ShiftRightMonotone(x: nat, y: nat, n: nat)
    requires x <= y
    ensures ShiftRight(x, n) <= ShiftRight(y, n)
    decreases n
  {
    if n > 0 {
      ShiftRightMonotone(x, y, n - 1);
    }
  }

  /** Shifting right is dividing by the power of two, rounded down. */
  lemma {:induction false} ShiftRightBounds(x: nat, n: nat)
    ensures ShiftRight(x, n) * Pow2(n) <= x < (ShiftRight(x, n) + 1) * Pow2(n)
    decreases n
  {
    if n > 0 {
      ShiftRightBounds(x, n - 1);
      HalfQuotient(x, ShiftRight(x, n - 1), Pow2(n - 1));
    }
  }

  lemma HalfQuotient(x: nat, q: nat, g: nat)
    requires q * g <= x < (q + 1) * g
    ensures q / 2 * (2 * g) <= x < (q / 2 + 1) * (2 * g)
  {
    var h := q / 2;
    assert h * (2 * g) == (2 * h) * g && (h + 1) * (2 * g) == (2 * h + 2) * g;
    assert (2 * h) * g <= q * g by {
      MulNoLess(2 * h, q, g);
    }
    assert (q + 1) * g <= (2 * h + 2) * g by {
      MulNoLess(q + 1, 2 * h + 2, g);
    }
  }

  lemma MulNoLess(a: nat, b: nat, g: nat)
    requires a <= b
    ensures a * g <= b * g
  {
  }

  /** Rounded-up base-two logarithm, 0 for 0: the power of two just large enough to hold n. */
  function CeilLog2(n: nat): (r: nat) {
    if n <= 1 then 0 else 1 + CeilLog2((n + 1) / 2)
  }

  /** CeilLog2 is the least power of two that is no less than n. */
  lemma {:induction false} CeilLog2Bounds(n: nat)
    ensures n <= Pow2(CeilLog2(n))
    ensures n > 1 ==> CeilLog2(n) > 0 && Pow2(CeilLog2(n) - 1) < n
  {
    if n > 1 {
      CeilLog2Bounds((n + 1) / 2);
    }
  }

  /** Steps a circular probe that begins at start takes to reach p. */
  function Distance(start: nat, p: nat, cap: nat): (r: nat)
    requires start < cap && p < cap
    ensures r < cap
  {
    if p >= start then p - start else p + cap - start
  }

  lemma ProbeDistance(start: nat, k: nat, cap: nat)
    requires start < cap
    ensures 0 <= (start + k) % cap < cap
    ensures Distance(start, (start + k) % cap, cap) <= k
    ensures k < cap ==> Distance(start, (start + k) % cap, cap) == k
  {
  }

  lemma ProbeReaches(start: nat, p: nat, cap: nat)
    requires start < cap && p < cap
    ensures (start + Distance(start, p, cap)) % cap == p
  {
  }

  lemma MulAtLeast(a: int, g: int)
    requires a >= 1 && g > 0
    ensures a * g >= g
  {
  }

  /** Quotient and remainder are determined by the number they make up. */
  lemma DivModUnique(q: int, r: int, q': int, r': int, g: int)
    requires g > 0 && 0 <= r < g && 0 <= r' < g
    requires q * g + r == q' * g + r'
    ensures q == q' && r == r'
  {
    if q > q' {
      assert (q - q') * g == q * g - q' * g;
      MulAtLeast(q - q', g);
    } else if q < q' {
      assert (q' - q) * g == q' * g - q * g;
      MulAtLeast(q' - q, g);
    }
  }

  /** Scaling by a positive factor is undone by division and leaves no remainder. */
  lemma ScaleFacts(x: nat, g: nat)
    requires g > 0
    ensures (x * g) % g == 0 && (x * g) / g == x
  {
    DivModUnique((x * g) / g, (x * g) % g, x, 0, g);
  }

  lemma ScaleInjective(x: nat, y: nat, g: nat)
    requires g > 0 && x * g == y * g
    ensures x == y
  {
  }

  lemma ScaleBelow(x: nat, n: nat, g: nat)
    requires g > 0 && x < n
    ensures x * g < n * g
  {
  }

  /** An injective map has as many values as keys. */
  lemma {:induction false} InjectiveSize<A, B>(m: map<A, B>)
    requires forall a, b :: a in m && b in m && m[a] == m[b] ==> a == b
    ensures |m.Values| == |m.Keys|
  {
    if m.Keys == {} {
      assert m.Values == {};
    } else {
      var a :| a in m;
      var rest := m - {a};
      InjectiveSize(rest);
      assert rest.Keys == m.Keys - {a};
      assert m.Values == rest.Values + {m[a]} by {
        forall v | v in m.Values
          ensures v in rest.Values + {m[a]}
        {
          var k :| k in m && m[k] == v;
          assert k != a ==> k in rest && rest[k] == v;
        }
      }
      assert m[a] !in rest.Values;
    }
  }
}
