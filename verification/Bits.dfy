/** Bitwise operations of unsigned machine words, on numbers, and the power-of-two tricks of ringbuf.c and util.c. */
module Bits {
  const WORD := 0x1_0000_0000_0000_0000  // size_t wraps here

  function Or(a: nat, b: nat): nat
    decreases a + b
  {
    if a == 0 && b == 0 then 0
    else 2 * Or(a / 2, b / 2) + (if a % 2 == 1 || b % 2 == 1 then 1 else 0)
  }

  function And(a: nat, b: nat): nat
    decreases a + b
  {
    if a == 0 || b == 0 then 0
    else 2 * And(a / 2, b / 2) + (if a % 2 == 1 && b % 2 == 1 then 1 else 0)
  }

  function Pow2(k: nat): (p: nat)
    ensures p >= 1
  {
    if k == 0 then 1 else 2 * Pow2(k - 1)
  }

  lemma {:induction false} MultipleIsBig(a: int, d: int)
    requires a != 0 && d >= 1
    ensures a * d >= d || a * d <= -d
  {
    if a >= 1 {
      assert (a - 1) * d >= 0;
    } else {
      assert (-a - 1) * d >= 0;
    }
  }

  lemma {:induction false} RemainderUnique(n: nat, d: nat, q: int, r: nat)
    requires d >= 1 && r < d && n == q * d + r
    ensures n % d == r && n / d == q
  {
    var q', r' := n / d, n % d;
    assert n == q' * d + r';
    assert (q - q') * d == r' - r;
    if q != q' {
      MultipleIsBig(q - q', d);
      assert false;
    }
  }

  lemma {:induction false} HalfRemainder(n: nat, p: nat)
    requires p >= 1
    ensures n % (2 * p) == 2 * (n / 2 % p) + n % 2
  {
    var q, r := n / 2 / p, n / 2 % p;
    assert n / 2 == q * p + r;
    assert n == 2 * (q * p + r) + n % 2;
    assert n == q * (2 * p) + (2 * r + n % 2) by {
      assert 2 * (q * p) == q * (2 * p);
    }
    RemainderUnique(n, 2 * p, q, 2 * r + n % 2);
  }

  /** Masking with a power of two less one is the remainder. */
  lemma {:induction false} MaskIsRemainder(n: nat, k: nat)
    ensures And(n, Pow2(k) - 1) == n % Pow2(k)
    decreases k
  {
    if k == 0 {
    } else {
      MaskIsRemainder(n / 2, k - 1);
      var p := Pow2(k - 1);
      assert (2 * p - 1) / 2 == p - 1 && (2 * p - 1) % 2 == 1;
      HalfRemainder(n, p);
      if n == 0 || 2 * p - 1 == 0 {
      }
    }
  }

  // ----- nextpow2sz -----

  function Shr(x: nat, n: nat): nat {
    if n == 0 then x else Shr(x / 2, n - 1)
  }

  /** sz |= sz >> n */
  function Smear(x: nat, n: nat): nat {
    Or(x, Shr(x, n))
  }

  /** What nextpow2sz has after n of its steps. */
  function Smeared(x: nat, n: nat): nat {
    if n == 0 then x else Smear(Smeared(x, n - 1), Pow2(n - 1))
  }

  lemma {:induction false} ShrHalf(x: nat, n: nat)
    ensures Shr(x, n) / 2 == Shr(x / 2, n)
    decreases n
  {
    if n > 0 {
      ShrHalf(x / 2, n - 1);
    }
  }

  lemma {:induction false} ShrZero(n: nat)
    ensures Shr(0, n) == 0
  {
    if n > 0 {
      ShrZero(n - 1);
    }
  }

  lemma {:induction false} OrStep(a: nat, b: nat)
    ensures Or(a, b) / 2 == Or(a / 2, b / 2)
    ensures Or(a, b) % 2 == 1 <==> a % 2 == 1 || b % 2 == 1
  {
  }

  lemma {:induction false} SmearHalf(x: nat, n: nat)
    ensures Smear(x, n) / 2 == Smear(x / 2, n)
  {
    OrStep(x, Shr(x, n));
    ShrHalf(x, n);
  }

  lemma {:induction false} SmearedHalf(x: nat, n: nat)
    ensures Smeared(x, n) / 2 == Smeared(x / 2, n)
  {
    if n > 0 {
      SmearedHalf(x, n - 1);
      SmearHalf(Smeared(x, n - 1), Pow2(n - 1));
    }
  }

  lemma {:induction false} SmearedShr(x: nat, n: nat, m: nat)
    ensures Shr(Smeared(x, n), m) == Smeared(Shr(x, m), n)
    decreases m
  {
    if m > 0 {
      SmearedHalf(x, n);
      SmearedShr(x / 2, n, m - 1);
    }
  }

  /** One of the lowest n bits of x is set. */
  predicate AnyLow(x: nat, n: nat) {
    n > 0 && (x % 2 == 1 || AnyLow(x / 2, n - 1))
  }

  lemma {:induction false} AnyLowSplit(x: nat, m: nat, n: nat)
    ensures AnyLow(x, m + n) <==> AnyLow(x, m) || AnyLow(Shr(x, m), n)
    decreases m
  {
    if m > 0 {
      AnyLowSplit(x / 2, m - 1, n);
    }
  }

  lemma {:induction false} AnyLowAll(x: nat, n: nat)
    requires x < Pow2(n)
    ensures AnyLow(x, n) <==> x != 0
  {
    if n > 0 {
      AnyLowAll(x / 2, n - 1);
    }
  }

  /** After n steps the lowest bit collects the lowest 2^n bits. */
  lemma {:induction false} SmearedOdd(x: nat, n: nat)
    ensures Smeared(x, n) % 2 == 1 <==> AnyLow(x, Pow2(n))
    decreases n
  {
    if n == 0 {
      assert AnyLow(x, 1) <==> x % 2 == 1 || AnyLow(x / 2, 0);
    } else {
      var m := Pow2(n - 1);
      SmearedOdd(x, n - 1);
      SmearedOdd(Shr(x, m), n - 1);
      SmearedShr(x, n - 1, m);
      OrStep(Smeared(x, n - 1), Shr(Smeared(x, n - 1), m));
      AnyLowSplit(x, m, m);
    }
  }

  lemma {:induction false} SmearedZero(n: nat)
    ensures Smeared(0, n) == 0
  {
    if n > 0 {
      SmearedZero(n - 1);
      ShrZero(Pow2(n - 1));
    }
  }

  /** Enough steps fill every bit below the highest one: one more is the next power of two. */
  lemma {:induction false} SmearedFills(x: nat, n: nat) returns (k: nat)
    requires 1 <= x < Pow2(Pow2(n))
    ensures Smeared(x, n) + 1 == Pow2(k) && x < Pow2(k) <= 2 * x
    decreases x
  {
    SmearedHalf(x, n);
    SmearedOdd(x, n);
    AnyLowAll(x, Pow2(n));
    if x == 1 {
      SmearedZero(n);
      k := 1;
      assert Pow2(1) == 2 * Pow2(0);
    } else {
      var k' := SmearedFills(x / 2, n);
      k := k' + 1;
    }
  }

  lemma {:induction false} Pow2Monotone(a: nat, b: nat)
    requires a <= b
    ensures Pow2(a) <= Pow2(b)
    decreases b
  {
    if a < b {
      Pow2Monotone(a, b - 1);
    }
  }

  lemma {:induction false} Pow2Add(a: nat, b: nat)
    ensures Pow2(a + b) == Pow2(a) * Pow2(b)
    decreases a
  {
    if a > 0 {
      Pow2Add(a - 1, b);
      assert Pow2(a + b) == 2 * (Pow2(a - 1) * Pow2(b));
      assert 2 * (Pow2(a - 1) * Pow2(b)) == 2 * Pow2(a - 1) * Pow2(b);
    }
  }

  lemma {:induction false} Pow2Small()
    ensures Pow2(0) == 1 && Pow2(1) == 2 && Pow2(2) == 4
    ensures Pow2(3) == 8 && Pow2(4) == 16 && Pow2(5) == 32
  {
    assert Pow2(3) == 2 * Pow2(2);
    assert Pow2(5) == 2 * Pow2(4);
  }

  lemma {:induction false} Pow2Values()
    ensures Pow2(4) == 16 && Pow2(6) == 64 && Pow2(32) == 0x1_0000_0000
    ensures Pow2(63) == WORD / 2 && Pow2(64) == WORD
  {
    hide Pow2;
    Pow2Small();
    Pow2Add(4, 4);
    Pow2Add(2, 4);
    Pow2Add(8, 8);
    Pow2Add(16, 16);
    Pow2Add(32, 32);
    Pow2Add(1, 63);
  }

  /** For machine words the result is a power of two that may just not fit. */
  lemma {:induction false} SmearedBelowWord(x: nat) returns (k: nat)
    requires 1 <= x < WORD
    ensures Smeared(x, 6) + 1 == Pow2(k) && x < Pow2(k) <= 2 * x
    ensures x < WORD / 2 ==> k <= 63 && Pow2(k) <= WORD / 2
    ensures x >= WORD / 2 ==> Pow2(k) == WORD
  {
    hide Smeared;
    hide Pow2;
    Pow2Values();
    k := SmearedFills(x, 6);
    Pow2Add(1, 64);
    Pow2Small();
    if k >= 65 {
      Pow2Monotone(65, k);
      assert false;
    }
    if k == 64 {
    } else {
      Pow2Monotone(k, 63);
    }
  }

  lemma {:induction false} SixSteps(x: nat)
    ensures Smear(Smear(Smear(Smear(Smear(Smear(x, 1), 2), 4), 8), 16), 32) == Smeared(x, 6)
  {
    hide Smear;
    Pow2Small();
    assert Smeared(x, 1) == Smear(Smeared(x, 0), Pow2(0));
    assert Smeared(x, 2) == Smear(Smeared(x, 1), Pow2(1));
    assert Smeared(x, 3) == Smear(Smeared(x, 2), Pow2(2));
    assert Smeared(x, 4) == Smear(Smeared(x, 3), Pow2(3));
    assert Smeared(x, 5) == Smear(Smeared(x, 4), Pow2(4));
    assert Smeared(x, 6) == Smear(Smeared(x, 5), Pow2(5));
  }

  /**
    nextpow2sz: the least power of two that is not below its argument, and 0
    for an argument of 0 or one whose answer does not fit a machine word.
   */
  method NextPow2(n: nat) returns (r: nat)
    requires n < WORD
    ensures 1 <= n <= WORD / 2 ==> (exists k: nat :: k <= 63 && r == Pow2(k)) && n <= r < 2 * n
    ensures n == 0 || n > WORD / 2 ==> r == 0
  {
    hide Smear;
    hide Smeared;
    var sz := (n - 1) % WORD;
    ghost var x := sz;
    sz := Smear(sz, 1);
    sz := Smear(sz, 2);
    sz := Smear(sz, 4);
    sz := Smear(sz, 8);
    sz := Smear(sz, 16);
    sz := Smear(sz, 32);
    SixSteps(x);
    r := (1 + sz) % WORD;
    if x == 0 {
      SmearedZero(6);
      assert r == Pow2(0);
    } else {
      var k := SmearedBelowWord(x);
      assert x < WORD / 2 ==> r == Pow2(k);
    }
  }
}
