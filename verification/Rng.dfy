/** The 48-bit linear congruential generator of lib/utils/rng.c. */
module Rng {
  import opened Arith
  import opened Finite

  const MULTIPLIER: nat := 0x5deece66d
  const INCREMENT: nat := 0xb
  const MODULUS: nat := 0x1_0000_0000_0000
  const WORD64: nat := 0x1_0000_0000_0000_0000

  /** One step, with the product and the sum each reduced to 64 bits as the
      machine does, and only then to 48 bits. */
  function NextState(s: nat): nat {
    ((MULTIPLIER * s) % WORD64 + INCREMENT) % WORD64 % MODULUS
  }

  function Iterate(n: nat, s: nat): nat {
    if n == 0 then s else NextState(Iterate(n - 1, s))
  }

  /** The 32 bits that a call returns when it leaves the state at `s`. */
  function Output(s: nat): nat {
    s / 0x1_0000
  }

  // ----- 64-bit wrap-around is harmless

  lemma ModOfMod(x: nat)
    ensures x % WORD64 % MODULUS == x % MODULUS
  {
    var q := x / WORD64;
    assert x == q * WORD64 + x % WORD64;
    assert x == (q * 0x1_0000) * MODULUS + x % WORD64;
    ModAdd(x % WORD64, q * 0x1_0000, MODULUS);
  }

  /** The wrapped computation agrees with exact integer arithmetic modulo 2^48,
      for every state, whether or not it fits in 64 bits. */
  lemma WrapIsExact(s: nat)
    ensures NextState(s) == (0x5deece66d * s + 0xb) % 0x1_0000_0000_0000
  {
    var p := MULTIPLIER * s;
    ModOfMod(p % WORD64 + INCREMENT);
    assert p == (p / WORD64) * WORD64 + p % WORD64;
    var k := (p / WORD64) * 0x1_0000;
    assert p + INCREMENT == k * MODULUS + (p % WORD64 + INCREMENT);
    ModAdd(p % WORD64 + INCREMENT, k, MODULUS);
  }

  // ----- Full period

  /** 1 + a + ... + a^(n-1). */
  ghost function Geo(a: nat, n: nat): nat {
    if n == 0 then 0 else a * Geo(a, n - 1) + 1
  }

  /** The first difference of the orbit of `s`; always odd. */
  ghost function Stride(s: nat): nat {
    (MULTIPLIER - 1) * s + INCREMENT
  }

  ghost function Pow2(k: nat): (p: nat)
    ensures p > 0
  {
    if k == 0 then 1 else 2 * Pow2(k - 1)
  }

  /** 2^k divides x. */
  ghost predicate Divisible(k: nat, x: nat) {
    k == 0 || (x % 2 == 0 && Divisible(k - 1, x / 2))
  }

  lemma {:induction false} DivisibleIsMod(k: nat, x: nat)
    ensures Divisible(k, x) <==> x % Pow2(k) == 0
  {
    if k > 0 {
      DivisibleIsMod(k - 1, x / 2);
      ModSplit(x, Pow2(k - 1));
    }
  }

  lemma ModSplit(x: nat, d: nat)
    requires d > 0
    ensures x % (2 * d) == 2 * (x / 2 % d) + x % 2
  {
    var h := x / 2;
    var q, r := h / d, h % d;
    assert h == q * d + r;
    assert x == q * (2 * d) + (2 * r + x % 2);
    ModUnique(x, q, 2 * r + x % 2, 2 * d);
  }

  lemma {:induction false} ClosedForm(n: nat, s: nat)
    requires n > 0
    ensures Iterate(n, s) == (s + Geo(MULTIPLIER, n) * Stride(s)) % MODULUS
  {
    if n == 1 {
      assert Iterate(0, s) == s && Geo(MULTIPLIER, 0) == 0;
      WrapIsExact(s);
      UnfoldStep(s, 0, Stride(s));
    } else {
      ClosedForm(n - 1, s);
      var exact := s + Geo(MULTIPLIER, n - 1) * Stride(s);
      StepOfMod(exact);
      WrapIsExact(exact);
      UnfoldStep(s, Geo(MULTIPLIER, n - 1), Stride(s));
    }
  }

  lemma UnfoldStep(s: nat, g: nat, d: nat)
    requires d == Stride(s)
    ensures MULTIPLIER * (s + g * d) + INCREMENT == s + (MULTIPLIER * g + 1) * d
  {
    var gd := g * d;
    assert (MULTIPLIER * g + 1) * d == MULTIPLIER * gd + d;
  }

  /** Reducing the state first does not change the step. */
  lemma StepOfMod(x: nat)
    ensures NextState(x % MODULUS) == NextState(x)
  {
    WrapIsExact(x);
    WrapIsExact(x % MODULUS);
    var q := x / MODULUS;
    assert MULTIPLIER * x + INCREMENT == (MULTIPLIER * q) * MODULUS + (MULTIPLIER * (x % MODULUS) + INCREMENT);
    ModAdd(MULTIPLIER * (x % MODULUS) + INCREMENT, MULTIPLIER * q, MODULUS);
  }

  /** Geo(n + m) == Geo(m) + a^m * Geo(n), with a^m == (a - 1) * Geo(m) + 1. */
  lemma {:induction false} GeoSplit(a: nat, n: nat, m: nat)
    requires a > 0
    ensures Geo(a, n + m) == Geo(a, m) + ((a - 1) * Geo(a, m) + 1) * Geo(a, n)
  {
    if n > 0 {
      GeoSplit(a, n - 1, m);
      SplitAlgebra(a, Geo(a, m), Geo(a, n - 1));
    }
  }

  lemma SplitAlgebra(a: int, g: int, h: int)
    ensures a * (g + ((a - 1) * g + 1) * h) + 1 == g + ((a - 1) * g + 1) * (a * h + 1)
  {
    var t := (a - 1) * g + 1;
    assert a * (t * h) == t * (a * h);
    assert a * (g + t * h) == a * g + a * (t * h);
    assert t * (a * h + 1) == t * (a * h) + t;
    assert (a - 1) * g == a * g - g;
  }

  /** Doubling the count multiplies the sum by twice an odd number. */
  lemma GeoDouble(a: nat, m: nat) returns (u: nat)
    requires a % 4 == 1
    ensures u % 2 == 1
    ensures Geo(a, 2 * m) == 2 * (Geo(a, m) * u)
  {
    GeoSplit(a, m, m);
    u := DoubleAlgebra(a, a / 4, Geo(a, m));
  }

  lemma DoubleAlgebra(a: nat, e: nat, g: nat) returns (u: nat)
    requires a == 4 * e + 1
    ensures u % 2 == 1
    ensures g + ((a - 1) * g + 1) * g == 2 * (g * u)
  {
    var eg := e * g;
    u := 1 + 2 * eg;
    assert (a - 1) * g == 4 * eg;
    assert (4 * eg + 1) * g == 4 * (eg * g) + g;
    assert g * (1 + 2 * eg) == g + 2 * (g * eg);
  }

  lemma {:induction false} GeoParity(a: nat, n: nat)
    requires a % 2 == 1
    ensures Geo(a, n) % 2 == n % 2
  {
    if n > 0 {
      GeoParity(a, n - 1);
      OddStep(a, Geo(a, n - 1), n);
    }
  }

  lemma OddStep(a: nat, g: nat, n: nat)
    requires a % 2 == 1 && n > 0 && g % 2 == (n - 1) % 2
    ensures (a * g + 1) % 2 == n % 2
  {
    OddTimes(a, g);
    var x := a * g;
    assert x % 2 == g % 2;
  }

  lemma OddTimes(a: nat, g: nat)
    requires a % 2 == 1
    ensures (a * g) % 2 == g % 2
  {
    var h := a / 2;
    assert a * g == 2 * (h * g) + g by {
      assert a == 2 * h + 1;
      assert (2 * h + 1) * g == 2 * (h * g) + g;
    }
  }

  lemma ProductHalves(x: nat, u: nat)
    requires u % 2 == 1
    ensures (x * u) % 2 == x % 2
    ensures x % 2 == 0 ==> x * u / 2 == x / 2 * u
  {
    OddTimes(u, x);
    assert x * u == u * x;
    if x % 2 == 0 {
      HalfOfProduct(x, u);
    }
  }

  lemma HalfOfProduct(x: nat, u: nat)
    requires x % 2 == 0
    ensures x * u / 2 == x / 2 * u
  {
    var y := x / 2;
    assert x * u == 2 * (y * u) by { assert x == 2 * y; }
  }

  lemma DivisibleStep(k: nat, x: nat, p: nat, half: nat)
    requires k > 0 && p % 2 == x % 2 && (x % 2 == 0 ==> p / 2 == half)
    requires x % 2 == 0 ==> (Divisible(k - 1, half) <==> Divisible(k - 1, x / 2))
    ensures Divisible(k, p) <==> Divisible(k, x)
  {
  }

  /** An odd factor does not contribute to divisibility by a power of two. */
  lemma {:induction false} OddFactor(k: nat, x: nat, u: nat)
    requires u % 2 == 1
    ensures Divisible(k, x * u) <==> Divisible(k, x)
  {
    if k > 0 {
      ProductHalves(x, u);
      OddFactor(k - 1, x / 2, u);
      DivisibleStep(k, x, x * u, x / 2 * u);
    }
  }

  lemma GeoEvenStep(a: nat, k: nat, m: nat)
    requires a % 4 == 1 && k > 0
    requires Divisible(k - 1, Geo(a, m)) <==> Divisible(k - 1, m)
    ensures Divisible(k, Geo(a, 2 * m)) <==> Divisible(k, 2 * m)
  {
    var u := GeoDouble(a, m);
    OddFactor(k - 1, Geo(a, m), u);
    var x := Geo(a, m) * u;
    assert (2 * x) % 2 == 0 && 2 * x / 2 == x;
  }

  lemma GeoOddStep(a: nat, k: nat, n: nat)
    requires a % 2 == 1 && k > 0 && n % 2 == 1
    ensures !Divisible(k, Geo(a, n)) && !Divisible(k, n)
  {
    GeoParity(a, n);
  }

  lemma Halves(n: nat) returns (m: nat)
    ensures n == 2 * m || (n == 2 * m + 1 && n % 2 == 1)
    ensures n > 0 ==> m < n
  {
    m := n / 2;
  }

  /** The geometric sum is divisible by exactly the powers of two that divide
      the number of its terms. */
  lemma {:induction false} GeoDivisibility(a: nat, k: nat, n: nat)
    requires a % 4 == 1 && a % 2 == 1
    ensures Divisible(k, Geo(a, n)) <==> Divisible(k, n)
  {
    if k > 0 {
      var m := Halves(n);
      if n == 2 * m {
        GeoDivisibility(a, k - 1, m);
        GeoEvenStep(a, k, m);
      } else {
        GeoOddStep(a, k, n);
      }
    }
  }

  lemma ModulusIsPow2()
    ensures MODULUS == Pow2(48)
  {
    assert Pow2(8) == 256;
    Pow2Add(8, 8);
    Pow2Add(16, 16);
    Pow2Add(32, 16);
  }

  lemma {:induction false} Pow2Add(i: nat, j: nat)
    ensures Pow2(i + j) == Pow2(i) * Pow2(j)
  {
    if i > 0 {
      Pow2Add(i - 1, j);
    }
  }

  lemma StrideOdd(s: nat)
    ensures Stride(s) % 2 == 1
  {
    var h := (MULTIPLIER - 1) / 2;
    assert (MULTIPLIER - 1) * s == 2 * (h * s);
  }

  /** The displacement after `n` calls vanishes exactly at multiples of 2^48. */
  lemma DisplacementVanishes(s: nat, n: nat)
    ensures (Geo(MULTIPLIER, n) * Stride(s)) % MODULUS == 0 <==> n % MODULUS == 0
  {
    StrideOdd(s);
    OddFactor(48, Geo(MULTIPLIER, n), Stride(s));
    GeoDivisibility(MULTIPLIER, 48, n);
    DivisibleBy48(Geo(MULTIPLIER, n) * Stride(s));
    DivisibleBy48(n);
  }

  lemma DivisibleBy48(x: nat)
    ensures Divisible(48, x) <==> x % MODULUS == 0
  {
    ModulusIsPow2();
    DivisibleIsMod(48, x);
  }

  /** After `n` calls the state has moved on by some `x`, modulo 2^48. */
  lemma Displacement(s: nat, n: nat) returns (x: nat)
    requires n > 0
    ensures Iterate(n, s) == (s + x) % MODULUS
    ensures x % MODULUS == 0 <==> n % MODULUS == 0
  {
    x := Geo(MULTIPLIER, n) * Stride(s);
    ClosedForm(n, s);
    DisplacementVanishes(s, n);
  }

  /** The state returns to its start after exactly the multiples of 2^48 calls:
      the period is full, from every seed. */
  lemma FullPeriod(s: nat, n: nat)
    requires s < MODULUS
    ensures Iterate(n, s) == s <==> n % MODULUS == 0
  {
    if n > 0 {
      var x := Displacement(s, n);
      ReturnIffDivides(s, x, Iterate(n, s), n);
    }
  }

  lemma ReturnIffDivides(s: nat, x: nat, s': nat, n: nat)
    requires s < MODULUS && s' == (s + x) % MODULUS
    requires x % MODULUS == 0 <==> n % MODULUS == 0
    ensures s' == s <==> n % MODULUS == 0
  {
    if s' == s {
      ModUnique(x, (s + x) / MODULUS, 0, MODULUS);
    }
    if x % MODULUS == 0 {
      ModAdd(s, x / MODULUS, MODULUS);
      ModUnique(s, 0, s, MODULUS);
    }
  }

  lemma {:induction false} IterateAdd(i: nat, j: nat, s: nat)
    ensures Iterate(i + j, s) == Iterate(i, Iterate(j, s))
  {
    if i > 0 {
      IterateAdd(i - 1, j, s);
    }
  }

  lemma IterateBound(n: nat, s: nat)
    requires s < MODULUS
    ensures Iterate(n, s) < MODULUS
  {
  }

  /** Two calls leave the same state exactly when their call numbers agree
      modulo 2^48. */
  lemma OrbitInjective(i: nat, j: nat, s: nat)
    requires s < MODULUS && i <= j
    ensures Iterate(i, s) == Iterate(j, s) <==> (j - i) % MODULUS == 0
  {
    IterateAdd(j - i, i, s);
    IterateBound(i, s);
    FullPeriod(Iterate(i, s), j - i);
  }

  lemma OrbitDistinct(i: nat, j: nat, s: nat)
    requires s < MODULUS && i < j < i + MODULUS
    ensures Iterate(i, s) != Iterate(j, s)
  {
    OrbitInjective(i, j, s);
    ModUnique(j - i, 0, j - i, MODULUS);
  }

  // ----- Every state is visited

  /** The states after fewer than `n` calls. */
  ghost function Visited(n: nat, s: nat): set<nat> {
    if n == 0 then {} else Visited(n - 1, s) + {Iterate(n - 1, s)}
  }

  lemma {:induction false} VisitedWitness(n: nat, s: nat, x: nat) returns (i: nat)
    requires x in Visited(n, s)
    ensures i < n && Iterate(i, s) == x
  {
    if x == Iterate(n - 1, s) {
      i := n - 1;
    } else {
      i := VisitedWitness(n - 1, s, x);
    }
  }

  lemma {:induction false} VisitedSize(n: nat, s: nat)
    requires s < MODULUS && n <= MODULUS
    ensures |Visited(n, s)| == n
  {
    if n > 0 {
      VisitedSize(n - 1, s);
      var x := Iterate(n - 1, s);
      if x in Visited(n - 1, s) {
        var i := VisitedWitness(n - 1, s, x);
        OrbitDistinct(i, n - 1, s);
      }
    }
  }

  lemma VisitedAll(n: nat, s: nat)
    requires s < MODULUS && n == MODULUS
    ensures Visited(n, s) == Below(n)
  {
    VisitedSize(n, s);
    forall x | x in Visited(n, s)
      ensures x in Below(n)
    {
      var i := VisitedWitness(n, s, x);
      IterateBound(i, s);
    }
    FullSubset(Visited(n, s), Below(n));
  }

  /** From every seed, each 48-bit state is the state after exactly one number
      of calls below 2^48. */
  lemma EveryStateOnce(s: nat, target: nat, n: nat) returns (i: nat)
    requires n == MODULUS && s < n && target < n
    ensures i < n && Iterate(i, s) == target
    ensures forall j: nat :: j < n && Iterate(j, s) == target ==> j == i
  {
    VisitedAll(n, s);
    i := VisitedWitness(n, s, target);
    forall j: nat | j < n && Iterate(j, s) == target
      ensures j == i
    {
      if i < j { OrbitDistinct(i, j, s); }
      if j < i { OrbitDistinct(j, i, s); }
    }
  }

  // ----- The generator object

  /** Byte `k` of a word, least significant first. */
  function Byte(word: nat, k: nat): (b: nat)
    ensures b < 0x100
  {
    if k == 0 then word % 0x100 else Byte(word / 0x100, k - 1)
  }

  /** What `Fill` writes at offset `i` of a buffer of `size` bytes, starting from
      state `s`: whole words in little-endian byte order, the tail from the top
      of one more word. */
  function FillByte(s: nat, size: nat, i: nat): nat
    requires i < size
  {
    var word := Output(Iterate(i / 4 + 1, s));
    if i < size / 4 * 4 then Byte(word, i % 4) else Byte(word, 3 - i % 4)
  }

  /** The tail loop's word after `k` left shifts by eight bits. */
  ghost function Shifted(word: nat, k: nat): nat {
    if k == 0 then word else Shifted(word, k - 1) * 0x100 % 0x1_0000_0000
  }

  lemma ShiftedTop(b0: nat, b1: nat, b2: nat, b3: nat)
    requires b0 < 0x100 && b1 < 0x100 && b2 < 0x100 && b3 < 0x100
    ensures var w := b0 + 0x100 * b1 + 0x1_0000 * b2 + 0x100_0000 * b3;
      && Shifted(w, 0) / 0x100_0000 == b3
      && Shifted(w, 1) / 0x100_0000 == b2
      && Shifted(w, 2) / 0x100_0000 == b1
  {
    var w := b0 + 0x100 * b1 + 0x1_0000 * b2 + 0x100_0000 * b3;
    var w1 := 0x100 * b0 + 0x1_0000 * b1 + 0x100_0000 * b2;
    var w2 := 0x1_0000 * b0 + 0x100_0000 * b1;
    assert w * 0x100 == b3 * 0x1_0000_0000 + w1;
    ModUnique(w * 0x100, b3, w1, 0x1_0000_0000);
    assert w1 * 0x100 == b2 * 0x1_0000_0000 + w2;
    ModUnique(w1 * 0x100, b2, w2, 0x1_0000_0000);
    assert Shifted(w, 1) == w1;
    assert Shifted(w, 2) == w2;
  }

  lemma BytesOf(w: nat)
    requires w < 0x1_0000_0000
    ensures w == Byte(w, 0) + 0x100 * Byte(w, 1) + 0x1_0000 * Byte(w, 2) + 0x100_0000 * Byte(w, 3)
  {
    var w1 := w / 0x100;
    var w2 := w1 / 0x100;
    var w3 := w2 / 0x100;
    assert Byte(w, 1) == w1 % 0x100;
    assert Byte(w, 2) == w2 % 0x100;
    assert Byte(w, 3) == w3 % 0x100 == w3;
  }

  lemma TopByte(word: nat, k: nat)
    requires word < 0x1_0000_0000 && k < 3
    ensures Shifted(word, k) / 0x100_0000 == Byte(word, 3 - k)
  {
    BytesOf(word);
    ShiftedTop(Byte(word, 0), Byte(word, 1), Byte(word, 2), Byte(word, 3));
  }

  /** Byte `i` of word `w` of the buffer, whole or in the tail. */
  lemma WordByte(s: nat, size: nat, w: nat, i: nat)
    requires 4 * w <= i < size && i < 4 * w + 4
    ensures 4 * w + 4 <= size ==> FillByte(s, size, i) == Byte(Output(Iterate(w + 1, s)), i - 4 * w)
    ensures size < 4 * w + 4 ==> FillByte(s, size, i) == Byte(Output(Iterate(w + 1, s)), 3 - (i - 4 * w))
  {
    WordIndex(size, w, i);
    var word := Output(Iterate(w + 1, s));
    assert FillByte(s, size, i) == if i < size / 4 * 4 then Byte(word, i % 4) else Byte(word, 3 - i % 4);
  }

  lemma WordIndex(size: nat, w: nat, i: nat)
    requires 4 * w <= i < size && i < 4 * w + 4
    ensures i / 4 == w && i % 4 == i - 4 * w
    ensures i < size / 4 * 4 <==> 4 * w + 4 <= size
  {
  }

  /** Bitwise exclusive or of two numbers. */
  function Xor(x: nat, y: nat): nat {
    if x == 0 && y == 0 then 0 else (if x % 2 == y % 2 then 0 else 1) + 2 * Xor(x / 2, y / 2)
  }

  /** The initial state for a caller's seed. */
  function Scramble(s: nat): (r: nat)
    ensures r < MODULUS
  {
    Xor(s, MULTIPLIER) % MODULUS
  }

  /** The low `k` bits of an exclusive or determine the low `k` bits of its operand. */
  lemma {:induction false} XorInjective(k: nat, s: nat, t: nat, y: nat)
    requires Xor(s, y) % Pow2(k) == Xor(t, y) % Pow2(k)
    ensures s % Pow2(k) == t % Pow2(k)
  {
    if k > 0 {
      var d := Pow2(k - 1);
      ModSplit(Xor(s, y), d);
      ModSplit(Xor(t, y), d);
      XorHalves(s, y);
      XorHalves(t, y);
      XorInjective(k - 1, s / 2, t / 2, y / 2);
      ModSplit(s, d);
      ModSplit(t, d);
    }
  }

  lemma XorHalves(x: nat, y: nat)
    ensures Xor(x, y) / 2 == Xor(x / 2, y / 2)
    ensures Xor(x, y) % 2 == if x % 2 == y % 2 then 0 else 1
  {
  }

  // ----- Bits

  /** x >> k */
  function ShiftRight(x: nat, k: nat): nat {
    if k == 0 then x else ShiftRight(x / 2, k - 1)
  }

  lemma {:induction false} ShiftBits(x: nat, k: nat, i: nat)
    ensures Has(ShiftRight(x, k), i) <==> Has(x, i + k)
    decreases k
  {
    if k > 0 {
      ShiftBits(x / 2, k - 1, i);
    }
  }

  lemma {:induction false} ShiftAdd(x: nat, a: nat, b: nat)
    ensures ShiftRight(x, a + b) == ShiftRight(ShiftRight(x, a), b)
    decreases a
  {
    if a > 0 {
      ShiftAdd(x / 2, a - 1, b);
    }
  }

  lemma ShiftFour(x: nat)
    ensures ShiftRight(x, 4) == x / 16
  {
    assert ShiftRight(x / 2 / 2 / 2 / 2, 0) == x / 2 / 2 / 2 / 2;
    assert ShiftRight(x / 2 / 2, 2) == ShiftRight(x / 2 / 2 / 2, 1);
    assert x / 2 / 2 / 2 / 2 == x / 16;
  }

  lemma ShiftSixteen(x: nat)
    ensures ShiftRight(x, 16) == x / 0x1_0000
  {
    ShiftFour(x);
    ShiftFour(x / 16);
    ShiftFour(x / 16 / 16);
    ShiftFour(x / 16 / 16 / 16);
    ShiftAdd(x, 4, 12);
    ShiftAdd(x / 16, 4, 8);
    ShiftAdd(x / 16 / 16, 4, 4);
    assert x / 16 / 16 / 16 / 16 == x / 0x1_0000;
  }

  /** A call returns the state shifted right by 16 bits. */
  lemma OutputBits(s: nat, i: nat)
    ensures Has(s / 0x1_0000, i) <==> Has(s, i + 16)
  {
    ShiftSixteen(s);
    ShiftBits(s, 16, i);
  }

  lemma {:induction false} XorBits(x: nat, y: nat, i: nat)
    ensures Has(Xor(x, y), i) <==> Has(x, i) != Has(y, i)
    decreases i
  {
    XorHalves(x, y);
    if i > 0 {
      XorBits(x / 2, y / 2, i - 1);
    }
  }

  lemma {:induction false} LowBits(x: nat, k: nat, i: nat)
    ensures Has(x % Pow2(k), i) <==> i < k && Has(x, i)
    decreases k
  {
    if k == 0 {
      NoBits(i);
    } else {
      var d := Pow2(k - 1);
      ModSplit(x, d);
      HalfAndBit(x % Pow2(k), x / 2 % d, x % 2);
      if i > 0 {
        LowBits(x / 2, k - 1, i - 1);
      }
    }
  }

  lemma HalfAndBit(y: nat, h: nat, b: nat)
    requires y == 2 * h + b && b < 2
    ensures y / 2 == h && y % 2 == b
  {
  }

  lemma {:induction false} NoBits(i: nat)
    ensures !Has(0, i)
  {
    if i > 0 {
      NoBits(i - 1);
    }
  }

  /** The initial state is the low 48 bits of the seed, each flipped where the
      multiplier `a` has a bit. */
  lemma ScrambleBits(s: nat, a: nat, i: nat)
    requires a == MULTIPLIER
    ensures Has(Scramble(s), i) <==> i < 48 && Has(s, i) != Has(a, i)
  {
    ModulusIsPow2();
    LowBits(Xor(s, a), 48, i);
    XorBits(s, a, i);
  }

  // ----- What a filled buffer holds

  /** Whole words are little-endian copies of the top 32 bits of successive states. */
  lemma FillWord(s: nat, size: nat, w: nat)
    requires 4 * w + 4 <= size
    ensures FillByte(s, size, 4 * w) + 0x100 * FillByte(s, size, 4 * w + 1)
          + 0x1_0000 * FillByte(s, size, 4 * w + 2) + 0x100_0000 * FillByte(s, size, 4 * w + 3)
         == Iterate(w + 1, s) / 0x1_0000
  {
    WordByte(s, size, w, 4 * w);
    WordByte(s, size, w, 4 * w + 1);
    WordByte(s, size, w, 4 * w + 2);
    WordByte(s, size, w, 4 * w + 3);
    OutputFits(s, w + 1);
    BytesOf(Iterate(w + 1, s) / 0x1_0000);
  }

  lemma HighBytes(w: nat)
    requires w < 0x1_0000_0000
    ensures Byte(w, 3) == w / 0x100_0000
    ensures Byte(w, 2) == w / 0x1_0000 % 0x100
    ensures Byte(w, 1) == w / 0x100 % 0x100
  {
    BytesOf(w);
    var b0, b1, b2, b3 := Byte(w, 0), Byte(w, 1), Byte(w, 2), Byte(w, 3);
    ModUnique(w, b3, b0 + 0x100 * b1 + 0x1_0000 * b2, 0x100_0000);
    ModUnique(w, b2 + 0x100 * b3, b0 + 0x100 * b1, 0x1_0000);
    ModUnique(b2 + 0x100 * b3, b3, b2, 0x100);
    ModUnique(w, b1 + 0x100 * b2 + 0x1_0000 * b3, b0, 0x100);
    ModUnique(b1 + 0x100 * b2 + 0x1_0000 * b3, b2 + 0x100 * b3, b1, 0x100);
  }

  lemma OutputFits(s: nat, n: nat)
    requires n > 0
    ensures Iterate(n, s) / 0x1_0000 < 0x1_0000_0000
  {
    WrapIsExact(Iterate(n - 1, s));
  }

  /** The tail takes the bytes of one more word from the top. */
  lemma FillTail(s: nat, size: nat, w: nat, j: nat)
    requires 4 * w + j < size < 4 * w + 4
    ensures var word := Iterate(w + 1, s) / 0x1_0000;
      FillByte(s, size, 4 * w + j)
      == if j == 0 then word / 0x100_0000 else if j == 1 then word / 0x1_0000 % 0x100 else word / 0x100 % 0x100
  {
    WordByte(s, size, w, 4 * w + j);
    OutputFits(s, w + 1);
    HighBytes(Iterate(w + 1, s) / 0x1_0000);
  }

  /** Seeds that differ in their low 48 bits never meet in the same call. */
  lemma SeedsStayApart(s: nat, t: nat, n: nat)
    requires s % MODULUS != t % MODULUS
    ensures Iterate(n, Scramble(s)) != Iterate(n, Scramble(t))
  {
    ModulusIsPow2();
    if Scramble(s) == Scramble(t) {
      XorInjective(48, s, t, MULTIPLIER);
    } else {
      StatesStayApart(n, Scramble(s), Scramble(t));
    }
  }

  lemma Reaches(x: nat, y: nat) returns (k: nat)
    requires x < MODULUS && y < MODULUS && x != y
    ensures 0 < k < MODULUS && Iterate(k, x) == y
  {
    var n := MODULUS;
    k := EveryStateOnce(x, y, n);
  }

  lemma StatesStayApart(n: nat, x: nat, y: nat)
    requires x < MODULUS && y < MODULUS && x != y
    ensures Iterate(n, x) != Iterate(n, y)
  {
    var k := Reaches(x, y);
    IterateAdd(n, k, x);
    OrbitDistinct(n, n + k, x);
  }

  class Generator {
    var seed: nat

    ghost predicate Valid() reads this { seed < MODULUS }

    /** rng.c:31-34 */
    constructor (s: nat)
      requires s < WORD64
      ensures Valid()
      ensures seed == Scramble(s)
      ensures forall i: nat :: Has(seed, i) <==> i < 48 && Has(s, i) != Has(MULTIPLIER, i)
    {
      seed := Scramble(s);
      forall i: nat
        ensures Has(Scramble(s), i) <==> i < 48 && Has(s, i) != Has(MULTIPLIER, i)
      {
        ScrambleBits(s, MULTIPLIER, i);
      }
    }

    method Gen32() returns (x: nat)
      requires Valid()
      modifies this
      ensures Valid() && seed == Iterate(1, old(seed))
      ensures seed == (0x5deece66d * old(seed) + 0xb) % 0x1_0000_0000_0000
      ensures x == Output(seed) && x < 0x1_0000_0000
      ensures forall i: nat :: Has(x, i) <==> Has(seed, i + 16)
    {
      forall n: nat, i: nat
        ensures Has(n / 0x1_0000, i) <==> Has(n, i + 16)
      {
        OutputBits(n, i);
      }
      WrapIsExact(seed);
      var product := (MULTIPLIER * seed) % WORD64;
      var next := (product + INCREMENT) % WORD64 % MODULUS;
      seed := next;
      x := next / 0x1_0000;
    }

    /** The 53-bit numerator of the double; the two draws can be read back from it. */
    method GenNumerator() returns (x: nat)
      requires Valid()
      modifies this
      ensures Valid() && seed == Iterate(2, old(seed))
      ensures x < 0x20_0000_0000_0000
      ensures x / 0x800_0000 == Iterate(1, old(seed)) / 0x40_0000
      ensures x % 0x800_0000 == seed / 0x20_0000
    {
      var hi := Gen32();
      var lo := Gen32();
      var top, low := hi / 64, lo / 32;
      x := top * 0x800_0000 + low;
      ModUnique(x, top, low, 0x800_0000);
    }

    /** rng.c:53-70: one draw for each whole word and always one more. */
    method Fill(buf: array<nat>)
      requires Valid()
      modifies this, buf
      ensures Valid() && seed == Iterate(buf.Length / 4 + 1, old(seed))
      ensures forall i :: 0 <= i < buf.Length ==> buf[i] == FillByte(old(seed), buf.Length, i)
    {
      var pos := 0;
      var size := buf.Length;
      ghost var w := 0;
      while size >= 4
        invariant Valid() && 0 <= size && pos + size == buf.Length && pos == 4 * w
        invariant seed == Iterate(w, old(seed))
        invariant forall i :: 0 <= i < pos ==> buf[i] == FillByte(old(seed), buf.Length, i)
      {
        var x := Gen32();
        StoreWord(buf, pos, x);
        forall i | pos <= i < pos + 4
          ensures buf[i] == FillByte(old(seed), buf.Length, i)
        {
          WordByte(old(seed), buf.Length, w, i);
        }
        pos := pos + 4;
        size := size - 4;
        w := w + 1;
      }
      var x := Gen32();
      StoreTail(buf, pos, size, x);
      forall i | pos <= i < buf.Length
        ensures buf[i] == FillByte(old(seed), buf.Length, i)
      {
        WordByte(old(seed), buf.Length, w, i);
      }
    }
  }

  /** A 32-bit store on a little-endian machine. */
  method StoreWord(buf: array<nat>, pos: nat, w: nat)
    requires pos + 4 <= buf.Length
    modifies buf
    ensures forall i :: 0 <= i < buf.Length && !(pos <= i < pos + 4) ==> buf[i] == old(buf[i])
    ensures forall i :: pos <= i < pos + 4 ==> buf[i] == Byte(w, i - pos)
  {
    buf[pos], buf[pos + 1] := Byte(w, 0), Byte(w, 1);
    buf[pos + 2], buf[pos + 3] := Byte(w, 2), Byte(w, 3);
  }

  /** The last one to three bytes, most significant first. */
  method StoreTail(buf: array<nat>, start: nat, length: nat, word: nat)
    requires start + length == buf.Length && length < 4 && word < 0x1_0000_0000
    modifies buf
    ensures forall i :: 0 <= i < start ==> buf[i] == old(buf[i])
    ensures forall i :: start <= i < buf.Length ==> buf[i] == Byte(word, 3 - (i - start))
  {
    var x, k := word, 0;
    while k < length
      invariant 0 <= k <= length
      invariant x == Shifted(word, k)
      invariant forall i :: 0 <= i < start ==> buf[i] == old(buf[i])
      invariant forall i :: start <= i < start + k ==> buf[i] == Byte(word, 3 - (i - start))
    {
      TopByte(word, k);
      buf[start + k] := x / 0x100_0000;
      x := x * 0x100 % 0x1_0000_0000;
      k := k + 1;
    }
  }
}
