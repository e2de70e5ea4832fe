/** pack754 and unpack754 of beej_pack.c, over the real numbers.

    The fraction field of a normal number in section 3.4 of IEEE 754-2008 is what both
    functions handle; the code has no NaN, no infinity and no subnormal numbers. */
module Float754 {
  import opened Bytes

  /** 2^k for any integer k. */
  function RPow2(k: int): (r: real)
    ensures r > 0.0
    decreases if k < 0 then -k else k
  {
    if k == 0 then 1.0 else if k > 0 then 2.0 * RPow2(k - 1) else RPow2(k + 1) / 2.0
  }

  lemma RPow2Succ(k: int)
    ensures RPow2(k + 1) == 2.0 * RPow2(k)
  {
  }

  lemma {:induction false} RPow2Nat(n: nat)
    ensures RPow2(n) == Pow2(n) as real
  {
    if n > 0 {
      RPow2Nat(n - 1);
    }
  }

  lemma {:induction false} RPow2Mono(j: int, k: int)
    requires j <= k
    ensures RPow2(j) <= RPow2(k)
    decreases k - j
  {
    if j < k {
      RPow2Mono(j + 1, k);
      RPow2Succ(j);
    }
  }

  /** The exponent k with 2^k <= x < 2^(k+1). */
  function Exponent(x: real): (k: int)
    requires x > 0.0
    ensures RPow2(k) <= x < RPow2(k + 1)
    decreases if x >= 2.0 then x.Floor else if x < 1.0 then (1.0 / x).Floor else 0
  {
    if x >= 2.0 then
      var k := Exponent(x / 2.0);
      RPow2Succ(k); RPow2Succ(k + 1);
      k + 1
    else if x < 1.0 then
      HalfReciprocal(x);
      var k := Exponent(2.0 * x);
      RPow2Succ(k - 1); RPow2Succ(k);
      k - 1
    else
      RPow2Succ(0);
      0
  }

  lemma ReciprocalAboveOne(x: real)
    requires 0.0 < x < 1.0
    ensures 1.0 / x > 1.0
  {
    var y := 1.0 / x;
    assert y * x == 1.0;
    assert (y - 1.0) * x == 1.0 - x;
  }

  lemma HalfReciprocal(x: real)
    requires 0.0 < x < 1.0
    ensures (1.0 / (2.0 * x)).Floor < (1.0 / x).Floor && (1.0 / x).Floor >= 1
  {
    var y := 1.0 / x;
    ReciprocalAboveOne(x);
    assert 1.0 / (2.0 * x) == y / 2.0;
  }

  lemma ExponentUnique(x: real, k: int)
    requires x > 0.0 && RPow2(k) <= x < RPow2(k + 1)
    ensures Exponent(x) == k
  {
    var e := Exponent(x);
    if e < k {
      RPow2Mono(e + 1, k);
    } else if k < e {
      RPow2Mono(k + 1, e);
    }
  }

  // ---------- bitwise or ----------

  /** `a | b` on natural numbers. */
  function Or(a: nat, b: nat): nat
    decreases a + b
  {
    if a == 0 && b == 0 then 0
    else (if a % 2 == 1 || b % 2 == 1 then 1 else 0) + 2 * Or(a / 2, b / 2)
  }

  lemma {:induction false} OrZero(a: nat)
    ensures Or(a, 0) == a && Or(0, a) == a
  {
    if a > 0 {
      OrZero(a / 2);
    }
  }

  lemma OrDouble(x: nat, y: nat, r: nat)
    requires r < 2
    ensures Or(2 * x, 2 * y + r) == 2 * Or(x, y) + r
  {
    assert (2 * y + r) / 2 == y && (2 * y + r) % 2 == r;
    OrZero(0);
  }

  lemma DoubleFactor(a: nat, p: nat)
    ensures a * (2 * p) == 2 * (a * p)
  {
  }

  /** Operands without a common bit add up. */
  lemma {:induction false} OrDisjoint(a: nat, b: nat, k: nat)
    requires b < Pow2(k)
    ensures Or(a * Pow2(k), b) == a * Pow2(k) + b
  {
    if k == 0 {
      OrZero(a);
    } else {
      var p := Pow2(k - 1);
      DoubleFactor(a, p);
      OrDisjoint(a, b / 2, k - 1);
      OrDouble(a * p, b / 2, b % 2);
    }
  }

  /** Setting bit k of a number whose bits below k are clear. */
  lemma {:induction false} OrBit(a: nat, k: nat)
    ensures Or(a * Pow2(k), Pow2(k)) == (if a % 2 == 0 then a + 1 else a) * Pow2(k)
  {
    if k == 0 {
      OrZero(a / 2);
    } else {
      var p := Pow2(k - 1);
      DoubleFactor(a, p);
      DoubleFactor(if a % 2 == 0 then a + 1 else a, p);
      OrBit(a, k - 1);
      OrDouble(a * p, p, 0);
    }
  }

  // ---------- the two conversions ----------

  ghost predicate Layout(bits: nat, expbits: nat) {
    1 <= expbits && expbits + 2 <= bits <= 64
  }

  function Bias(expbits: nat): nat
    requires expbits >= 1
  {
    Pow2(expbits - 1) - 1
  }

  function Abs(f: real): (r: real)
    ensures f != 0.0 ==> r > 0.0
  {
    if f < 0.0 then -f else f
  }

  function SignBit(f: real): nat {
    if f < 0.0 then 1 else 0
  }

  lemma SignOfProduct(a: real, p: real)
    requires p > 0.0
    ensures (a * p >= 0.0 <==> a >= 0.0) && (a * p > 0.0 <==> a > 0.0)
  {
  }

  /** x / p; the contracts keep products with powers of two away from the solver. */
  function Over(x: real, p: real): (r: real)
    requires p > 0.0
    ensures r * p == x
    ensures p <= x < 2.0 * p ==> 1.0 <= r < 2.0
    ensures 0.0 <= x < p ==> 0.0 <= r < 1.0
  {
    var r := x / p;
    assert r * p == x;
    SignOfProduct(r, p);
    SignOfProduct(r - 1.0, p);
    assert (r - 1.0) * p == x - p;
    SignOfProduct(1.0 - r, p);
    assert (1.0 - r) * p == p - x;
    SignOfProduct(2.0 - r, p);
    assert (2.0 - r) * p == 2.0 * p - x;
    r
  }

  lemma QuotientOf(r: real, x: real, y: real, p: real)
    requires p > 0.0 && x * p == r && y * p == r
    ensures x == y
  {
    SignOfProduct(x - y, p);
    SignOfProduct(y - x, p);
    assert (x - y) * p == 0.0 && (y - x) * p == 0.0;
  }

  /** y * p. */
  function Times(y: real, p: real): (r: real)
    requires p > 0.0
    ensures 1.0 <= y < 2.0 ==> p <= r < 2.0 * p
    ensures Over(r, p) == y
  {
    SignOfProduct(y - 1.0, p);
    SignOfProduct(2.0 - y, p);
    assert (y - 1.0) * p == y * p - p;
    assert (2.0 - y) * p == 2.0 * p - y * p;
    var r := y * p;
    QuotientOf(r, Over(r, p), y, p);
    r
  }

  lemma TimesDouble(a: real, p: real)
    requires p > 0.0
    ensures Times(a, 2.0 * p) == 2.0 * Times(a, p)
  {
    assert a * (2.0 * p) == 2.0 * (a * p);
  }

  lemma {:induction false} RPow2Add(k: int, s: nat)
    ensures RPow2(k + s) == Times(RPow2(k), RPow2(s))
    decreases s
  {
    if s > 0 {
      RPow2Add(k, s - 1);
      RPow2Succ(k + s - 1);
      TimesDouble(RPow2(k), RPow2(s - 1));
    }
  }

  /** What is left of |f| after normalising it and taking the leading one away. */
  ghost function Fraction(f: real): (r: real)
    requires f != 0.0
    ensures 0.0 <= r < 1.0
  {
    var k := Exponent(Abs(f));
    RPow2Succ(k);
    Over(Abs(f), RPow2(k)) - 1.0
  }

  /** A fraction of m. */
  function FractionOf(x: real, m: real): (r: real)
    requires 0.0 <= x < 1.0 && m > 0.0
    ensures 0.0 <= r < m
  {
    SignOfProduct(x, m);
    SignOfProduct(1.0 - x, m);
    assert (1.0 - x) * m == m - x * m;
    x * m
  }

  lemma FloorBound(v: real, n: nat)
    requires 0.0 <= v < n as real + 1.0
    ensures 0 <= v.Floor <= n
  {
  }

  /** The fraction of |f| scaled by 2^s + d. */
  ghost function Scaled(f: real, s: nat, d: real): (r: real)
    requires f != 0.0 && 0.0 <= d <= 0.5
    ensures 0.0 <= r < RPow2(s) + d
  {
    FractionOf(Fraction(f), RPow2(s) + d)
  }

  /** The scaled fraction cut to an integer: at most one above
      the largest value of its field. */
  ghost function Significand(f: real, s: nat, d: real): (g: nat)
    requires f != 0.0 && 0.0 <= d <= 0.5
    ensures g <= Pow2(s)
  {
    var scaled := Scaled(f, s, d);
    RPow2Nat(s);
    FloorBound(scaled, Pow2(s));
    scaled.Floor
  }

  ghost function BiasedExponent(f: real, expbits: nat): int
    requires f != 0.0 && expbits >= 1
  {
    Exponent(Abs(f)) + Bias(expbits)
  }

  /** The word pack754 returns when the multiplier is 2^s + d; the shifts of the
      source are 64 bits wide, so a negative biased exponent wraps around. */
  ghost function Pack754Word(f: real, bits: nat, expbits: nat, d: real): nat
    requires Layout(bits, expbits) && 0.0 <= d <= 0.5
  {
    if f == 0.0 then 0 else
      var s := bits - expbits - 1;
      Or(Or(SignBit(f) * Pow2(bits - 1) % TWO64, BiasedExponent(f, expbits) * Pow2(s) % TWO64),
         Significand(f, s, d) % TWO64)
  }

  /** +-(1 + m / 2^s) * 2^(e - bias). */
  function FieldsValue(sign: nat, e: nat, m: nat, s: nat, expbits: nat): real
    requires expbits >= 1
  {
    var result := Times(Over(m as real, RPow2(s)) + 1.0, RPow2(e - Bias(expbits)));
    if sign == 1 then -result else result
  }

  /** The number unpack754 returns. */
  function Unpack754Value(i: nat, bits: nat, expbits: nat): real
    requires 1 <= expbits && expbits + 2 <= bits
  {
    if i == 0 then 0.0 else
      var s := bits - expbits - 1;
      FieldsValue(i / Pow2(bits - 1) % 2, i / Pow2(s) % Pow2(expbits), i % Pow2(s), s, expbits)
  }

  // ---------- reading a word ----------

  /** The word with the given sign, biased exponent and fraction. */
  function Word(sign: nat, e: nat, m: nat, s: nat, expbits: nat): nat {
    (sign * Pow2(expbits) + e) * Pow2(s) + m
  }

  /** The fields of a word, read back. */
  lemma WordFields(sign: nat, e: nat, m: nat, s: nat, expbits: nat)
    requires sign < 2 && e < Pow2(expbits) && m < Pow2(s)
    ensures var i := Word(sign, e, m, s, expbits);
      && i % Pow2(s) == m
      && i / Pow2(s) % Pow2(expbits) == e
      && i / Pow2(s + expbits) == sign
      && i < Pow2(s + expbits + 1)
  {
    hide Pow2;
    Pow2Succ(s + expbits);
    var i, p, q, hi := Word(sign, e, m, s, expbits), Pow2(s), Pow2(expbits), sign * Pow2(expbits) + e;
    MulComm(hi, p);
    DivModUnique(i, p, hi, m);
    MulComm(sign, q);
    DivModUnique(hi, q, sign, e);
    Pow2Add(s, expbits);
    Distribute(sign, q, e, p);
    assert i == (p * q) * sign + (e * p + m);
    FieldBound(e, q, m, p);
    DivModUnique(i, p * q, sign, e * p + m);
    assert Pow2(s + expbits + 1) == 2 * (p * q);
    TwiceBound(p * q, sign, e * p + m);
  }

  lemma MulComm(a: int, b: int)
    ensures a * b == b * a
  {
  }

  lemma Distribute(sign: nat, q: nat, e: nat, p: nat)
    ensures (sign * q + e) * p == (p * q) * sign + e * p
  {
    assert (sign * q) * p == (p * q) * sign;
  }

  lemma FieldBound(e: nat, q: nat, m: nat, p: nat)
    requires e < q && m < p
    ensures e * p + m < p * q
  {
    assert (e + 1) * p <= q * p;
    assert (e + 1) * p == e * p + p;
  }

  lemma TwiceBound(x: nat, sign: nat, r: nat)
    requires sign < 2 && r < x
    ensures x * sign + r < 2 * x
  {
  }

  /** Every word below 2^(s+expbits+1) has such fields. */
  lemma WordSplit(i: nat, s: nat, expbits: nat) returns (sign: nat, e: nat, m: nat)
    requires i < Pow2(s + expbits + 1)
    ensures sign < 2 && e < Pow2(expbits) && m < Pow2(s) && i == Word(sign, e, m, s, expbits)
  {
    Pow2Add(s, expbits);
    assert Pow2(s + expbits + 1) == 2 * Pow2(s + expbits);
    sign, e, m := SplitWord(i, Pow2(s), Pow2(expbits));
  }

  lemma SplitWord(i: nat, p: nat, q: nat) returns (sign: nat, e: nat, m: nat)
    requires p >= 1 && q >= 1 && i < 2 * (p * q)
    ensures sign < 2 && e < q && m < p && i == (sign * q + e) * p + m
  {
    var hi := i / p;
    m := i % p;
    assert i == p * hi + m;
    MulComm(p, hi);
    HighBelow(i, p, 2 * q);
    sign, e := if hi < q then 0 else 1, if hi < q then hi else hi - q;
  }

  lemma HighBelow(i: nat, p: nat, b: nat)
    requires p >= 1 && i < p * b
    ensures i / p < b
  {
    var hi := i / p;
    assert i == p * hi + i % p;
    MulAtLeast(p, hi - b);
    assert p * (hi - b) == p * hi - p * b;
  }

  /** A nonzero word stands for +-(1 + m / 2^s) * 2^(e - bias). */
  lemma UnpackWord(sign: nat, e: nat, m: nat, bits: nat, expbits: nat)
    requires Layout(bits, expbits) && sign < 2 && e < Pow2(expbits) && m < Pow2(bits - expbits - 1)
    requires Word(sign, e, m, bits - expbits - 1, expbits) != 0
    ensures var s := bits - expbits - 1;
      Unpack754Value(Word(sign, e, m, s, expbits), bits, expbits) == FieldsValue(sign, e, m, s, expbits)
  {
    WordFields(sign, e, m, bits - expbits - 1, expbits);
  }

  lemma ProductOver(a: real, p: real)
    requires p > 0.0
    ensures Over(a, p) == a / p
  {
    QuotientOf(a, Over(a, p), a / p, p);
  }

  lemma ProductTimes(a: real, p: real)
    requires p > 0.0
    ensures Times(a, p) == a * p && -Times(a, p) == -1.0 * a * p
  {
  }

  /** The number of a nonzero word as section 3.4 of IEEE 754-2008 has it for normal numbers:
      (-1)^sign * (1 + m * 2^-s) * 2^(e - bias). */
  lemma UnpackIs(i: nat, bits: nat, expbits: nat)
    requires Layout(bits, expbits) && i != 0
    ensures var s := bits - expbits - 1;
      var sign, m, e := i / Pow2(bits - 1) % 2, i % Pow2(s), i / Pow2(s) % Pow2(expbits);
      Unpack754Value(i, bits, expbits) ==
        (if sign == 1 then -1.0 else 1.0) * (1.0 + m as real / Pow2(s) as real) * RPow2(e - (Pow2(expbits - 1) - 1))
  {
    hide RPow2, Pow2, Times, Over;
    var s := bits - expbits - 1;
    var sign, m, e := i / Pow2(bits - 1) % 2, i % Pow2(s), i / Pow2(s) % Pow2(expbits);
    RPow2Nat(s);
    ProductOver(m as real, RPow2(s));
    ProductTimes(Over(m as real, RPow2(s)) + 1.0, RPow2(e - Bias(expbits)));
    ValueOfFields(sign, e, m, s, expbits);
  }

  // ---------- what pack754 stores ----------

  lemma Pow2Plus8(n: nat)
    ensures Pow2(n + 8) == 256 * Pow2(n)
  {
    assert Pow2(n + 2) == 2 * Pow2(n + 1);
    assert Pow2(n + 4) == 2 * Pow2(n + 3);
    assert Pow2(n + 6) == 2 * Pow2(n + 5);
    assert Pow2(n + 8) == 2 * Pow2(n + 7);
  }

  lemma Pow2Values()
    ensures Pow2(8) == 0x100 && Pow2(16) == 0x1_0000 && Pow2(32) == TWO32 && Pow2(64) == TWO64
    ensures 2 * Pow2(63) == TWO64
  {
    hide Pow2;
    Pow2Succ(63);
    Pow2Plus8(0);
    Pow2Plus8(8);
    Pow2Plus8(16);
    Pow2Plus8(24);
    Pow2Plus8(32);
    Pow2Plus8(40);
    Pow2Plus8(48);
    Pow2Plus8(56);
  }

  /** The stored fields. A scaled fraction of exactly 2^s falls on the lowest exponent bit. */
  lemma PackFields(f: real, bits: nat, expbits: nat, d: real)
    requires Layout(bits, expbits) && f != 0.0 && 0.0 <= d <= 0.5
    requires 0 <= BiasedExponent(f, expbits) < Pow2(expbits)
    ensures var s, e := bits - expbits - 1, BiasedExponent(f, expbits);
      Pack754Word(f, bits, expbits, d) ==
        if Significand(f, s, d) < Pow2(s) then Word(SignBit(f), e, Significand(f, s, d), s, expbits)
        else Word(SignBit(f), if e % 2 == 0 then e + 1 else e, 0, s, expbits)
  {
    var s := bits - expbits - 1;
    JoinFields(SignBit(f), BiasedExponent(f, expbits), Significand(f, s, d), s, expbits);
  }

  /** The three shifted fields joined by `|`. */
  lemma JoinFields(sign: nat, e: nat, g: nat, s: nat, expbits: nat)
    requires sign < 2 && 1 <= expbits && s + expbits <= 63
    requires e < Pow2(expbits) && g <= Pow2(s)
    ensures Or(Or(sign * Pow2(s + expbits) % TWO64, e * Pow2(s) % TWO64), g % TWO64) ==
      if g < Pow2(s) then Word(sign, e, g, s, expbits)
      else Word(sign, if e % 2 == 0 then e + 1 else e, 0, s, expbits)
  {
    hide Or, Pow2;
    FieldsBelow(sign, e, s, expbits);
    SmallMod(sign * Pow2(s + expbits), TWO64);
    SmallMod(e * Pow2(s), TWO64);
    SmallMod(g, TWO64);
    if g < Pow2(s) {
      OrDisjoint(sign * Pow2(expbits) + e, g, s);
    } else {
      OrOverflow(sign, e, s, expbits);
    }
  }

  lemma OrOverflow(sign: nat, e: nat, s: nat, expbits: nat)
    requires sign < 2 && 1 <= expbits
    ensures Or((sign * Pow2(expbits) + e) * Pow2(s), Pow2(s)) ==
      Word(sign, if e % 2 == 0 then e + 1 else e, 0, s, expbits)
  {
    hide Or, Pow2;
    var hi := sign * Pow2(expbits) + e;
    OrBit(hi, s);
    EvenFactor(sign, expbits);
    assert hi % 2 == e % 2;
  }

  lemma FieldsBelow(sign: nat, e: nat, s: nat, expbits: nat)
    requires sign < 2 && 1 <= expbits && s + expbits <= 63 && e < Pow2(expbits)
    ensures sign * Pow2(s + expbits) < TWO64 && e * Pow2(s) < TWO64 && Pow2(s) < TWO64
    ensures Or(sign * Pow2(s + expbits), e * Pow2(s)) == (sign * Pow2(expbits) + e) * Pow2(s)
  {
    hide Or, Pow2;
    Pow2Values();
    Pow2Mono(s + expbits, 63);
    Pow2Mono(s, 63);
    Pow2Add(s, expbits);
    FieldBound(e, Pow2(expbits), 0, Pow2(s));
    OrDisjoint(sign, e * Pow2(s), s + expbits);
    TopFields(sign, e, Pow2(s), Pow2(expbits));
  }

  lemma TopFields(sign: nat, e: nat, p: nat, q: nat)
    requires sign < 2
    ensures (sign * q + e) * p == sign * (p * q) + e * p
    ensures sign * (p * q) <= p * q
  {
    Distribute(sign, q, e, p);
    MulComm(p * q, sign);
  }

  lemma SmallMod(a: nat, n: nat)
    requires a < n
    ensures a % n == a
  {
  }

  lemma EvenFactor(sign: nat, expbits: nat)
    requires sign < 2 && expbits >= 1
    ensures sign * Pow2(expbits) % 2 == 0
  {
    assert sign == 0 || sign == 1;
  }

  // ---------- the words come back ----------

  /** Normalising the value of a word finds its exponent and its fraction. */
  lemma FieldsOfValue(sign: nat, e: nat, m: nat, s: nat, expbits: nat)
    requires sign < 2 && expbits >= 1 && m < Pow2(s)
    ensures var f := FieldsValue(sign, e, m, s, expbits);
      && f != 0.0 && SignBit(f) == sign
      && BiasedExponent(f, expbits) == e
      && Fraction(f) == Over(m as real, RPow2(s))
  {
    hide RPow2, Times, Over, Pow2;
    var k := e - Bias(expbits);
    RPow2Nat(s);
    RPow2Succ(k);
    ExponentUnique(Times(Over(m as real, RPow2(s)) + 1.0, RPow2(k)), k);
  }

  lemma CutsBack(m: nat, p: real, d: real)
    requires p > 0.0 && (m as real) < p && 0.0 <= d <= 0.5
    ensures FractionOf(Over(m as real, p), p + d).Floor == m
  {
    var x := Over(m as real, p);
    assert x * (p + d) == x * p + x * d;
    assert 0.0 <= x * d <= 0.5 by {
      if d > 0.0 { assert FractionOf(x, d) < d; }
    }
  }

  /** Packing the number a word stands for gives the word back: every bit pattern below
      2^bits, for any multiplier 2^s + d with 0 <= d <= 1/2. */
  lemma PackOfUnpack(i: nat, bits: nat, expbits: nat, d: real)
    requires Layout(bits, expbits) && i < Pow2(bits) && 0.0 <= d <= 0.5
    ensures Pack754Word(Unpack754Value(i, bits, expbits), bits, expbits, d) == i
  {
    hide Pack754Word, Unpack754Value, Pow2, RPow2, Word;
    if i == 0 {
      ZeroPacked(bits, expbits, d);
    } else {
      var s := bits - expbits - 1;
      var sign, e, m := WordSplit(i, s, expbits);
      PackOfWord(sign, e, m, bits, expbits, d);
    }
  }

  lemma ZeroPacked(bits: nat, expbits: nat, d: real)
    requires Layout(bits, expbits) && 0.0 <= d <= 0.5
    ensures Unpack754Value(0, bits, expbits) == 0.0 && Pack754Word(0.0, bits, expbits, d) == 0
  {
  }

  lemma PackOfWord(sign: nat, e: nat, m: nat, bits: nat, expbits: nat, d: real)
    requires Layout(bits, expbits) && 0.0 <= d <= 0.5
    requires sign < 2 && e < Pow2(expbits) && m < Pow2(bits - expbits - 1)
    requires Word(sign, e, m, bits - expbits - 1, expbits) != 0
    ensures var i := Word(sign, e, m, bits - expbits - 1, expbits);
      Pack754Word(Unpack754Value(i, bits, expbits), bits, expbits, d) == i
  {
    hide RPow2, Pow2, Times, Over, Or, Word, Pack754Word, Unpack754Value, FieldsValue;
    var s := bits - expbits - 1;
    UnpackWord(sign, e, m, bits, expbits);
    FieldsOfValue(sign, e, m, s, expbits);
    RPow2Nat(s);
    CutsBack(m, RPow2(s), d);
    PackFields(FieldsValue(sign, e, m, s, expbits), bits, expbits, d);
  }

  // ---------- the error of packing ----------

  /** Two multiples of p = u * q are within u of each other when their factors
      differ by at most one q-th. */
  lemma UlpDistance(v: real, y: real, p: real, q: real, u: real)
    requires u > 0.0 && p == u * q
    ensures Abs(v * p - y * p) <= u <==> Abs(v * q - y * q) <= 1.0
  {
    var t := v * q - y * q;
    assert v * (u * q) == (v * q) * u && y * (u * q) == (y * q) * u;
    assert v * p - y * p == t * u by { assert t * u == (v * q) * u - (y * q) * u; }
    SignOfProduct(1.0 - t, u);
    SignOfProduct(1.0 + t, u);
    assert (1.0 - t) * u == u - t * u && (1.0 + t) * u == u + t * u;
  }

  /** A fraction g cut from x * (q + d) is near x * q. */
  lemma CutNear(x: real, g: real, q: real, d: real)
    requires 0.0 <= x < 1.0 && q >= 2.0 && 0.0 <= d <= 0.5
    requires g <= FractionOf(x, q + d) < g + 1.0
    ensures g - 0.5 <= x * q < g + 1.0
  {
    assert x * (q + d) == x * q + x * d;
    assert 0.0 <= x * d <= 0.5 by {
      if d > 0.0 { assert FractionOf(x, d) < d; }
    }
  }

  /** In units of the last place: a cut fraction g, and a fraction of exactly q carried
      into the exponent, are near; a carry that is lost is far away. */
  lemma CarryCases(x: real, g: real, q: real, d: real, u: real, p: real)
    requires 0.0 <= x < 1.0 && q >= 2.0 && 0.0 <= d <= 0.5 && u > 0.0 && p == Times(u, q) && p > 0.0
    requires g <= FractionOf(x, q + d) < g + 1.0
    ensures Abs(Times(Over(g, q) + 1.0, p) - Times(x + 1.0, p)) <= u
    ensures g == q ==> Abs(Times(2.0, p) - Times(x + 1.0, p)) <= u
    ensures g == q ==> Abs(Times(1.0, p) - Times(x + 1.0, p)) > u
  {
    CutNear(x, g, q, d);
    Ulps(Over(g, q) + 1.0, g + q, x, p, q, u);
    Ulps(2.0, 2.0 * q, x, p, q, u);
    Ulps(1.0, q, x, p, q, u);
    assert x * q < q by { assert FractionOf(x, q) < q; }
  }

  lemma TimesIsProduct(a: real, p: real)
    requires p > 0.0
    ensures Times(a, p) == a * p
  {
  }

  lemma Ulps(v: real, vq: real, x: real, p: real, q: real, u: real)
    requires q > 0.0 && u > 0.0 && p == Times(u, q) && p > 0.0 && vq == v * q
    ensures Abs(Times(v, p) - Times(x + 1.0, p)) <= u <==> -1.0 <= vq - q - x * q <= 1.0
  {
    hide Times, Over;
    TimesIsProduct(u, q);
    TimesIsProduct(v, p);
    TimesIsProduct(x + 1.0, p);
    UlpDistance(v, x + 1.0, p, q, u);
    assert (x + 1.0) * q == x * q + q;
  }

  lemma OverZero(p: real)
    requires p > 0.0
    ensures Over(0.0, p) == 0.0
  {
    QuotientOf(0.0, Over(0.0, p), 0.0, p);
  }

  lemma TimesSmall(p: real)
    requires p > 0.0
    ensures Times(1.0, p) == p && Times(2.0, p) == 2.0 * p
  {
  }

  lemma TimesOver(x: real, p: real)
    requires p > 0.0
    ensures Times(Over(x, p), p) == x
  {
  }

  /** The value of a stored word whose exponent field carries k or, after a carry, k + 1. */
  lemma StoredValue(w: nat, f: real, g: nat, e: nat, bits: nat, expbits: nat)
    requires Layout(bits, expbits) && f != 0.0 && g <= Pow2(bits - expbits - 1)
    requires e == BiasedExponent(f, expbits) < Pow2(expbits) && w != 0
    requires w == if g < Pow2(bits - expbits - 1) then Word(SignBit(f), e, g, bits - expbits - 1, expbits)
      else Word(SignBit(f), if e % 2 == 0 then e + 1 else e, 0, bits - expbits - 1, expbits)
    ensures var s, p := bits - expbits - 1, RPow2(Exponent(Abs(f)));
      var v := if g < Pow2(s) then Over(g as real, RPow2(s)) + 1.0 else if e % 2 == 0 then 2.0 else 1.0;
      Unpack754Value(w, bits, expbits) == if f < 0.0 then -Times(v, p) else Times(v, p)
  {
    assert SignBit(f) < 2 && (SignBit(f) == 1 <==> f < 0.0);
    hide RPow2, Times, Over, Pow2, Word, Unpack754Value, Exponent, Significand, SignBit, FieldsValue;
    var s, k := bits - expbits - 1, Exponent(Abs(f));
    assert e - Bias(expbits) == k;
    if g < Pow2(s) {
      UnpackWord(SignBit(f), e, g, bits, expbits);
      ValueOfFields(SignBit(f), e, g, s, expbits);
    } else {
      StoredCarry(SignBit(f), e, k, bits, expbits);
    }
  }

  /** The value of a word whose fraction was carried. */
  lemma StoredCarry(sign: nat, e: nat, k: int, bits: nat, expbits: nat)
    requires Layout(bits, expbits) && sign < 2 && e < Pow2(expbits) && e - Bias(expbits) == k
    requires Word(sign, if e % 2 == 0 then e + 1 else e, 0, bits - expbits - 1, expbits) != 0
    ensures var v := Times(if e % 2 == 0 then 2.0 else 1.0, RPow2(k));
      Unpack754Value(Word(sign, if e % 2 == 0 then e + 1 else e, 0, bits - expbits - 1, expbits), bits, expbits) ==
        if sign == 1 then -v else v
  {
    hide RPow2, Times, Over, Pow2, Word, Unpack754Value, FieldsValue;
    var s, e' := bits - expbits - 1, if e % 2 == 0 then e + 1 else e;
    UnpackWord(sign, e', 0, bits, expbits);
    ValueOfFields(sign, e', 0, s, expbits);
    OverZero(RPow2(s));
    RPow2Succ(k);
    TimesSmall(RPow2(k));
    TimesSmall(RPow2(k + 1));
  }

  lemma ValueOfFields(sign: nat, e: nat, m: nat, s: nat, expbits: nat)
    requires expbits >= 1
    ensures var v := Times(Over(m as real, RPow2(s)) + 1.0, RPow2(e - Bias(expbits)));
      FieldsValue(sign, e, m, s, expbits) == if sign == 1 then -v else v
  {
  }

  /** A number whose word is zero comes back as zero, which is far away. */
  lemma ZeroIsFar(f: real, s: nat)
    requires f != 0.0 && s >= 1
    ensures Abs(f) > RPow2(Exponent(Abs(f)) - s)
  {
    var k := Exponent(Abs(f));
    RPow2Mono(k - s, k - 1);
    RPow2Succ(k - 1);
  }

  /** The distance between |f| and each value its word can stand for. */
  lemma FactorDistance(f: real, s: nat, d: real, g: nat)
    requires f != 0.0 && s >= 1 && 0.0 <= d <= 0.5 && g == Significand(f, s, d)
    ensures var p, u := RPow2(Exponent(Abs(f))), RPow2(Exponent(Abs(f)) - s);
      && Abs(Times(Over(g as real, RPow2(s)) + 1.0, p) - Abs(f)) <= u
      && (g == Pow2(s) ==> Abs(Times(2.0, p) - Abs(f)) <= u)
      && (g == Pow2(s) ==> Abs(Times(1.0, p) - Abs(f)) > u)
  {
    hide RPow2, Times, Over, Pow2;
    var k := Exponent(Abs(f));
    RPow2Add(k - s, s);
    RPow2Nat(s);
    TimesOver(Abs(f), RPow2(k));
    CarryCases(Fraction(f), g as real, RPow2(s), d, RPow2(k - s), RPow2(k));
  }

  lemma FieldsZero(sign: nat, e: nat, g: nat, s: nat, expbits: nat)
    ensures (if g < Pow2(s) then Word(sign, e, g, s, expbits)
             else Word(sign, if e % 2 == 0 then e + 1 else e, 0, s, expbits)) == 0
      <==> sign == 0 && e == 0 && g == 0
  {
    hide Word, Pow2;
    WordZero(sign, e, g, s, expbits);
    WordZero(sign, if e % 2 == 0 then e + 1 else e, 0, s, expbits);
  }

  /** When a word is zero: for a positive number of the lowest exponent without a fraction. */
  lemma ZeroWordIff(f: real, bits: nat, expbits: nat, d: real)
    requires Layout(bits, expbits) && f != 0.0 && 0.0 <= d <= 0.5
    requires 0 <= BiasedExponent(f, expbits) < Pow2(expbits)
    ensures Pack754Word(f, bits, expbits, d) == 0 <==> StoredAsZero(f, bits, expbits, d)
  {
    hide Pack754Word, BiasedExponent, Significand, Pow2, RPow2, Times, Over, Word;
    PackFields(f, bits, expbits, d);
    var s := bits - expbits - 1;
    FieldsZero(SignBit(f), BiasedExponent(f, expbits), Significand(f, s, d), s, expbits);
  }

  lemma WordZero(sign: nat, e: nat, m: nat, s: nat, expbits: nat)
    ensures Word(sign, e, m, s, expbits) == 0 <==> sign == 0 && e == 0 && m == 0
  {
    var q := Pow2(expbits);
    if sign > 0 {
      MulAtLeast(sign, q);
    }
    var hi := sign * q + e;
    if hi > 0 {
      MulAtLeast(hi, Pow2(s));
    }
  }

  /** The lowest exponent and no fraction: the word is the one for zero. */
  ghost predicate StoredAsZero(f: real, bits: nat, expbits: nat, d: real)
    requires Layout(bits, expbits) && f != 0.0 && 0.0 <= d <= 0.5
  {
    f > 0.0 && BiasedExponent(f, expbits) == 0 && Significand(f, bits - expbits - 1, d) == 0
  }

  /** Unpacking a packed number, its exponent in range, lands within one unit of the last
      place exactly when it is not stored as zero and the scaled fraction did not run over
      into an odd exponent. */
  lemma UnpackInRange(f: real, bits: nat, expbits: nat, d: real)
    requires Layout(bits, expbits) && f != 0.0 && 0.0 <= d <= 0.5
    requires 0 <= BiasedExponent(f, expbits) < Pow2(expbits)
    ensures var s, w := bits - expbits - 1, Pack754Word(f, bits, expbits, d);
      Abs(Unpack754Value(w, bits, expbits) - f) <= RPow2(Exponent(Abs(f)) - s) <==>
        !StoredAsZero(f, bits, expbits, d)
        && (Significand(f, s, d) < Pow2(s) || BiasedExponent(f, expbits) % 2 == 0)
  {
    hide Pack754Word, FieldsValue, Word, Times, Over, RPow2, Pow2, StoredAsZero;
    var s, e := bits - expbits - 1, BiasedExponent(f, expbits);
    var g, w := Significand(f, s, d), Pack754Word(f, bits, expbits, d);
    ZeroWordIff(f, bits, expbits, d);
    PackFields(f, bits, expbits, d);
    if w != 0 {
      FactorDistance(f, s, d, g);
      StoredValue(w, f, g, e, bits, expbits);
    } else {
      ZeroIsFar(f, s);
    }
  }

  // ---------- exponents out of range ----------

  /** The bits of a below and above a place, for p = 2^place. */
  function Low(a: nat, p: nat): nat
    requires p >= 1
  {
    a % p
  }

  function High(a: nat, p: nat): nat
    requires p >= 1
  {
    a / p
  }

  /** `|` works on the bits below and above any place separately. */
  lemma {:induction false} OrSplit(a: nat, b: nat, k: nat, p: nat)
    requires p == Pow2(k)
    ensures Low(Or(a, b), p) == Or(Low(a, p), Low(b, p))
    ensures High(Or(a, b), p) == Or(High(a, p), High(b, p))
  {
    if k == 0 {
      OrZero(0);
    } else {
      var q := Pow2(k - 1);
      assert p == 2 * q;
      hide Or, Pow2, Low, High;
      OrSplit(a / 2, b / 2, k - 1, q);
      OrHalf(a, b);
      HalfSplit(a, q);
      HalfSplit(b, q);
      HalfSplit(Or(a, b), q);
      OrHalf(Low(a, p), Low(b, p));
    }
  }

  lemma OrHalf(a: nat, b: nat)
    ensures Or(a, b) / 2 == Or(a / 2, b / 2)
    ensures Or(a, b) % 2 == if a % 2 == 1 || b % 2 == 1 then 1 else 0
  {
    OrZero(0);
  }

  lemma HalfSplit(a: nat, p: nat)
    requires p >= 1
    ensures High(a, 2 * p) == High(a / 2, p)
    ensures Low(a, 2 * p) == 2 * Low(a / 2, p) + a % 2
    ensures Low(a, 2 * p) / 2 == Low(a / 2, p) && Low(a, 2 * p) % 2 == a % 2
  {
    var h := a / 2;
    var q, r := h / p, h % p;
    assert h == p * q + r;
    assert a == 2 * h + a % 2;
    assert a == (2 * p) * q + (2 * r + a % 2) by { assert 2 * (p * q) == (2 * p) * q; }
    DivModUnique(a, 2 * p, q, 2 * r + a % 2);
  }

  lemma ShiftedBits(e: int, p: nat, r: nat)
    requires p >= 1 && r >= 1
    ensures e * p % (p * r) == p * (e % r)
  {
    var t, m := e / r, e % r;
    assert e == r * t + m;
    assert e * p == (p * r) * t + p * m by { assert (r * t) * p == (p * r) * t; }
    FieldBound(m, r, 0, p);
    MulComm(m, p);
    DivModUnique(e * p, p * r, t, p * m);
  }

  lemma ModOfMod(e: int, q: nat, t: nat)
    requires q >= 1 && t >= 1
    ensures e % (q * t) % q == e % q
  {
    var a, r := e / (q * t), e % (q * t);
    assert e == (q * t) * a + r && r == q * (r / q) + r % q;
    assert (q * t) * a == q * (t * a);
    assert e == q * (t * a + r / q) + r % q by { assert q * (t * a + r / q) == q * (t * a) + q * (r / q); }
    DivModUnique(e, q, t * a + r / q, r % q);
  }

  lemma MultipleBits(a: nat, p: nat)
    requires p >= 1
    ensures Low(p * a, p) == 0 && High(p * a, p) == a
  {
    DivModUnique(p * a, p, a, 0);
  }

  lemma SmallBits(a: nat, p: nat)
    requires a < p
    ensures Low(a, p) == a && High(a, p) == 0
  {
    DivModUnique(a, p, 0, a);
  }

  lemma OrOne(a: nat)
    ensures Or(a, 1) == if a % 2 == 0 then a + 1 else a
  {
    OrBit(a, 0);
    assert Pow2(0) == 1;
  }

  /** The three fields joined: what stands in the exponent field, and below it after a carry. */
  lemma JoinedFields(sign: nat, e: int, g: nat, s: nat, expbits: nat) returns (b: nat)
    requires sign < 2 && 1 <= expbits && s + expbits <= 63 && g <= Pow2(s)
    ensures b == e * Pow2(s) % TWO64
    ensures var w, p, q := Or(Or(sign * Pow2(s + expbits) % TWO64, b), g % TWO64), Pow2(s), Pow2(expbits);
      && Low(High(w, p), q) == (if g < p then e % q else Or(e % q, 1))
      && (g == p ==> Low(w, p) == 0)
  {
    hide Or, Pow2;
    var p, q, r := Pow2(s), Pow2(expbits), Pow2(64 - s);
    Pow2Values();
    Pow2Add(s, 64 - s);
    Pow2Add(s, expbits);
    Pow2Add(expbits, 64 - s - expbits);
    FieldsBelow(sign, 0, s, expbits);
    SmallMod(g, TWO64);
    SmallMod(sign * Pow2(s + expbits), TWO64);
    ShiftedBits(e, p, r);
    b := p * (e % r);
    MulComm(sign, p * q);
    assert (p * q) * sign == p * (q * sign);
    JoinedHigh(q * sign, e % r, g, s, p);
    ModOfMod(e, q, Pow2(64 - s - expbits));
    var c := if g < p then 0 else 1;
    OrSplit(Or(q * sign, e % r), c, expbits, q);
    OrSplit(q * sign, e % r, expbits, q);
    MultipleBits(sign, q);
    SmallBits(c, q);
    LowIsMod(e % r, q);
    OrZero(e % q);
  }

  lemma LowIsMod(a: nat, p: nat)
    requires p >= 1
    ensures Low(a, p) == a % p
  {
  }

  lemma JoinedHigh(x: nat, y: nat, g: nat, s: nat, p: nat)
    requires p == Pow2(s) && g <= p
    ensures var w := Or(Or(p * x, p * y), g);
      && High(w, p) == Or(Or(x, y), if g < p then 0 else 1)
      && (g == p ==> Low(w, p) == 0)
  {
    hide Or, Pow2;
    OrSplit(Or(p * x, p * y), g, s, p);
    OrSplit(p * x, p * y, s, p);
    MultipleBits(x, p);
    MultipleBits(y, p);
    OrZero(0);
    if g < p {
      SmallBits(g, p);
    } else {
      MultipleBits(1, p);
    }
  }

  /** A nonzero word stands for a number of the binary place its exponent field says. */
  lemma WordMagnitude(i: nat, bits: nat, expbits: nat)
    requires Layout(bits, expbits) && i != 0
    ensures var p := Pow2(bits - expbits - 1);
      var v, k := Abs(Unpack754Value(i, bits, expbits)), Low(High(i, p), Pow2(expbits)) - Bias(expbits);
      RPow2(k) <= v < RPow2(k + 1) && (Low(i, p) == 0 ==> v == RPow2(k))
  {
    hide RPow2, Times, Over, Pow2;
    var s := bits - expbits - 1;
    var m, e := i % Pow2(s), i / Pow2(s) % Pow2(expbits);
    RPow2Nat(s);
    RPow2Succ(e - Bias(expbits));
    OverZero(RPow2(s));
    TimesSmall(RPow2(e - Bias(expbits)));
    ValueOfFields(i / Pow2(bits - 1) % 2, e, m, s, expbits);
  }

  /** A power of two has no fraction. */
  lemma NoFraction(f: real, s: nat, d: real)
    requires f != 0.0 && 0.0 <= d <= 0.5
    ensures Abs(f) == RPow2(Exponent(Abs(f))) ==> Significand(f, s, d) == 0
  {
    hide RPow2, Over;
    var k := Exponent(Abs(f));
    if Abs(f) == RPow2(k) {
      QuotientOf(Abs(f), Over(Abs(f), RPow2(k)), 1.0, RPow2(k));
      assert FractionOf(0.0, RPow2(s) + d) == 0.0;
    }
  }

  lemma RemainderSteps(e: int, q: nat)
    requires q >= 1
    ensures e < 0 ==> e % q >= e + q
    ensures e >= q ==> e % q <= e - q
  {
    assert e == q * (e / q) + e % q;
    if e < 0 {
      MulAtLeast(q, -(e / q));
      assert q * -(e / q) == -(q * (e / q));
    } else if e >= q {
      MulAtLeast(q, e / q);
    }
  }

  /** The exponent field of a number whose biased exponent does not fit is off by two, or by
      one after a carry. */
  lemma FieldIsOff(e: int, q: nat, field: nat, carry: bool)
    requires q >= 2 && (e < 0 || e >= q) && field == if carry then Or(e % q, 1) else e % q
    ensures e < 0 ==> field >= e + 2
    ensures e >= q ==> field <= if carry then e - 1 else e - 2
  {
    RemainderSteps(e, q);
    OrOne(e % q);
  }

  /** Magnitudes two binary places apart, or one when the lower is a power of two. */
  lemma PlacesApart(v: real, a: real, j: int, k: int, n: nat)
    requires n >= 1 && RPow2(j) <= v < RPow2(j + 1) && RPow2(k) <= a < RPow2(k + 1)
    requires j >= k + 2 || j <= k - 2 || (j == k - 1 && v == RPow2(j) && a > RPow2(k))
    ensures Abs(v - a) > RPow2(k - n)
  {
    RPow2Succ(k);
    RPow2Succ(k - 1);
    RPow2Mono(k - n, k - 1);
    if j >= k + 2 {
      RPow2Mono(k + 2, j);
      RPow2Succ(k + 1);
    } else {
      RPow2Mono(j + 1, if j == k - 1 then k else k - 1);
    }
  }

  lemma SignsOnlyHelp(x: real, y: real, u: real)
    requires Abs(Abs(x) - Abs(y)) > u
    ensures Abs(x - y) > u
  {
  }

  /** A number whose biased exponent does not fit its field comes back somewhere else. */
  lemma OutOfRangeIsFar(f: real, bits: nat, expbits: nat, d: real)
    requires Layout(bits, expbits) && f != 0.0 && 0.0 <= d <= 0.5
    requires BiasedExponent(f, expbits) < 0 || BiasedExponent(f, expbits) >= Pow2(expbits)
    ensures Abs(Unpack754Value(Pack754Word(f, bits, expbits, d), bits, expbits) - f)
      > RPow2(Exponent(Abs(f)) - (bits - expbits - 1))
  {
    hide RPow2, Pow2, Or, Unpack754Value, Times, Over;
    var s, e, k := bits - expbits - 1, BiasedExponent(f, expbits), Exponent(Abs(f));
    var w := Pack754Word(f, bits, expbits, d);
    var g := Significand(f, s, d);
    if w == 0 {
      ZeroIsFar(f, s);
      ZeroPacked(bits, expbits, d);
    } else {
      var b := JoinedFields(SignBit(f), e, g, s, expbits);
      var field := Low(High(w, Pow2(s)), Pow2(expbits));
      FieldIsOff(e, Pow2(expbits), field, g == Pow2(s));
      WordMagnitude(w, bits, expbits);
      NoFraction(f, s, d);
      var v := Unpack754Value(w, bits, expbits);
      PlacesApart(Abs(v), Abs(f), field - Bias(expbits), k, s);
      SignsOnlyHelp(v, f, RPow2(k - s));
    }
  }

  /** Unpacking a packed number lands within one unit of the last place exactly when its
      biased exponent fits the field, it is not a positive number of the lowest exponent
      without a fraction, and its scaled fraction does not run over into an odd exponent. */
  lemma UnpackOfPack(f: real, bits: nat, expbits: nat, d: real)
    requires Layout(bits, expbits) && f != 0.0 && 0.0 <= d <= 0.5
    ensures var s, e, w := bits - expbits - 1, BiasedExponent(f, expbits), Pack754Word(f, bits, expbits, d);
      Abs(Unpack754Value(w, bits, expbits) - f) <= RPow2(Exponent(Abs(f)) - s) <==>
        0 <= e < Pow2(expbits) && !StoredAsZero(f, bits, expbits, d)
        && (Significand(f, s, d) < Pow2(s) || e % 2 == 0)
  {
    hide RPow2, Pow2, Pack754Word, Unpack754Value, Significand, StoredAsZero, Exponent;
    if 0 <= BiasedExponent(f, expbits) < Pow2(expbits) {
      UnpackInRange(f, bits, expbits, d);
    } else {
      OutOfRangeIsFar(f, bits, expbits, d);
    }
  }

  lemma PowerOfTwo(k: int, s: nat, d: real)
    requires 0.0 <= d <= 0.5
    ensures RPow2(k) > 0.0 && Exponent(Abs(RPow2(k))) == k && Significand(RPow2(k), s, d) == 0
  {
    hide RPow2, Exponent, Significand;
    RPow2Succ(k);
    ExponentUnique(RPow2(k), k);
    NoFraction(RPow2(k), s, d);
  }

  lemma SmallPowers()
    ensures Pow2(2) == 4 && Pow2(4) == 16 && Pow2(5) == 32 && Pow2(10) == 1024 && Pow2(15) == 32768
  {
    assert Pow2(2) == 4 && Pow2(4) == 16;
    hide Pow2;
    Pow2Succ(4);
    Pow2Plus8(2);
    Pow2Values();
    Pow2Succ(15);
  }

  lemma Reciprocal()
    ensures RPow2(-15) == 1.0 / 32768.0
  {
    assert RPow2(0) == 1.0;
    hide RPow2;
    SmallPowers();
    RPow2Nat(15);
    RPow2Add(-15, 15);
  }

  /** The word of a power of two, positive or negative. */
  lemma PowerWord(f: real, k: int, bits: nat, expbits: nat, d: real)
    requires Layout(bits, expbits) && 0.0 <= d <= 0.5
    requires (f == RPow2(k) || f == -RPow2(k)) && 0 <= k + Bias(expbits) < Pow2(expbits)
    ensures Pack754Word(f, bits, expbits, d) ==
      Word(if f < 0.0 then 1 else 0, k + Bias(expbits), 0, bits - expbits - 1, expbits)
  {
    hide RPow2, Pow2, Exponent, Significand, Pack754Word, Word;
    PowerOfTwo(k, bits - expbits - 1, d);
    assert Abs(f) == RPow2(k);
    NoFraction(f, bits - expbits - 1, d);
    PackFields(f, bits, expbits, d);
  }

  lemma MorePowers()
    ensures Pow2(7) == 128 && Pow2(23) == 0x80_0000 && Pow2(52) == 0x10_0000_0000_0000
    ensures Pow2(4) == 16 && Pow2(5) == 32 && Pow2(10) == 1024 && Pow2(8) == 0x100 && Pow2(11) == 2048
    ensures Bias(5) == 15 && Bias(8) == 127 && Bias(11) == 1023
  {
    hide Pow2;
    SmallPowers();
    Pow2Values();
    Pow2Succ(5);
    Pow2Succ(6);
    Pow2Succ(10);
    Pow2Plus8(15);
    Pow2Plus8(36);
    Pow2Plus8(44);
    Pow2Succ(32);
    Pow2Succ(33);
    Pow2Succ(34);
    Pow2Succ(35);
  }

  lemma OneAndMinusTwo()
    ensures RPow2(0) == 1.0 && -RPow2(1) == -2.0
  {
    assert RPow2(0) == 1.0;
    hide RPow2;
    RPow2Succ(0);
  }

  /** The words of 1 and -2 in the three sizes are those of IEEE 754-2008. */
  lemma Words16(d: real)
    requires 0.0 <= d <= 0.5
    ensures Layout(16, 5) && Pack754Word(1.0, 16, 5, d) == 0x3c00 && Pack754Word(-2.0, 16, 5, d) == 0xc000
  {
    hide RPow2, Pow2, Pack754Word;
    OneAndMinusTwo();
    MorePowers();
    PowerWord(1.0, 0, 16, 5, d);
    PowerWord(-2.0, 1, 16, 5, d);
  }

  lemma Words32(d: real)
    requires 0.0 <= d <= 0.5
    ensures Layout(32, 8)
    ensures Pack754Word(1.0, 32, 8, d) == 0x3f80_0000 && Pack754Word(-2.0, 32, 8, d) == 0xc000_0000
  {
    hide RPow2, Pow2, Pack754Word;
    OneAndMinusTwo();
    MorePowers();
    PowerWord(1.0, 0, 32, 8, d);
    PowerWord(-2.0, 1, 32, 8, d);
  }

  lemma Words64(d: real)
    requires 0.0 <= d <= 0.5
    ensures Layout(64, 11) && Pack754Word(1.0, 64, 11, d) == 0x3ff0_0000_0000_0000
    ensures Pack754Word(-2.0, 64, 11, d) == 0xc000_0000_0000_0000
  {
    hide RPow2, Pow2, Pack754Word;
    OneAndMinusTwo();
    MorePowers();
    PowerWord(1.0, 0, 64, 11, d);
    PowerWord(-2.0, 1, 64, 11, d);
  }

  lemma FractionNearTwo(x: real)
    requires 0.0 <= x < 1.0
    ensures Exponent(1.0 + x) == 0 && Fraction(1.0 + x) == x
  {
    assert RPow2(0) == 1.0;
    hide RPow2;
    RPow2Succ(0);
    ExponentUnique(1.0 + x, 0);
    assert Over(1.0 + x, 1.0) * 1.0 == 1.0 + x;
  }

  /** Where the half in the multiplier is rounded away it does not carry: 2 - 2^-25 in 32 bits. */
  lemma NoCarryIn32()
    ensures Layout(32, 8) && Pack754Word(1.0 + 33554431.0 / 33554432.0, 32, 8, 0.0) == 0x3fff_ffff
  {
    var x := 33554431.0 / 33554432.0;
    hide RPow2, Pow2, Exponent, Fraction, Over, Pack754Word;
    MorePowers();
    RPow2Nat(23);
    FractionNearTwo(x);
    assert Scaled(1.0 + x, 23, 0.0) == x * 8388608.0;
    assert Significand(1.0 + x, 23, 0.0) == 8388607;
    PackFields(1.0 + x, 32, 8, 0.0);
  }

  /** The least power of two whose exponent fits is stored as zero: in 16 bits, 2^-15. */
  lemma ZeroLost()
    ensures Layout(16, 5) && RPow2(-15) == 1.0 / 32768.0
    ensures Pack754Word(RPow2(-15), 16, 5, 0.5) == 0 && Unpack754Value(0, 16, 5) == 0.0
  {
    hide RPow2, Pow2, Pack754Word, Significand, Exponent, Times, Over;
    SmallPowers();
    Reciprocal();
    PowerOfTwo(-15, 10, 0.5);
    ZeroWordIff(RPow2(-15), 16, 5, 0.5);
  }

  lemma WordOfPositive(f: real, bits: nat, expbits: nat, d: real)
    requires Layout(bits, expbits) && f > 0.0 && 0.0 <= d <= 0.5
    ensures var s := bits - expbits - 1;
      Pack754Word(f, bits, expbits, d) == Or(BiasedExponent(f, expbits) * Pow2(s) % TWO64, Significand(f, s, d) % TWO64)
  {
    hide RPow2, Pow2, Or, Significand, BiasedExponent;
    OrZero(BiasedExponent(f, expbits) * Pow2(bits - expbits - 1) % TWO64);
  }

  lemma WordOfExponent(f: real, e: nat)
    requires f > 0.0 && BiasedExponent(f, 5) == e < 64 && Significand(f, 10, 0.5) == 0
    ensures Layout(16, 5) && Pack754Word(f, 16, 5, 0.5) == e * 1024
  {
    hide RPow2, Or, Significand, BiasedExponent, Pack754Word;
    hide Pow2;
    SmallPowers();
    WordOfPositive(f, 16, 5, 0.5);
    OrZero(e * 1024);
  }

  /** An exponent out of range: in 16 bits, 2^17 gets the word of -2^-15. */
  lemma ExponentLost()
    ensures Layout(16, 5) && Pack754Word(RPow2(17), 16, 5, 0.5) == 0x8000
    ensures Unpack754Value(0x8000, 16, 5) == -RPow2(-15)
  {
    hide RPow2, Pow2, Significand, Exponent, Pack754Word, Unpack754Value, FieldsValue, Times, Over;
    SmallPowers();
    PowerOfTwo(17, 10, 0.5);
    WordOfExponent(RPow2(17), 32);
    assert Word(1, 0, 0, 10, 5) == 0x8000;
    UnpackWord(1, 0, 0, 16, 5);
    ValueOfFields(1, 0, 0, 10, 5);
    OverZero(RPow2(10));
    TimesSmall(RPow2(-15));
  }

  lemma ValueOfHalfOne()
    ensures FieldsValue(0, 15, 0, 10, 5) == 1.0
  {
    assert Pow2(4) == 16 && RPow2(0) == 1.0;
    hide RPow2, Pow2, Times, Over;
    OverZero(RPow2(10));
    TimesSmall(RPow2(0));
  }

  lemma NormalisedNear2()
    ensures Exponent(1.999755859375) == 0 && Fraction(1.999755859375) == 0.999755859375
  {
    assert RPow2(0) == 1.0;
    hide RPow2;
    RPow2Succ(0);
    ExponentUnique(1.999755859375, 0);
    assert Over(1.999755859375, 1.0) * 1.0 == 1.999755859375;
  }

  lemma CarryOfNear2()
    ensures Significand(1.999755859375, 10, 0.5) == Pow2(10) == 1024
  {
    assert Pow2(2) == 4;
    hide Pow2, RPow2;
    Pow2Plus8(2);
    RPow2Nat(10);
    NormalisedNear2();
    hide Over, Exponent, Fraction;
    assert FractionOf(0.999755859375, 1024.5) == 0.999755859375 * 1024.5;
    assert Scaled(1.999755859375, 10, 0.5) == FractionOf(0.999755859375, 1024.5);
  }

  /** The loss in a concrete case: with 16 bits, 1.999755859375 is stored as 1. */
  lemma CarryLost()
    ensures Layout(16, 5) && Pack754Word(1.999755859375, 16, 5, 0.5) == 0x3c00
    ensures Unpack754Value(0x3c00, 16, 5) == 1.0
  {
    assert Pow2(4) == 16 && Pow2(5) == 32;
    hide Pow2, RPow2, Pack754Word, Unpack754Value, FieldsValue, Significand, Exponent;
    NormalisedNear2();
    CarryOfNear2();
    PackFields(1.999755859375, 16, 5, 0.5);
    assert Word(0, 15, 0, 10, 5) == 15 * Pow2(10);
    UnpackWord(0, 15, 0, 16, 5);
    ValueOfHalfOne();
  }

  // ---------- the loops of the source ----------

  lemma TimesShift(a: real, p: real)
    requires p > 0.0
    ensures Times(a / 2.0, 2.0 * p) == Times(a, p)
  {
    assert (a / 2.0) * (2.0 * p) == a * p;
  }

  method Pack754(f: real, bits: nat, expbits: nat, d: real) returns (word: nat)
    requires Layout(bits, expbits) && 0.0 <= d <= 0.5
    ensures word == Pack754Word(f, bits, expbits, d)
  {
    hide RPow2, Times;
    if f == 0.0 {
      return 0;
    }
    var significandbits := bits - expbits - 1;
    var sign, fnorm := 0, f;
    if f < 0.0 {
      sign, fnorm := 1, -f;
    }
    var shift := 0;
    TimesZeroShift(fnorm);
    while fnorm >= 2.0
      invariant fnorm > 0.0 && Times(fnorm, RPow2(shift)) == Abs(f)
      decreases fnorm.Floor
    {
      TimesShift(fnorm, RPow2(shift));
      RPow2Succ(shift);
      fnorm := fnorm / 2.0;
      shift := shift + 1;
    }
    while fnorm < 1.0
      invariant 0.0 < fnorm < 2.0 && Times(fnorm, RPow2(shift)) == Abs(f)
      decreases if fnorm < 1.0 then (1.0 / fnorm).Floor else 0
    {
      HalfReciprocal(fnorm);
      TimesShift(2.0 * fnorm, RPow2(shift - 1));
      RPow2Succ(shift - 1);
      fnorm := fnorm * 2.0;
      shift := shift - 1;
    }
    RPow2Succ(shift);
    ExponentUnique(Abs(f), shift);
    fnorm := fnorm - 1.0;
    assert fnorm == Fraction(f);
    RPow2Nat(significandbits);
    var significand := FractionOf(fnorm, Pow2(significandbits) as real + d).Floor;
    assert significand == Significand(f, significandbits, d);
    var exp := shift + Pow2(expbits - 1) - 1;
    word := Or(Or(sign * Pow2(bits - 1) % TWO64, exp * Pow2(significandbits) % TWO64), significand % TWO64);
  }

  lemma TimesZeroShift(a: real)
    ensures Times(a, RPow2(0)) == a
  {
    TimesSmall(1.0);
  }

  method Unpack754(i: nat, bits: nat, expbits: nat) returns (result: real)
    requires Layout(bits, expbits)
    ensures result == Unpack754Value(i, bits, expbits)
  {
    hide RPow2, Times, Over;
    if i == 0 {
      return 0.0;
    }
    var significandbits := bits - expbits - 1;
    RPow2Nat(significandbits);
    result := Over((i % Pow2(significandbits)) as real, Pow2(significandbits) as real);
    result := result + 1.0;
    var bias := Pow2(expbits - 1) - 1;
    var shift := i / Pow2(significandbits) % Pow2(expbits) - bias;
    ghost var want := Times(result, RPow2(shift));
    while shift > 0
      invariant Times(result, RPow2(shift)) == want
    {
      TimesShift(2.0 * result, RPow2(shift - 1));
      RPow2Succ(shift - 1);
      result := result * 2.0;
      shift := shift - 1;
    }
    while shift < 0
      invariant shift <= 0 && Times(result, RPow2(shift)) == want
    {
      TimesShift(result, RPow2(shift));
      RPow2Succ(shift);
      result := result / 2.0;
      shift := shift + 1;
    }
    TimesZeroShift(result);
    result := result * (if i / Pow2(bits - 1) % 2 == 1 then -1.0 else 1.0);
  }
}
