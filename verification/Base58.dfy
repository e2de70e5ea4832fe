/** Radix-58 text, kyk_base58.c; BIGNUM values are natural numbers. */
module Base58 {
  import opened Bytes
  import opened KykUtils

  /** The digits 1-9, the capitals without I and O, and the small letters without l. */
  const ALPHABET: string :=
    "123456789" + ("ABCDEFGH" + ("JKLMN" + ("PQRSTUVWXYZ" + ("abcdefghijk" + "mnopqrstuvwxyz"))))
  const RIPEMD160_DIGEST_LENGTH: nat := 20

  // ---------- characters ----------

  /** `strchr` also finds the terminating zero of the alphabet. */
  function DecodeChar(c: char): int {
    if c == '\0' then |ALPHABET| else IndexOf(ALPHABET, c)
  }

  predicate Ascending(s: string) {
    |s| < 2 || (s[0] < s[1] && Ascending(s[1..]))
  }

  lemma {:induction false} AscendingPairs(s: string, i: nat, j: nat)
    requires Ascending(s) && i < j < |s|
    ensures s[i] < s[j]
  {
    if i > 0 {
      AscendingPairs(s[1..], i - 1, j - 1);
    } else if j > 1 {
      AscendingPairs(s[1..], 0, j - 1);
    }
  }

  lemma {:induction false} AscendingConcat(s: string, t: string)
    requires Ascending(s) && Ascending(t) && s != "" && t != "" && s[|s| - 1] < t[0]
    ensures Ascending(s + t)
  {
    if |s| == 1 {
      assert (s + t)[1..] == t;
    } else {
      AscendingConcat(s[1..], t);
      assert (s + t)[1..] == s[1..] + t;
    }
  }

  /** An ascending run from `first` to `last`. */
  predicate Run(s: string, n: nat, first: char, last: char) {
    |s| == n >= 1 && s[0] == first && s[n - 1] == last && Ascending(s)
  }

  lemma Runs()
    ensures Run("123456789", 9, '1', '9') && Run("ABCDEFGH", 8, 'A', 'H') && Run("JKLMN", 5, 'J', 'N')
  {
  }

  lemma RunPZ()
    ensures Run("PQRSTUVWXYZ", 11, 'P', 'Z')
  {
  }

  lemma RunAK()
    ensures Run("abcdefghijk", 11, 'a', 'k')
  {
  }

  lemma RunMZ()
    ensures Run("mnopqrstuvwxyz", 14, 'm', 'z')
  {
  }

  lemma JoinRuns(s: string, m: nat, a: char, b: char, t: string, n: nat, c: char, d: char)
    requires Run(s, m, a, b) && Run(t, n, c, d) && b < c
    ensures Run(s + t, m + n, a, d)
  {
    AscendingConcat(s, t);
  }

  lemma AlphabetAscends()
    ensures Run(ALPHABET, 58, '1', 'z')
  {
    hide Run;
    var s0, s1, s2 := "123456789", "ABCDEFGH", "JKLMN";
    var s3, s4, s5 := "PQRSTUVWXYZ", "abcdefghijk", "mnopqrstuvwxyz";
    Runs();
    RunPZ();
    RunAK();
    RunMZ();
    JoinRuns(s4, 11, 'a', 'k', s5, 14, 'm', 'z');
    JoinRuns(s3, 11, 'P', 'Z', s4 + s5, 25, 'a', 'z');
    JoinRuns(s2, 5, 'J', 'N', s3 + (s4 + s5), 36, 'P', 'z');
    JoinRuns(s1, 8, 'A', 'H', s2 + (s3 + (s4 + s5)), 41, 'J', 'z');
    JoinRuns(s0, 9, '1', '9', s1 + (s2 + (s3 + (s4 + s5))), 49, 'A', 'z');
  }

  function Digit(d: nat): char
    requires d < 58
  {
    ALPHABET[d]
  }

  /** The characters of the alphabet, one by one. */
  lemma DigitIs(d: nat)
    requires d < 58
    ensures Digit(d) as int ==
      if d < 9 then '1' as int + d
      else if d < 17 then 'A' as int + d - 9
      else if d < 22 then 'J' as int + d - 17
      else if d < 33 then 'P' as int + d - 22
      else if d < 44 then 'a' as int + d - 33
      else 'm' as int + d - 44
  {
    if d < 22 {
      DigitLow(d);
    } else {
      DigitHigh(d);
    }
  }

  lemma DigitLow(d: nat)
    requires d < 22
    ensures Digit(d) as int ==
      if d < 9 then '1' as int + d else if d < 17 then 'A' as int + d - 9 else 'J' as int + d - 17
  {
    if d < 9 {
      assert ALPHABET[d] == "123456789"[d];
    } else if d < 17 {
      assert ALPHABET[d] == "ABCDEFGH"[d - 9];
    } else {
      assert ALPHABET[d] == "JKLMN"[d - 17];
    }
  }

  lemma DigitHigh(d: nat)
    requires 22 <= d < 58
    ensures Digit(d) as int ==
      if d < 33 then 'P' as int + d - 22 else if d < 44 then 'a' as int + d - 33 else 'm' as int + d - 44
  {
    if d < 33 {
      assert ALPHABET[d] == "PQRSTUVWXYZ"[d - 22];
    } else if d < 44 {
      assert ALPHABET[d] == "abcdefghijk"[d - 33];
    } else {
      assert ALPHABET[d] == "mnopqrstuvwxyz"[d - 44];
    }
  }

  /** Digits and letters but for the capital I and O and the small l. */
  predicate Base58Char(c: char) {
    ('1' <= c <= '9' || 'A' <= c <= 'Z' || 'a' <= c <= 'z') && c != 'I' && c != 'O' && c != 'l'
  }

  lemma CharIsDigit(c: char)
    requires Base58Char(c)
    ensures c in ALPHABET
  {
    var n := c as int;
    var d := if c <= '9' then n - '1' as int
      else if c <= 'H' then n - 'A' as int + 9
      else if c <= 'N' then n - 'J' as int + 17
      else if c <= 'Z' then n - 'P' as int + 22
      else if c <= 'k' then n - 'a' as int + 33
      else n - 'm' as int + 44;
    DigitIs(d);
    AlphabetAscends();
    hide ALPHABET;
    assert Digit(d) == c && Digit(d) in ALPHABET;
  }

  /** The digits are exactly these characters. */
  lemma AlphabetIs(c: char)
    ensures c in ALPHABET <==> Base58Char(c)
  {
    AlphabetAscends();
    hide ALPHABET;
    if c in ALPHABET {
      var d :| 0 <= d < |ALPHABET| && ALPHABET[d] == c;
      DigitIs(d);
    }
    if Base58Char(c) {
      CharIsDigit(c);
    }
  }

  /** A text decodes if and only if it consists of these characters, or of the zero that ends a
      C string. */
  lemma DecodableIff(src: string)
    ensures Decodable(src) <==> forall c :: c in src ==> Base58Char(c) || c == '\0'
    ensures DecodeChar('\0') == 58
  {
    AlphabetAscends();
    hide ALPHABET;
    forall c | c in src
      ensures DecodeChar(c) >= 0 <==> Base58Char(c) || c == '\0'
    {
      AlphabetIs(c);
    }
  }

  /** A concrete case: the byte 16 is written as H. */
  lemma SixteenIsH()
    ensures Encode([16]) == "H"
  {
    hide ALPHABET;
    var s: seq<byte> := [16];
    assert Reverse(s) == s && FromLE(s) == 16 && LeadingZeros(s) == 0;
    hide FromLE, Reverse, LeadingZeros, Text58;
    DigitIs(16);
    Text58Of(0, 16);
    Text58Zero();
  }

  lemma DecodeDigit(d: nat)
    requires d < 58
    ensures DecodeChar(Digit(d)) == d
  {
    AlphabetAscends();
    var i := IndexOf(ALPHABET, ALPHABET[d]);
    assert ALPHABET[d] in ALPHABET;
    if i < d {
      AscendingPairs(ALPHABET, i, d);
    }
    if d > 0 {
      AscendingPairs(ALPHABET, 0, d);
    }
  }

  // ---------- powers ----------

  function Pow(b: nat, n: nat): (p: nat)
    ensures b >= 1 ==> p >= 1
  {
    if n == 0 then 1 else b * Pow(b, n - 1)
  }

  lemma MulAssoc(a: nat, b: nat, c: nat)
    ensures a * (b * c) == (a * b) * c
  {
  }

  lemma {:induction false} PowAdd(b: nat, m: nat, n: nat)
    ensures Pow(b, m + n) == Pow(b, m) * Pow(b, n)
  {
    if m > 0 {
      PowAdd(b, m - 1, n);
      MulAssoc(b, Pow(b, m - 1), Pow(b, n));
    }
  }

  lemma {:induction false} PowPow(b: nat, m: nat, n: nat)
    ensures Pow(Pow(b, m), n) == Pow(b, m * n)
  {
    if n > 0 {
      PowPow(b, m, n - 1);
      PowAdd(b, m, m * (n - 1));
      assert m + m * (n - 1) == m * n;
    }
  }

  lemma MulMono(a: nat, b: nat, c: nat, d: nat)
    requires a <= b && c <= d
    ensures a * c <= b * d
    ensures a < b && c < d ==> a * c < b * d
    ensures a <= b && c < d && b >= 1 ==> a * c < b * d
  {
    assert b * d - a * c == (b - a) * d + a * (d - c);
    assert (b - a) * d >= 0 && a * (d - c) >= 0;
    if c < d && b >= 1 {
      if a >= 1 {
        MulAtLeast(a, d - c);
      } else {
        MulAtLeast(d, b);
      }
    }
  }

  lemma {:induction false} PowMonoBase(a: nat, b: nat, n: nat)
    requires a <= b
    ensures Pow(a, n) <= Pow(b, n)
  {
    if n > 0 {
      PowMonoBase(a, b, n - 1);
      MulMono(a, b, Pow(a, n - 1), Pow(b, n - 1));
    }
  }

  lemma {:induction false} PowStrictBase(a: nat, b: nat, n: nat)
    requires a < b && n >= 1
    ensures Pow(a, n) < Pow(b, n)
  {
    if n == 1 {
      assert Pow(a, 1) == a * Pow(a, 0) && Pow(b, 1) == b * Pow(b, 0);
    } else {
      PowStrictBase(a, b, n - 1);
      MulMono(a, b, Pow(a, n - 1), Pow(b, n - 1));
    }
  }

  lemma {:induction false} PowMonoExp(b: nat, m: nat, n: nat)
    requires b >= 1 && m <= n
    ensures Pow(b, m) <= Pow(b, n)
    decreases n - m
  {
    if m < n {
      PowMonoExp(b, m + 1, n);
      MulMono(1, b, Pow(b, m), Pow(b, m));
    }
  }

  lemma {:induction false} Pow256IsPow(n: nat)
    ensures Pow256(n) == Pow(256, n)
  {
    if n > 0 {
      Pow256IsPow(n - 1);
    }
  }

  /** 58^7 is at least 2^41: seven radix-58 digits carry 41 bits. */
  lemma SevenDigits()
    ensures Pow(2, 41) <= Pow(58, 7) && Pow(2, 8) == 256
  {
    assert Pow(58, 1) == 58 && Pow(58, 2) == 3364;
    assert Pow(58, 4) == 58 * (58 * 3364) && Pow(58, 7) == 58 * (58 * (58 * Pow(58, 4)));
    assert Pow(2, 2) == 4;
    assert Pow(2, 4) == 16 by { PowAdd(2, 2, 2); }
    assert Pow(2, 8) == 256 by { PowAdd(2, 4, 4); }
    assert Pow(2, 16) == 0x1_0000 by { PowAdd(2, 8, 8); }
    assert Pow(2, 32) == TWO32 by { PowAdd(2, 16, 16); }
    PowAdd(2, 32, 8);
    assert Pow(2, 41) == 2 * Pow(2, 40);
  }

  /** A power of 58 below a power of 256 has an exponent below 138/100 of the other. */
  lemma DigitsPerByte(e: nat, m: nat)
    requires Pow(58, e) < Pow(256, m)
    ensures 100 * e < 138 * m
  {
    hide Pow;
    SevenDigits();
    PowStrictBase(Pow(58, e), Pow(256, m), 7);
    PowPow(58, e, 7);
    PowPow(58, 7, e);
    PowMonoBase(Pow(2, 41), Pow(58, 7), e);
    PowPow(2, 41, e);
    PowPow(256, m, 7);
    PowPow(2, 8, m * 7);
    if 8 * (m * 7) <= 41 * e {
      PowMonoExp(2, 8 * (m * 7), 41 * e);
    }
  }

  // ---------- the encoding ----------

  /** The radix-58 digits of x, most significant first; none for zero. */
  function Text58(x: nat): string {
    if x == 0 then "" else Text58(x / 58) + [Digit(x % 58)]
  }

  function LeadingZeros(s: seq<byte>): (z: nat)
    ensures z <= |s|
  {
    if s != [] && s[0] == 0 then 1 + LeadingZeros(s[1..]) else 0
  }

  function Repeat(c: char, n: nat): (s: string)
    ensures |s| == n && forall i :: 0 <= i < n ==> s[i] == c
  {
    seq(n, i => c)
  }

  /** What kyk_base58 stores before the terminating zero. */
  function Encode(s: seq<byte>): string {
    Repeat(ALPHABET[0], LeadingZeros(s)) + Text58(FromBE(s))
  }

  predicate Decodable(src: string) {
    forall c :: c in src ==> DecodeChar(c) >= 0
  }

  /** The number raw_decode_base58 leaves in bn. */
  function Value58(src: string): nat
    requires Decodable(src)
  {
    if src == "" then 0 else Value58(src[..|src| - 1]) * 58 + DecodeChar(src[|src| - 1])
  }

  lemma {:induction false} Text58Chars(x: nat)
    ensures forall c :: c in Text58(x) ==> Base58Char(c)
  {
    if x > 0 {
      Text58Chars(x / 58);
      assert Digit(x % 58) in ALPHABET;
      AlphabetIs(Digit(x % 58));
    }
  }

  /** Everything written is written in these characters. */
  lemma EncodeChars(s: seq<byte>)
    ensures forall c :: c in Encode(s) ==> Base58Char(c)
  {
    Text58Chars(FromBE(s));
    DigitIs(0);
  }

  lemma {:induction false} Value58Zeros(z: nat)
    ensures Decodable(Repeat(ALPHABET[0], z)) && Value58(Repeat(ALPHABET[0], z)) == 0
  {
    var s := Repeat(ALPHABET[0], z);
    DecodeDigit(0);
    if z > 0 {
      Value58Zeros(z - 1);
      assert s[..|s| - 1] == Repeat(ALPHABET[0], z - 1);
    }
  }

  lemma {:induction false} Value58Ones(z: nat, t: string)
    requires Decodable(t)
    ensures Decodable(Repeat(ALPHABET[0], z) + t)
    ensures Value58(Repeat(ALPHABET[0], z) + t) == Value58(t)
    decreases |t|
  {
    hide Repeat, DecodeChar;
    var o := Repeat(ALPHABET[0], z);
    Value58Zeros(z);
    if t == "" {
      assert o + t == o;
    } else {
      Value58Ones(z, t[..|t| - 1]);
      assert (o + t)[..|o + t| - 1] == o + t[..|t| - 1];
    }
  }

  lemma {:induction false} Value58OfText58(x: nat)
    ensures Decodable(Text58(x)) && Value58(Text58(x)) == x
  {
    if x > 0 {
      Value58OfText58(x / 58);
      DecodeDigit(x % 58);
      var t := Text58(x);
      assert t[..|t| - 1] == Text58(x / 58);
    }
  }

  /** Decoding the text of a byte string gives its big-endian value. */
  lemma DecodeOfEncode(s: seq<byte>)
    ensures Decodable(Encode(s)) && Value58(Encode(s)) == FromBE(s)
  {
    Value58OfText58(FromBE(s));
    Value58Ones(LeadingZeros(s), Text58(FromBE(s)));
  }

  // ---------- texts of the same value ----------

  predicate Alphabetic(src: string) {
    forall c :: c in src ==> c in ALPHABET
  }

  /** A text without its leading digits '1'. */
  function Stripped(src: string): string {
    if src != "" && src[0] == ALPHABET[0] then Stripped(src[1..]) else src
  }

  lemma {:induction false} StrippedSnoc(s: string, c: char)
    ensures Stripped(s + [c]) == if Stripped(s) == "" && c == ALPHABET[0] then "" else Stripped(s) + [c]
  {
    if s == "" {
      assert s + [c] == [c] && [c][1..] == "";
    } else {
      assert (s + [c])[1..] == s[1..] + [c] && (s + [c])[0] == s[0];
      if s[0] == ALPHABET[0] {
        StrippedSnoc(s[1..], c);
      }
    }
  }

  lemma DigitOf(c: char)
    requires c in ALPHABET
    ensures 0 <= DecodeChar(c) < 58 && Digit(DecodeChar(c)) == c
    ensures DecodeChar(c) == 0 <==> c == ALPHABET[0]
  {
    AlphabetAscends();
    var i := IndexOf(ALPHABET, c);
    if i > 0 {
      AscendingPairs(ALPHABET, 0, i);
    }
    DecodeDigit(i);
  }

  lemma Text58Of(v: nat, d: nat)
    requires d < 58
    ensures Text58(v * 58 + d) == if v == 0 && d == 0 then "" else Text58(v) + [Digit(d)]
  {
    hide ALPHABET;
    assert (v * 58 + d) / 58 == v && (v * 58 + d) % 58 == d;
  }

  lemma DecodableSnoc(s: string, c: char)
    requires Decodable(s) && DecodeChar(c) >= 0
    ensures Decodable(s + [c]) && Value58(s + [c]) == Value58(s) * 58 + DecodeChar(c)
  {
    assert (s + [c])[..|s|] == s;
  }

  lemma Text58OfSnoc(s: string, c: char)
    requires Decodable(s) && c in ALPHABET && Text58(Value58(s)) == Stripped(s)
    ensures Decodable(s + [c]) && Text58(Value58(s + [c])) == Stripped(s + [c])
  {
    hide ALPHABET, DecodeChar, Text58, Value58, Stripped, Decodable;
    DigitOf(c);
    DecodableSnoc(s, c);
    StrippedSnoc(s, c);
    Text58Of(Value58(s), DecodeChar(c));
    Text58Positive(Value58(s));
  }

  lemma AlphabeticFront(src: string)
    requires Alphabetic(src) && src != ""
    ensures Alphabetic(src[..|src| - 1]) && src[|src| - 1] in ALPHABET
  {
    assert src[|src| - 1] in src;
  }

  /** Writing the value of a text gives the text without its leading '1's. */
  lemma {:induction false} Text58OfValue58(src: string)
    requires Alphabetic(src)
    ensures Decodable(src) && Text58(Value58(src)) == Stripped(src)
    decreases |src|
  {
    if src == "" {
      Text58Zero();
    } else {
      hide ALPHABET, Text58, Value58, Stripped, Decodable, Alphabetic;
      AlphabeticFront(src);
      Text58OfValue58(src[..|src| - 1]);
      Text58OfSnoc(src[..|src| - 1], src[|src| - 1]);
      assert src == src[..|src| - 1] + [src[|src| - 1]];
    }
  }

  lemma Text58Positive(x: nat)
    ensures x == 0 <==> Text58(x) == ""
  {
  }

  /** Two texts of the alphabet have the same value if and only if they agree without their
      leading '1's. */
  lemma SameValueIff(s: string, t: string)
    requires Alphabetic(s) && Alphabetic(t)
    ensures Decodable(s) && Decodable(t)
    ensures Value58(s) == Value58(t) <==> Stripped(s) == Stripped(t)
  {
    Text58OfValue58(s);
    Text58OfValue58(t);
    Value58OfText58(Value58(s));
    Value58OfText58(Value58(t));
  }

  // ---------- the buffer is large enough ----------

  lemma {:induction false} Text58Length(x: nat)
    requires x > 0
    ensures |Text58(x)| >= 1 && Pow(58, |Text58(x)| - 1) <= x
  {
    if x >= 58 {
      var n := |Text58(x / 58)|;
      Text58Length(x / 58);
      assert Pow(58, n) == 58 * Pow(58, n - 1);
    } else {
      assert Text58(x / 58) == "";
    }
  }

  lemma FromBEZero(s: seq<byte>)
    requires s != [] && s[0] == 0
    ensures FromBE(s) == FromBE(s[1..])
  {
    assert Reverse(s) == Reverse(s[1..]) + [0];
    FromLEAppend(Reverse(s[1..]), [0]);
    assert FromLE([0]) == 0 + 256 * FromLE([0][1..]);
  }

  lemma {:induction false} ValueBelow(s: seq<byte>)
    ensures FromBE(s) < Pow256(|s| - LeadingZeros(s))
  {
    if s != [] && s[0] == 0 {
      FromBEZero(s);
      ValueBelow(s[1..]);
    } else {
      LEofFromLE(Reverse(s));
    }
  }

  /** The text and its terminating zero fit into len * 138 / 100 + 2 characters. */
  lemma EncodeFits(s: seq<byte>)
    ensures |Encode(s)| + 1 <= |s| * 138 / 100 + 2
  {
    var x, z := FromBE(s), LeadingZeros(s);
    if x > 0 {
      var m, e := |s| - z, |Text58(x)| - 1;
      Text58Length(x);
      ValueBelow(s);
      Pow256IsPow(m);
      DigitsPerByte(e, m);
    }
  }

  // ---------- different bytes have different texts ----------

  lemma {:induction false} Text58Head(x: nat)
    requires x > 0
    ensures |Text58(x)| >= 1 && Text58(x)[0] != ALPHABET[0]
  {
    AlphabetAscends();
    if x >= 58 {
      Text58Head(x / 58);
    } else {
      assert Text58(x / 58) == "";
      AscendingPairs(ALPHABET, 0, x);
    }
  }

  /** The leading digits '1' are those of the leading zero bytes. */
  lemma SameZeros(y: nat, x: nat, y': nat, x': nat)
    requires Repeat(ALPHABET[0], y) + Text58(x) == Repeat(ALPHABET[0], y') + Text58(x')
    ensures y <= y'
  {
    if x' > 0 {
      Text58Head(x');
    }
    var s, s' := Repeat(ALPHABET[0], y) + Text58(x), Repeat(ALPHABET[0], y') + Text58(x');
    assert forall i :: 0 <= i < y ==> s[i] == ALPHABET[0];
    assert x' > 0 ==> s'[y'] == Text58(x')[0];
  }

  lemma {:induction false} SameLE(x: seq<byte>, y: seq<byte>)
    requires FromLE(x) == FromLE(y)
    requires x != [] ==> x[|x| - 1] != 0
    requires y != [] ==> y[|y| - 1] != 0
    ensures x == y
  {
    if x != [] && y != [] {
      assert x[0] == FromLE(x) % 256 && FromLE(x[1..]) == FromLE(x) / 256;
      assert y[0] == FromLE(y) % 256 && FromLE(y[1..]) == FromLE(y) / 256;
      SameLE(x[1..], y[1..]);
      assert x == [x[0]] + x[1..] && y == [y[0]] + y[1..];
    } else if x != [] {
      PositiveLE(x);
    } else if y != [] {
      PositiveLE(y);
    }
  }

  lemma {:induction false} PositiveLE(x: seq<byte>)
    requires x != [] && x[|x| - 1] != 0
    ensures FromLE(x) > 0
  {
    if |x| > 1 {
      PositiveLE(x[1..]);
    }
  }

  lemma {:induction false} DropZeros(s: seq<byte>)
    ensures var z := LeadingZeros(s);
      && FromBE(s[z..]) == FromBE(s)
      && (s[z..] != [] ==> s[z] != 0)
      && forall i :: 0 <= i < z ==> s[i] == 0
  {
    hide FromBE;
    if s != [] && s[0] == 0 {
      FromBEZero(s);
      DropZeros(s[1..]);
      var z := LeadingZeros(s);
      assert s[1..][z - 1..] == s[z..];
      assert forall i :: 0 < i < z ==> s[i] == s[1..][i - 1];
    } else {
      assert s[0..] == s;
    }
  }

  /** kyk_base58 is injective on byte strings of any lengths. */
  lemma EncodeInjective(a: seq<byte>, b: seq<byte>)
    requires Encode(a) == Encode(b)
    ensures a == b
  {
    hide Text58, Repeat, FromLE, Reverse, Value58;
    var y, z := LeadingZeros(a), LeadingZeros(b);
    SameZeros(y, FromBE(a), z, FromBE(b));
    SameZeros(z, FromBE(b), y, FromBE(a));
    DecodeOfEncode(a);
    DecodeOfEncode(b);
    DropZeros(a);
    DropZeros(b);
    SameSignificant(a[y..], b[z..]);
    assert a == a[..y] + a[y..] && b == b[..z] + b[z..];
    assert a[..y] == b[..z];
  }

  lemma SameSignificant(s: seq<byte>, t: seq<byte>)
    requires FromBE(s) == FromBE(t) && (s != [] ==> s[0] != 0) && (t != [] ==> t[0] != 0)
    ensures s == t
  {
    SameLE(Reverse(s), Reverse(t));
    ReverseInjective(s, t);
  }

  // ---------- the loops of the source ----------

  lemma Text58Step(x: nat)
    requires x > 0
    ensures Text58(x) == Text58(x / 58) + [Digit(x % 58)] && |Text58(x)| >= 1
  {
  }

  lemma ReverseSnoc<T>(s: seq<T>, c: T, t: seq<T>)
    requires t == s + [c]
    ensures Reverse(t) == [c] + Reverse(s)
  {
  }

  lemma RepeatCons(c: char, n: nat, t: string)
    ensures Repeat(c, n + 1) + t == [c] + (Repeat(c, n) + t)
  {
    assert Repeat(c, n + 1) == [c] + Repeat(c, n);
  }

  lemma ReverseFront<T>(was: seq<T>, i: nat, t: seq<T>)
    requires i <= |was| && Reverse(was[..i]) == t
    ensures var r := Splice(was, 0, Reverse(was[0..0 + i]));
      |t| == i && r[..i] == t && r[i..] == was[i..]
  {
    assert was[0..0 + i] == was[..i];
  }

  /** The buffer of len * 138 / 100 + 2 characters, filled and reversed in place. */
  method KykBase58(bytes: seq<byte>) returns (str: array<char>)
    ensures fresh(str) && str.Length == |bytes| * 138 / 100 + 2
    ensures |Encode(bytes)| < str.Length && str[..|Encode(bytes)|] == Encode(bytes)
    ensures forall k :: |Encode(bytes)| <= k < str.Length ==> str[k] == '\0'
  {
    hide Text58, Encode, FromBE, LeadingZeros, Splice, Reverse, Repeat;
    var strLen := |bytes| * 138 / 100 + 2;
    str := new char[strLen](i => '\0');
    EncodeFits(bytes);
    EncodeParts(bytes);
    ghost var text := Text58(FromBE(bytes));
    var i := FillDigits(str, FromBE(bytes));
    i := FillOnes(str, i, bytes, text);
    ghost var was := str[..];
    assert was[..i] == str[..i];
    assert was[0..0 + i] == str[0..0 + i];
    ReverseFront(was, i, Encode(bytes));
    KykReverse(str, 0, i);
    assert str[..i] == str[..][..i];
    assert forall k :: i <= k < strLen ==> str[k] == str[..][i..][k - i] == was[k];
  }

  /** The loop over the leading zero bytes: a digit '1' for each. */
  method FillOnes(str: array<char>, start: nat, bytes: seq<byte>, ghost text: string) returns (i: nat)
    requires start == |text| && start + LeadingZeros(bytes) < str.Length && Reverse(str[..start]) == text
    requires forall k :: start <= k < str.Length ==> str[k] == '\0'
    modifies str
    ensures i == start + LeadingZeros(bytes) && Reverse(str[..i]) == Repeat(ALPHABET[0], LeadingZeros(bytes)) + text
    ensures forall k :: i <= k < str.Length ==> str[k] == '\0'
  {
    hide LeadingZeros, Reverse, Repeat;
    i := start;
    var j := 0;
    assert Repeat(ALPHABET[0], 0) + text == text;
    assert bytes[0..] == bytes;
    while j < |bytes| && bytes[j] == 0
      invariant 0 <= j <= |bytes| && LeadingZeros(bytes) == j + LeadingZeros(bytes[j..])
      invariant i == start + j < str.Length
      invariant Reverse(str[..i]) == Repeat(ALPHABET[0], j) + text
      invariant forall k :: i <= k < str.Length ==> str[k] == '\0'
    {
      ZeroStep(bytes, j);
      ghost var was := str[..i];
      str[i] := ALPHABET[0];
      i := i + 1;
      ReverseSnoc(was, ALPHABET[0], str[..i]);
      RepeatCons(ALPHABET[0], j, text);
      j := j + 1;
    }
    ZeroEnd(bytes, j);
  }

  /** The division loop: the digits of x, least significant first. */
  method FillDigits(str: array<char>, value: nat) returns (i: nat)
    requires |Text58(value)| < str.Length
    requires forall k :: 0 <= k < str.Length ==> str[k] == '\0'
    modifies str
    ensures i == |Text58(value)| && Reverse(str[..i]) == Text58(value)
    ensures forall k :: i <= k < str.Length ==> str[k] == '\0'
  {
    hide Text58, Reverse;
    ghost var text := Text58(value);
    var x := value;
    i := 0;
    assert Text58(x) + Reverse(str[..0]) == text;
    while x != 0
      invariant 0 <= i < str.Length
      invariant text == Text58(x) + Reverse(str[..i])
      invariant forall k :: i <= k < str.Length ==> str[k] == '\0'
      decreases x
    {
      Text58Step(x);
      ghost var was := str[..i];
      var r := x % 58;
      x := x / 58;
      str[i] := Digit(r);
      i := i + 1;
      ReverseSnoc(was, Digit(r), str[..i]);
      Assoc(Text58(x), [Digit(r)], Reverse(was));
    }
    Text58Zero();
    assert text == Reverse(str[..i]);
  }

  lemma EncodeParts(s: seq<byte>)
    ensures Encode(s) == Repeat(ALPHABET[0], LeadingZeros(s)) + Text58(FromBE(s))
  {
  }

  lemma Text58Zero()
    ensures Text58(0) == ""
  {
  }

  lemma ZeroStep(s: seq<byte>, j: nat)
    requires j < |s| && s[j] == 0
    ensures LeadingZeros(s[j..]) == 1 + LeadingZeros(s[j + 1..])
  {
    assert s[j..][1..] == s[j + 1..];
  }

  lemma ZeroEnd(s: seq<byte>, j: nat)
    requires j <= |s| && (j < |s| ==> s[j] != 0)
    ensures LeadingZeros(s[j..]) == 0
  {
  }

  /** The text with a checksum of four bytes behind the data. */
  method KykBase58Check(hash256: Hasher, bytes: seq<byte>) returns (str: array<char>)
    ensures fresh(str)
    ensures var t := Encode(bytes + hash256(bytes)[..4]);
      |t| < str.Length && str[..|t|] == t && str[|t|] == '\0'
  {
    var check := new byte[|bytes| + 4];
    Memcpy(check, 0, bytes);
    Memcpy(check, |bytes|, hash256(bytes)[..4]);
    assert check[..] == bytes + hash256(bytes)[..4];
    str := KykBase58(check[..]);
  }

  lemma ValueEmpty()
    ensures Decodable("") && Value58("") == 0
  {
  }

  lemma ValueSnoc(src: string, i: nat)
    requires i < |src| && Decodable(src[..i]) && DecodeChar(src[i]) >= 0
    ensures Decodable(src[..i + 1]) && Value58(src[..i + 1]) == Value58(src[..i]) * 58 + DecodeChar(src[i])
  {
    assert src[..i + 1][..i] == src[..i];
  }

  /** 1 and the value, or -1 at the first character outside the alphabet. */
  method RawDecodeBase58(src: string) returns (ret: int, bn: nat)
    ensures ret == (if Decodable(src) then 1 else -1)
    ensures ret == 1 ==> bn == Value58(src)
  {
    hide Value58, DecodeChar;
    bn := 0;
    var i := 0;
    ValueEmpty();
    while i < |src|
      invariant 0 <= i <= |src| && Decodable(src[..i]) && bn == Value58(src[..i])
    {
      var rem := DecodeChar(src[i]);
      if rem < 0 {
        return -1, bn;
      }
      bn := bn * 58;
      bn := bn + rem;
      ValueSnoc(src, i);
      i := i + 1;
    }
    assert src[..i] == src;
    return 1, bn;
  }

  /** 1 when the four bytes after the 21st are the start of the hash of the first `buflen`. */
  method ValidateBase58Checksum(hash256: Hasher, buf: seq<byte>, buflen: nat) returns (ret: int)
    requires |buf| >= 1 + RIPEMD160_DIGEST_LENGTH + 4 && buflen <= |buf|
    ensures ret == if buf[21..25] == hash256(buf[..buflen])[..4] then 1 else -1
  {
    var csum := hash256(buf[..buflen])[..4];
    ret := if csum != buf[1 + RIPEMD160_DIGEST_LENGTH..][..4] then -1 else 1;
  }
}
