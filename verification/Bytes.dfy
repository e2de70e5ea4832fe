/** Bytes, fixed-width integers and in-place buffer writes shared by every codec.

    A C pointer into a buffer is modelled as an array together with an offset;
    a write of the bytes `x` at offset `at` is described by `Splice`. */
module Bytes {

  type byte = b: int | 0 <= b < 256

  /** The 32 bytes of a SHA-256 digest. */
  type Digest = s: seq<byte> | |s| == 32 witness seq(32, _ => 0)

  /** A hash function left uninterpreted: it is a parameter wherever one is used. */
  type Hasher = seq<byte> -> Digest

  const TWO32: nat := 0x1_0000_0000
  const TWO64: nat := 0x1_0000_0000_0000_0000

  // ---------- sequences ----------

  function Reverse<T>(s: seq<T>): (r: seq<T>)
    ensures |r| == |s|
    ensures forall i :: 0 <= i < |s| ==> r[i] == s[|s| - 1 - i]
  {
    seq(|s|, i requires 0 <= i < |s| => s[|s| - 1 - i])
  }

  lemma ReverseTwice<T>(s: seq<T>)
    ensures Reverse(Reverse(s)) == s
  {
  }

  lemma ReverseInjective<T>(s: seq<T>, t: seq<T>)
    requires Reverse(s) == Reverse(t)
    ensures s == t
  {
    ReverseTwice(s);
    ReverseTwice(t);
  }

  /** A concatenation splits in one way once the length of its first part is known. */
  lemma ConcatSplit<T>(x: seq<T>, r: seq<T>, y: seq<T>, s: seq<T>)
    requires |x| == |y| && x + r == y + s
    ensures x == y && r == s
  {
    assert x == (x + r)[..|x|] && y == (y + s)[..|y|];
    assert r == (x + r)[|x|..] && s == (y + s)[|y|..];
  }

  lemma Assoc<T>(a: seq<T>, b: seq<T>, c: seq<T>)
    ensures a + b + c == a + (b + c)
  {
  }

  /** The buffer `s` after the bytes `x` were stored at offset `at`. */
  function Splice<T>(s: seq<T>, at: nat, x: seq<T>): (r: seq<T>)
    requires at + |x| <= |s|
    ensures |r| == |s|
  {
    s[..at] + x + s[at + |x|..]
  }

  lemma SpliceSplice<T>(s: seq<T>, at: nat, x: seq<T>, y: seq<T>)
    requires at + |x| + |y| <= |s|
    ensures Splice(Splice(s, at, x), at + |x|, y) == Splice(s, at, x + y)
  {
  }

  lemma SpliceEmpty<T>(s: seq<T>, at: nat)
    requires at <= |s|
    ensures Splice(s, at, []) == s
  {
  }

  // ---------- powers of two ----------

  function Pow2(n: nat): (p: nat)
    ensures p >= 1
    ensures n >= 1 ==> p % 2 == 0 && p >= 2
  {
    if n == 0 then 1 else 2 * Pow2(n - 1)
  }

  lemma DoubleLeft(a: nat, b: nat)
    ensures (2 * a) * b == 2 * (a * b)
  {
  }

  lemma {:induction false} Pow2Add(m: nat, n: nat)
    ensures Pow2(m + n) == Pow2(m) * Pow2(n)
  {
    if m > 0 {
      Pow2Add(m - 1, n);
      DoubleLeft(Pow2(m - 1), Pow2(n));
    }
  }

  lemma Pow2Succ(n: nat)
    ensures Pow2(0) == 1 && Pow2(n + 1) == 2 * Pow2(n)
  {
  }

  lemma {:induction false} Pow2Mono(m: nat, n: nat)
    requires m <= n
    ensures Pow2(m) <= Pow2(n)
    decreases n - m
  {
    if m < n {
      Pow2Mono(m + 1, n);
    }
  }

  // ---------- fixed-width integers ----------

  function Pow256(n: nat): (p: nat)
    ensures p >= 1
  {
    if n == 0 then 1 else 256 * Pow256(n - 1)
  }

  lemma Pow256Values()
    ensures Pow256(1) == 0x100 && Pow256(2) == 0x1_0000
    ensures Pow256(4) == TWO32 && Pow256(8) == TWO64
  {
    assert Pow256(2) == 256 * Pow256(1);
    assert Pow256(3) == 256 * Pow256(2);
    assert Pow256(4) == 256 * Pow256(3);
    assert Pow256(5) == 256 * Pow256(4);
    assert Pow256(6) == 256 * Pow256(5);
    assert Pow256(7) == 256 * Pow256(6);
    assert Pow256(8) == 256 * Pow256(7);
  }

  /** The low `n` bytes of `v`, least significant first; two's complement when v < 0. */
  function LE(n: nat, v: int): (s: seq<byte>)
    ensures |s| == n
  {
    if n == 0 then [] else [v % 256] + LE(n - 1, v / 256)
  }

  function FromLE(s: seq<byte>): nat {
    if s == [] then 0 else s[0] + 256 * FromLE(s[1..])
  }

  function BE(n: nat, v: int): (s: seq<byte>)
    ensures |s| == n
  {
    Reverse(LE(n, v))
  }

  function FromBE(s: seq<byte>): nat {
    FromLE(Reverse(s))
  }

  lemma DivMod256(v: int, p: nat)
    requires p >= 1
    ensures v % (256 * p) == v % 256 + 256 * ((v / 256) % p)
  {
    var q := v / 256;
    assert v == 256 * q + v % 256;
    assert q == p * (q / p) + q % p;
    var r := v % 256 + 256 * (q % p);
    assert v == (256 * p) * (q / p) + r by {
      assert 256 * q == 256 * (p * (q / p)) + 256 * (q % p);
      assert 256 * (p * (q / p)) == (256 * p) * (q / p);
    }
    assert 0 <= r < 256 * p;
    DivModUnique(v, 256 * p, q / p, r);
  }

  lemma QuotientUnique(d: nat, q: int, r: int, q': int, r': int)
    requires 0 <= r < d && 0 <= r' < d && d * q + r == d * q' + r'
    ensures q == q' && r == r'
  {
    var k := q - q';
    assert d * k == r' - r;
    MulAtLeast(d, k);
  }

  lemma MulAtLeast(d: nat, k: int)
    ensures k >= 1 ==> d * k >= d
    ensures k <= -1 ==> d * k + d <= 0
  {
    if k <= -1 {
      assert d * (-k) >= d;
    }
  }

  lemma DivModUnique(v: int, d: nat, q: int, r: int)
    requires 0 <= r < d && v == d * q + r
    ensures v % d == r && v / d == q
  {
    QuotientUnique(d, q, r, v / d, v % d);
  }

  lemma {:induction false} FromLEofLE(n: nat, v: int)
    ensures FromLE(LE(n, v)) == v % Pow256(n)
  {
    if n > 0 {
      FromLEofLE(n - 1, v / 256);
      assert LE(n, v)[1..] == LE(n - 1, v / 256);
      DivMod256(v, Pow256(n - 1));
    }
  }

  lemma {:induction false} LEofFromLE(s: seq<byte>)
    ensures LE(|s|, FromLE(s)) == s
    ensures FromLE(s) < Pow256(|s|)
  {
    if s != [] {
      LEofFromLE(s[1..]);
      var v := FromLE(s);
      assert v % 256 == s[0] && v / 256 == FromLE(s[1..]);
      assert s == [s[0]] + s[1..];
    }
  }

  lemma LEInjective(n: nat, a: int, b: int)
    requires LE(n, a) == LE(n, b)
    requires 0 <= a < Pow256(n) && 0 <= b < Pow256(n)
    ensures a == b
  {
    FromLEofLE(n, a);
    FromLEofLE(n, b);
    DivModUnique(a, Pow256(n), 0, a);
    DivModUnique(b, Pow256(n), 0, b);
  }

  lemma FromLEofLESmall(n: nat, v: int)
    requires 0 <= v < Pow256(n)
    ensures FromLE(LE(n, v)) == v
  {
    FromLEofLE(n, v);
    DivModUnique(v, Pow256(n), 0, v);
  }

  lemma LEBytes2(v: int)
    ensures LE(2, v) == [v % 256, v / 0x100 % 256]
  {
    assert LE(1, v / 256) == [v / 256 % 256] + LE(0, v / 256 / 256);
  }

  lemma LEBytes4(v: int)
    ensures LE(4, v) == [v % 256, v / 0x100 % 256, v / 0x1_0000 % 256, v / 0x100_0000 % 256]
  {
    var w := v / 0x1_0000;
    LEBytes2(v);
    LEBytes2(w);
    assert LE(4, v) == [v % 256] + ([v / 256 % 256] + LE(2, v / 256 / 256)) by {
      assert LE(3, v / 256) == [v / 256 % 256] + LE(2, v / 256 / 256);
    }
    assert v / 256 / 256 == w;
  }

  lemma LEBytes8(v: int)
    ensures LE(8, v) == [v % 256, v / 0x100 % 256, v / 0x1_0000 % 256, v / 0x100_0000 % 256,
                         v / 0x1_0000_0000 % 256, v / 0x100_0000_0000 % 256,
                         v / 0x1_0000_0000_0000 % 256, v / 0x100_0000_0000_0000 % 256]
  {
    var w := v / 0x1_0000_0000;
    LEAppend(4, 4, v);
    LEBytes4(v);
    LEBytes4(w);
    assert Pow256(4) == 0x1_0000_0000 by { Pow256Values(); }
    assert w / 0x100 == v / 0x100_0000_0000;
    assert w / 0x1_0000 == v / 0x1_0000_0000_0000;
    assert w / 0x100_0000 == v / 0x100_0000_0000_0000;
  }

  /** Only the low n bytes count. */
  lemma {:induction false} LEOfMod(n: nat, m: nat, v: int)
    requires n <= m
    ensures LE(n, v % Pow256(m)) == LE(n, v)
  {
    if n > 0 {
      DivMod256(v, Pow256(m - 1));
      DivModUnique(v % Pow256(m), 256, v / 256 % Pow256(m - 1), v % 256);
      LEOfMod(n - 1, m - 1, v / 256);
    }
  }

  lemma {:induction false} LEAppend(m: nat, n: nat, v: int)
    ensures LE(m + n, v) == LE(m, v) + LE(n, v / Pow256(m))
  {
    if m == 0 {
      assert v / Pow256(0) == v;
    } else {
      LEAppend(m - 1, n, v / 256);
      DivDiv(v, Pow256(m - 1));
      Assoc([v % 256], LE(m - 1, v / 256), LE(n, v / Pow256(m)));
    }
  }

  lemma DivDiv(v: int, p: nat)
    requires p >= 1
    ensures v / (256 * p) == v / 256 / p
  {
    var q := v / 256;
    var r := v % 256 + 256 * (q % p);
    assert q == p * (q / p) + q % p;
    assert v == (256 * p) * (q / p) + r by {
      assert 256 * q == 256 * (p * (q / p)) + 256 * (q % p);
      assert 256 * (p * (q / p)) == (256 * p) * (q / p);
    }
    DivModUnique(v, 256 * p, q / p, r);
  }

  lemma FromBESnoc(t: seq<byte>, b: byte)
    ensures FromBE(t + [b]) == b + 256 * FromBE(t)
  {
    assert Reverse(t + [b]) == [b] + Reverse(t);
    assert ([b] + Reverse(t))[1..] == Reverse(t);
  }

  lemma FromLE2(s: seq<byte>)
    requires |s| == 2
    ensures FromLE(s) == s[0] + 0x100 * s[1] as int
  {
    assert FromLE(s[1..]) == s[1] + 256 * FromLE(s[1..][1..]);
  }

  lemma {:induction false} FromLEAppend(x: seq<byte>, y: seq<byte>)
    ensures FromLE(x + y) == FromLE(x) + Pow256(|x|) * FromLE(y)
  {
    if x == [] {
      assert x + y == y;
    } else {
      FromLEAppend(x[1..], y);
      assert (x + y)[1..] == x[1..] + y;
      assert 256 * (Pow256(|x| - 1) * FromLE(y)) == (256 * Pow256(|x| - 1)) * FromLE(y);
    }
  }

  lemma FromLE4(s: seq<byte>)
    requires |s| == 4
    ensures FromLE(s) == s[0] + 0x100 * s[1] as int + 0x1_0000 * s[2] as int + 0x100_0000 * s[3] as int
  {
    FromLE2(s[..2]);
    FromLE2(s[2..]);
    FromLEAppend(s[..2], s[2..]);
    assert s == s[..2] + s[2..];
    Pow256Values();
  }

  lemma FromLE8(s: seq<byte>)
    requires |s| == 8
    ensures FromLE(s) ==
      s[0] + 0x100 * s[1] as int + 0x1_0000 * s[2] as int + 0x100_0000 * s[3] as int +
      0x1_0000_0000 * s[4] as int + 0x100_0000_0000 * s[5] as int +
      0x1_0000_0000_0000 * s[6] as int + 0x100_0000_0000_0000 * s[7] as int
  {
    FromLE4(s[..4]);
    FromLE4(s[4..]);
    FromLEAppend(s[..4], s[4..]);
    assert s == s[..4] + s[4..];
    Pow256Values();
  }

  function Zeros(n: nat): (z: seq<byte>)
    ensures |z| == n && forall i :: 0 <= i < n ==> z[i] == 0
  {
    seq(n, i => 0)
  }

  /** The first position of x in s, or -1. */
  function IndexOf<T(==)>(s: seq<T>, x: T): (i: int)
    ensures -1 <= i < |s|
    ensures i >= 0 ==> s[i] == x && x !in s[..i]
    ensures i < 0 <==> x !in s
  {
    if s == [] then -1
    else if s[0] == x then 0
    else
      var i := IndexOf(s[1..], x);
      if i < 0 then -1 else
        assert s[..i + 1] == [s[0]] + s[1..][..i];
        i + 1
  }

  // ---------- stores of several bytes through one pointer ----------

  method Put1(buf: array<byte>, at: nat, b: byte)
    requires at + 1 <= buf.Length
    modifies buf
    ensures buf[..] == Splice(old(buf[..]), at, [b])
  {
    buf[at] := b;
  }

  method Put2(buf: array<byte>, at: nat, b0: byte, b1: byte)
    requires at + 2 <= buf.Length
    modifies buf
    ensures buf[..] == Splice(old(buf[..]), at, [b0, b1])
  {
    var p := at;
    buf[p] := b0; p := p + 1;
    buf[p] := b1; p := p + 1;
  }

  method Put3(buf: array<byte>, at: nat, b0: byte, b1: byte, b2: byte)
    requires at + 3 <= buf.Length
    modifies buf
    ensures buf[..] == Splice(old(buf[..]), at, [b0, b1, b2])
  {
    var p := at;
    buf[p] := b0; p := p + 1;
    buf[p] := b1; p := p + 1;
    buf[p] := b2; p := p + 1;
  }

  method Put4(buf: array<byte>, at: nat, b0: byte, b1: byte, b2: byte, b3: byte)
    requires at + 4 <= buf.Length
    modifies buf
    ensures buf[..] == Splice(old(buf[..]), at, [b0, b1, b2, b3])
  {
    var p := at;
    buf[p] := b0; p := p + 1;
    buf[p] := b1; p := p + 1;
    buf[p] := b2; p := p + 1;
    buf[p] := b3; p := p + 1;
  }

  method Put8(buf: array<byte>, at: nat, b0: byte, b1: byte, b2: byte, b3: byte,
              b4: byte, b5: byte, b6: byte, b7: byte)
    requires at + 8 <= buf.Length
    modifies buf
    ensures buf[..] == Splice(old(buf[..]), at, [b0, b1, b2, b3, b4, b5, b6, b7])
  {
    Put4(buf, at, b0, b1, b2, b3);
    Put4(buf, at + 4, b4, b5, b6, b7);
    SpliceSplice(old(buf[..]), at, [b0, b1, b2, b3], [b4, b5, b6, b7]);
    assert [b0, b1, b2, b3] + [b4, b5, b6, b7] == [b0, b1, b2, b3, b4, b5, b6, b7];
  }
}
