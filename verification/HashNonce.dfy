/** Targets and difficulty of kyk_difficulty.c and the nonce search of kyk_hash_nonce.c;
    mpz values are natural numbers. */
module HashNonce {
  import opened Bytes
  import opened KykUtils
  import opened BeejPack
  import opened Block

  // ---------- targets ----------

  /** The compact form carries an exponent of at least 3. */
  predicate ExponentOk(bts: nat) {
    bts < TWO32 && bts / 0x100_0000 >= 3
  }

  /** mantissa * 2^(8 * (exponent - 3)). */
  function Target(bts: nat): nat
    requires ExponentOk(bts)
  {
    Pow2(8 * (bts / 0x100_0000 - 3)) * (bts % 0x100_0000)
  }

  /** The target of difficulty 1: 0xFFFF * 2^208. */
  function Dlt1Target(): nat {
    0xffff * Pow2(208)
  }

  lemma {:induction false} ZerosValue(k: nat)
    ensures FromLE(Zeros(k)) == 0 && Pow256(k) == Pow2(8 * k)
  {
    if k > 0 {
      ZerosValue(k - 1);
      assert Zeros(k)[1..] == Zeros(k - 1);
      Pow2Add(8, 8 * (k - 1));
      assert Pow2(2) == 4 && Pow2(4) == 16 && Pow2(6) == 64 && Pow2(8) == 256;
    }
  }

  lemma ShiftedValue(x: seq<byte>, k: nat)
    ensures FromBE(x + Zeros(k)) == Pow2(8 * k) * FromBE(x)
  {
    hide FromLE;
    assert Reverse(x + Zeros(k)) == Zeros(k) + Reverse(x);
    FromLEAppend(Zeros(k), Reverse(x));
    ZerosValue(k);
  }

  /** A target is the number whose bytes are the three of the mantissa, then zeros: as many
      bytes altogether as the exponent says. */
  lemma TargetBytes(bts: nat)
    requires ExponentOk(bts)
    ensures Target(bts) == FromBE(BE(3, bts) + Zeros(bts / 0x100_0000 - 3))
  {
    hide LE, FromLE, Reverse;
    ShiftedValue(BE(3, bts), bts / 0x100_0000 - 3);
    ReverseTwice(LE(3, bts));
    FromLEofLE(3, bts);
    assert Pow256(3) == 256 * Pow256(2) by { Pow256Values(); }
    Pow256Values();
  }

  lemma Ffff()
    ensures FromBE([0, 0, 0, 0, 0xff, 0xff]) == 0xffff
  {
    hide FromLE;
    var x: seq<byte>, lo: seq<byte> := [0, 0, 0, 0, 0xff, 0xff], [0xff, 0xff];
    assert Reverse(x) == lo + Zeros(4);
    FromLEAppend(lo, Zeros(4));
    FromLE2(lo);
    ZerosValue(4);
  }

  /** The target of difficulty 1 is the 32-byte number 00000000FFFF00..., which is also the
      target of the compact form 1D00FFFF. */
  lemma Dlt1Bytes()
    ensures Dlt1Target() == FromBE([0, 0, 0, 0, 0xff, 0xff] + Zeros(26))
    ensures ExponentOk(0x1d00_ffff) && Target(0x1d00_ffff) == Dlt1Target()
  {
    hide Pow2, FromLE, Reverse;
    ShiftedValue([0, 0, 0, 0, 0xff, 0xff], 26);
    Ffff();
  }

  function CeilQuotient(a: nat, b: nat): nat
    requires b >= 1
  {
    (a + b - 1) / b
  }

  /** A rounded-up quotient is the least number of b's that reach a. */
  lemma CeilQuotientBounds(a: nat, b: nat)
    requires a >= 1 && b >= 1
    ensures var q := CeilQuotient(a, b);
      q >= 1 && (q - 1) * b < a <= q * b
  {
    var q := CeilQuotient(a, b);
    var x := a + b - 1;
    assert x == b * q + x % b;
    assert (q - 1) * b == b * q - b && q * b == b * q;
    if q == 0 {
      assert false;
    }
  }

  method KykBts2Target(bts: nat) returns (tg: nat)
    requires ExponentOk(bts)
    ensures tg == Target(bts)
  {
    var ep := bts / 0x100_0000;
    var mt := bts % 0x100_0000;
    tg := Pow2(8 * (ep - 3));
    tg := tg * mt;
  }

  /** The rounded-up difficulty, cut to 32 bits. */
  method KykBts2Dlt(bts: nat) returns (res: nat)
    requires ExponentOk(bts) && bts % 0x100_0000 != 0
    ensures Target(bts) >= 1 && res == CeilQuotient(Dlt1Target(), Target(bts)) % TWO32
  {
    TargetPositive(bts);
    var tg := KykBts2Target(bts);
    var q := CeilQuotient(Dlt1Target(), tg);
    res := q % TWO32;
  }

  lemma TargetPositive(bts: nat)
    requires ExponentOk(bts) && bts % 0x100_0000 != 0
    ensures Target(bts) >= 1
  {
    MulAtLeast(Pow2(8 * (bts / 0x100_0000 - 3)), bts % 0x100_0000);
  }

  /** A number up to the target, times the difficulty less one, is below the target of
      difficulty 1. */
  lemma MeetsDifficulty(hash: nat, bts: nat)
    requires ExponentOk(bts) && bts % 0x100_0000 != 0 && hash <= Target(bts)
    ensures Target(bts) >= 1
    ensures hash * (CeilQuotient(Dlt1Target(), Target(bts)) % TWO32 - 1) < Dlt1Target()
  {
    TargetPositive(bts);
    assert Dlt1Target() >= 1;
    hide Target, Dlt1Target;
    CeilQuotientBounds(Dlt1Target(), Target(bts));
    CutQuotient(hash, Target(bts), CeilQuotient(Dlt1Target(), Target(bts)), Dlt1Target());
  }

  lemma CutQuotient(hash: nat, t: nat, q: nat, d: nat)
    requires hash <= t && q >= 1 && (q - 1) * t < d && d >= 1
    ensures hash * (q % TWO32 - 1) < d
  {
    var r := q % TWO32;
    if r == 0 {
      assert hash * (r - 1) <= 0;
    } else {
      ProductMono(hash, t, r - 1, q - 1);
      assert (q - 1) * t == t * (q - 1);
    }
  }

  lemma ProductMono(a: nat, b: nat, c: nat, d: nat)
    requires a <= b && c <= d
    ensures a * c <= b * d
  {
    assert b * d - a * c == (b - a) * d + a * (d - c);
    assert (b - a) * d >= 0 && a * (d - c) >= 0;
  }

  // ---------- the search ----------

  /** The hash of the header with this nonce, read little-endian, meets the target. */
  predicate Meets(hash256: Hasher, h: Header, nonce: nat)
    requires ExponentOk(h.bts)
  {
    FromLE(hash256(SeriHd(h.(nonce := nonce)))) <= Target(h.bts)
  }

  /** The nonce k steps after `start`, counting modulo 2^32. */
  function After(start: nat, k: nat): nat {
    (start + k) % TWO32
  }

  lemma AfterStart(start: nat)
    requires start < TWO32
    ensures After(start, 0) == start
  {
  }

  lemma NextAfter(start: nat, k: nat)
    ensures After(start, k + 1) == (After(start, k) + 1) % TWO32
  {
  }

  /** How many steps lead from `start` to n. */
  lemma StepsTo(start: nat, n: nat) returns (k: nat)
    requires start < TWO32 && n < TWO32
    ensures k < TWO32 && After(start, k) == n
  {
    k := if n >= start then n - start else n - start + TWO32;
  }

  /** Patches four bytes behind the 76 fixed ones: the first 80 bytes are then the whole
      serialised header, and their hash is read as a number. */
  method HashWithNonce(hash256: Hasher, hdBuf: array<byte>, len: nat, nonce: nat, ghost h: Header) returns (hs: nat)
    requires len == 76 && hdBuf.Length >= KYK_BLK_HD_LEN && hdBuf[..len] == SeriHdNoNonce(h)
    modifies hdBuf
    ensures hdBuf[..len] == SeriHdNoNonce(h) && hdBuf[..KYK_BLK_HD_LEN] == SeriHd(h.(nonce := nonce))
    ensures hs == FromLE(hash256(SeriHd(h.(nonce := nonce))))
    ensures ExponentOk(h.bts) ==> (hs <= Target(h.bts) <==> Meets(hash256, h, nonce))
  {
    hide Target, LE, FromLE, Splice, Reverse, SeriHd, SeriHdNoNonce;
    ghost var was := hdBuf[..];
    var n := PackL(hdBuf, len, nonce);
    PatchedNonce(was, hdBuf[..], h, nonce);
    var dgst := hash256(hdBuf[..KYK_BLK_HD_LEN]);
    hs := ReadHash(dgst);
  }

  /** The search has an end exactly when some nonce is good: counting on from any start, all
      nonces fail if and only if there is none that meets the target. */
  lemma SearchEndsIff(hash256: Hasher, h: Header, start: nat)
    requires ExponentOk(h.bts) && start < TWO32
    ensures (forall k: nat :: !Meets(hash256, h, After(start, k))) <==>
      !(exists n :: 0 <= n < TWO32 && Meets(hash256, h, n))
  {
    hide Meets;
    if n :| 0 <= n < TWO32 && Meets(hash256, h, n) {
      var k := StepsTo(start, n);
    } else {
      forall k: nat
        ensures !Meets(hash256, h, After(start, k))
      {
        assert 0 <= After(start, k) < TWO32;
      }
    }
  }

  /** Tries nonces upwards, wrapping around at 2^32, and stops at the first that meets the
      target; it ends because there is one. Only the nonce of the header changes. */
  method KykHshNonce(hash256: Hasher, hd: BlkHeader) returns (ghost k: nat)
    requires hd.nonce < TWO32 && ExponentOk(hd.bts)
    requires exists n :: 0 <= n < TWO32 && Meets(hash256, hd.Value(), n)
    modifies hd`nonce
    ensures k < TWO32 && hd.nonce == After(old(hd.nonce), k)
    ensures Meets(hash256, old(hd.Value()), hd.nonce)
    ensures forall j :: 0 <= j < k ==> !Meets(hash256, old(hd.Value()), After(old(hd.nonce), j))
    ensures hd.nonce == (old(hd.nonce) + k) % 0x1_0000_0000
    ensures FromLE(hash256(SeriHd(hd.Value()))) <= Target(hd.bts)
    ensures forall n: nat :: n < 0x1_0000_0000 && (n - old(hd.nonce)) % 0x1_0000_0000 < k ==>
      FromLE(hash256(SeriHd(old(hd.Value()).(nonce := n)))) > Target(old(hd.bts))
  {
    hide LE, FromLE, Splice, Reverse, Target, SeriHd, SeriHdNoNonce, Meets, After;
    ghost var h, start := hd.Value(), hd.nonce;
    ghost var good :| 0 <= good < TWO32 && Meets(hash256, h, good);
    ghost var last := StepsTo(start, good);
    var hdBuf := new byte[KYK_BLK_HD_LEN + 20];
    var tg := KykBts2Target(hd.bts);
    var len := KykSeriBlkHdWithoutNonce(hdBuf, 0, hd);
    ghost var blank := hdBuf[..];
    SplicedFront(hdBuf[..], SeriHdNoNonce(h));
    k := 0;
    AfterStart(start);
    while true
      invariant hd.Value() == h.(nonce := hd.nonce)
      invariant hd.nonce == After(start, k) && k <= last
      invariant hdBuf[..76] == SeriHdNoNonce(h)
      invariant forall j :: 0 <= j < k ==> !Meets(hash256, h, After(start, j))
      decreases last - k
    {
      var hs := HashWithNonce(hash256, hdBuf, len, hd.nonce, h);
      if hs > tg {
        NextAfter(start, k);
        hd.nonce := (hd.nonce + 1) % TWO32;
        k := k + 1;
      } else {
        break;
      }
    }
    GoodNonces(hash256, h, start, k);
  }

  lemma StepsBetween(start: nat, n: nat)
    requires start < TWO32 && n < TWO32
    ensures After(start, (n - start) % TWO32) == n
  {
  }

  /** What it means for the nonces from the start up to the one found. */
  lemma GoodNonces(hash256: Hasher, h: Header, start: nat, k: nat)
    requires ExponentOk(h.bts) && start < TWO32
    ensures After(start, k) == (start + k) % 0x1_0000_0000
    ensures Meets(hash256, h, After(start, k)) ==>
      FromLE(hash256(SeriHd(h.(nonce := After(start, k))))) <= Target(h.bts)
    ensures (forall j :: 0 <= j < k ==> !Meets(hash256, h, After(start, j))) ==>
      forall n: nat :: n < 0x1_0000_0000 && (n - start) % 0x1_0000_0000 < k ==>
        FromLE(hash256(SeriHd(h.(nonce := n)))) > Target(h.bts)
  {
    hide LE, FromLE, Reverse, Target, SeriHd;
    if forall j :: 0 <= j < k ==> !Meets(hash256, h, After(start, j)) {
      forall n: nat | n < 0x1_0000_0000 && (n - start) % 0x1_0000_0000 < k
        ensures FromLE(hash256(SeriHd(h.(nonce := n)))) > Target(h.bts)
      {
        StepsBetween(start, n);
        assert !Meets(hash256, h, After(start, (n - start) % TWO32));
      }
    }
  }

  lemma SplicedFront(s: seq<byte>, x: seq<byte>)
    requires |x| <= |s| && exists was: seq<byte> :: |was| == |s| && s == Splice(was, 0, x)
    ensures s[..|x|] == x
  {
  }

  /** Patching four bytes behind the first 76 gives the whole serialised header. */
  lemma PatchedNonce(was: seq<byte>, now: seq<byte>, h: Header, nonce: nat)
    requires |was| >= KYK_BLK_HD_LEN && was[..76] == SeriHdNoNonce(h)
    requires now == Splice(was, 76, LE(4, nonce))
    ensures now[..76] == SeriHdNoNonce(h) && now[..KYK_BLK_HD_LEN] == SeriHd(h.(nonce := nonce))
  {
    hide LE;
    assert SeriHdNoNonce(h.(nonce := nonce)) == SeriHdNoNonce(h);
    assert now[..KYK_BLK_HD_LEN] == now[..76] + now[76..80];
  }

  /** The digest turned around and imported most significant byte first. */
  method ReadHash(digest: Digest) returns (hs: nat)
    ensures hs == FromLE(digest)
  {
    var dgst := new byte[32];
    Memcpy(dgst, 0, digest);
    assert dgst[..] == digest && dgst[0..0 + 32] == digest;
    KykReverse(dgst, 0, 32);
    assert dgst[..] == Reverse(digest);
    ReverseTwice(digest);
    hs := FromBE(dgst[..]);
  }
}
