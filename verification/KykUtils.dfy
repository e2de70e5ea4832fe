/** The copying, reversing and hexadecimal helpers of kyk_utils.c. */
module KykUtils {
  import opened Bytes

  /** `was` after the outer `i` pairs of the window of `len` bytes at `at` were exchanged. */
  ghost function Mirrored<T>(was: seq<T>, at: nat, len: nat, i: nat): (r: seq<T>)
    requires at + len <= |was| && 2 * i <= len
    ensures |r| == |was|
  {
    var x := was[at..at + len];
    Splice(was, at, Reverse(x)[..i] + x[i..len - i] + Reverse(x)[len - i..])
  }

  lemma MirrorStep<T>(was: seq<T>, at: nat, len: nat, i: nat)
    requires at + len <= |was| && 2 * i + 2 <= len
    ensures var m := Mirrored(was, at, len, i);
      Mirrored(was, at, len, i + 1) == m[at + i := m[at + len - i - 1]][at + len - i - 1 := m[at + i]]
  {
    hide Splice;
    var x := was[at..at + len];
    var y := Reverse(x)[..i] + x[i..len - i] + Reverse(x)[len - i..];
    assert Reverse(x)[..i + 1] + x[i + 1..len - i - 1] + Reverse(x)[len - i - 1..] ==
      y[i := y[len - i - 1]][len - i - 1 := y[i]];
    SpliceSwap(was, at, y, i, len - i - 1);
  }

  lemma SpliceSwap<T>(was: seq<T>, at: nat, y: seq<T>, i: nat, j: nat)
    requires at + |y| <= |was| && i < j < |y|
    ensures var m := Splice(was, at, y);
      Splice(was, at, y[i := y[j]][j := y[i]]) == m[at + i := m[at + j]][at + j := m[at + i]]
  {
  }

  lemma SpliceSelf<T>(was: seq<T>, at: nat, len: nat)
    requires at + len <= |was|
    ensures Splice(was, at, was[at..at + len]) == was
  {
  }

  lemma MirrorStart<T>(was: seq<T>, at: nat, len: nat)
    requires at + len <= |was|
    ensures Mirrored(was, at, len, 0) == was
  {
    hide Splice;
    var x := was[at..at + len];
    SpliceSelf(was, at, len);
    assert Reverse(x)[..0] + x[0..len - 0] + Reverse(x)[len - 0..] == x;
  }

  lemma MirrorEnd<T>(was: seq<T>, at: nat, len: nat)
    requires at + len <= |was|
    ensures Mirrored(was, at, len, len / 2) == Splice(was, at, Reverse(was[at..at + len]))
  {
    hide Splice, Reverse;
    ReverseCentre(was[at..at + len]);
  }

  lemma ReverseCentre<T>(x: seq<T>)
    ensures var h := |x| / 2; Reverse(x)[..h] + x[h..|x| - h] + Reverse(x)[|x| - h..] == Reverse(x)
  {
    var h := |x| / 2;
    assert x[h..|x| - h] == Reverse(x)[h..|x| - h];
  }

  /** Reverses the `len` bytes that start at `at`, in place. */
  method KykReverse<T>(dst: array<T>, at: nat, len: nat)
    requires at + len <= dst.Length
    modifies dst
    ensures dst[..] == Splice(old(dst[..]), at, Reverse(old(dst[at..at + len])))
  {
    ghost var was := dst[..];
    assert was[at..at + len] == dst[at..at + len];
    MirrorStart(was, at, len);
    MirrorEnd(was, at, len);
    var i := 0;
    var stop := len / 2;
    while i < stop
      invariant 0 <= i <= stop
      invariant dst[..] == Mirrored(was, at, len, i)
    {
      var left, right := at + i, at + len - i - 1;
      MirrorStep(was, at, len, i);
      var tmp := dst[left];
      dst[left] := dst[right];
      dst[right] := tmp;
      i := i + 1;
    }
  }

  lemma SpliceNext(was: seq<byte>, at: nat, src: seq<byte>, i: nat)
    requires i < |src| && at + |src| <= |was|
    ensures Splice(was, at, src[..i + 1]) == Splice(was, at, src[..i])[at + i := src[i]]
  {
  }

  /** Stores `src` backwards from offset `at`. */
  method KykReversePackChars(buf: array<byte>, at: nat, src: seq<byte>) returns (size: nat)
    requires at + |src| <= buf.Length
    modifies buf
    ensures size == |src|
    ensures buf[..] == Splice(old(buf[..]), at, Reverse(src))
  {
    size := 0;
    var i := |src| - 1;
    while i >= 0
      invariant -1 <= i < |src|
      invariant size == |src| - 1 - i
      invariant buf[..] == Splice(old(buf[..]), at, Reverse(src)[..size])
    {
      SpliceNext(old(buf[..]), at, Reverse(src), size);
      buf[at + size] := src[i];
      size := size + 1;
      i := i - 1;
    }
    assert Reverse(src)[..size] == Reverse(src);
  }

  /** Stores `src` from offset `at`. */
  method KykPackChars(buf: array<byte>, at: nat, src: seq<byte>) returns (size: nat)
    requires at + |src| <= buf.Length
    modifies buf
    ensures size == |src|
    ensures buf[..] == Splice(old(buf[..]), at, src)
  {
    size := 0;
    for i := 0 to |src|
      invariant size == i
      invariant buf[..] == Splice(old(buf[..]), at, src[..i])
    {
      SpliceNext(old(buf[..]), at, src, i);
      buf[at + size] := src[i];
      size := size + 1;
    }
    assert src[..|src|] == src;
  }

  /** `memcpy(buf + at, src, |src|)`. */
  method Memcpy(buf: array<byte>, at: nat, src: seq<byte>)
    requires at + |src| <= buf.Length
    modifies buf
    ensures buf[..] == Splice(old(buf[..]), at, src)
  {
    var size := KykPackChars(buf, at, src);
  }

  // ---------- hexadecimal ----------

  function KykHex2Byte(ch: char): byte {
    if '0' <= ch <= '9' then ch as int - '0' as int
    else if 'a' <= ch <= 'f' then ch as int - 'a' as int + 10
    else 0
  }

  function HexDigit(n: nat): char
    requires n < 16
  {
    if n < 10 then ('0' as int + n) as char else ('a' as int + n - 10) as char
  }

  /** The two lower-case digits that "%02x" prints for each byte. */
  function ToHex(s: seq<byte>): (h: string)
    ensures |h| == 2 * |s|
    ensures forall i :: 0 <= i < |s| ==> h[2 * i] == HexDigit(s[i] / 16) && h[2 * i + 1] == HexDigit(s[i] % 16)
  {
    seq(2 * |s|, i requires 0 <= i < 2 * |s| => HexDigit(if i % 2 == 0 then s[i / 2] / 16 else s[i / 2] % 16))
  }

  /** What kyk_alloc_hex reads: one byte per two characters, unknown characters as zero digits. */
  function FromHex(h: string): (s: seq<byte>)
    ensures |s| == |h| / 2
  {
    seq(|h| / 2, i requires 0 <= i < |h| / 2 => KykHex2Byte(h[2 * i]) * 16 + KykHex2Byte(h[2 * i + 1]))
  }

  /** The sixteen digits, and the value of every character. */
  lemma HexDigitsAre(n: nat, ch: char)
    requires n < 16
    ensures HexDigit(n) == "0123456789abcdef"[n]
    ensures ch in "0123456789abcdef" ==> "0123456789abcdef"[KykHex2Byte(ch)] == ch
    ensures ch !in "0123456789abcdef" ==> KykHex2Byte(ch) == 0
  {
    var digits := "0123456789abcdef";
    assert digits[n] == HexDigit(n);
    if ch in digits {
      var i :| 0 <= i < |digits| && digits[i] == ch;
    }
    if '0' <= ch <= '9' || 'a' <= ch <= 'f' {
      HexCharIn(ch);
    }
  }

  lemma HexCharIn(ch: char)
    requires '0' <= ch <= '9' || 'a' <= ch <= 'f'
    ensures ch in "0123456789abcdef"
  {
    var digits := "0123456789abcdef";
    assert digits[if ch <= '9' then ch as int - '0' as int else ch as int - 'a' as int + 10] == ch;
  }

  lemma HexDigitRoundTrip(n: nat)
    requires n < 16
    ensures KykHex2Byte(HexDigit(n)) == n
  {
  }

  lemma HexByteRoundTrip(s: seq<byte>, i: nat)
    requires i < |s|
    ensures FromHex(ToHex(s))[i] == s[i]
  {
    var h := ToHex(s);
    var hi, lo := s[i] / 16, s[i] % 16;
    assert h[2 * i] == HexDigit(hi) && h[2 * i + 1] == HexDigit(lo);
    HexDigitRoundTrip(hi);
    HexDigitRoundTrip(lo);
    assert FromHex(h)[i] == KykHex2Byte(h[2 * i]) * 16 + KykHex2Byte(h[2 * i + 1]);
  }

  /** Reading back what "%02x" printed gives the bytes. */
  lemma FromHexOfToHex(s: seq<byte>)
    ensures FromHex(ToHex(s)) == s
  {
    hide ToHex, FromHex;
    forall i | 0 <= i < |s|
      ensures FromHex(ToHex(s))[i] == s[i]
    {
      HexByteRoundTrip(s, i);
    }
  }

  method KykAllocHex(str: string) returns (v: array<byte>, len: nat)
    ensures fresh(v) && len == |str| / 2 == v.Length
    ensures v[..] == FromHex(str)
  {
    var count := |str| / 2;
    v := new byte[count];
    for i := 0 to count
      invariant v[..i] == FromHex(str)[..i]
    {
      var hi := KykHex2Byte(str[i * 2]);
      var lo := KykHex2Byte(str[i * 2 + 1]);
      v[i] := hi * 16 + lo;
    }
    len := count;
    assert FromHex(str)[..count] == FromHex(str);
    assert v[..count] == v[..];
  }
}
