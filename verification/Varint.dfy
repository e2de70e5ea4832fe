/** The variable-length integers of varint.c. */
module Varint {
  import opened Bytes

  /** The encoding that kyk_pack_varint stores. */
  function PackVarint(v: nat): (s: seq<byte>)
    ensures 1 <= |s| <= 9
  {
    if v < 0xfd then [v]
    else if v <= 0xffff then [0xfd] + LE(2, v)
    else if v <= 0xffff_ffff then [0xfe] + LE(4, v)
    else [0xff] + LE(8, v)
  }

  /** The encodings byte by byte. */
  lemma VarintBytes(v: nat)
    ensures v < 0xfd ==> PackVarint(v) == [v]
    ensures 0xfd <= v <= 0xffff ==> PackVarint(v) == [0xfd, v % 256, v / 0x100 % 256]
    ensures 0xffff < v <= 0xffff_ffff ==>
      PackVarint(v) == [0xfe, v % 256, v / 0x100 % 256, v / 0x1_0000 % 256, v / 0x100_0000 % 256]
    ensures 0xffff_ffff < v ==>
      PackVarint(v) == [0xff, v % 256, v / 0x100 % 256, v / 0x1_0000 % 256, v / 0x100_0000 % 256,
                        v / 0x1_0000_0000 % 256, v / 0x100_0000_0000 % 256,
                        v / 0x1_0000_0000_0000 % 256, v / 0x100_0000_0000_0000 % 256]
  {
    hide LE;
    LEBytes2(v);
    LEBytes4(v);
    LEBytes8(v);
  }

  /** Bytes taken by an encoding that starts with `first`. */
  function VarintSize(first: byte): (n: nat)
    ensures 1 <= n <= 9
  {
    if first == 0xfd then 3 else if first == 0xfe then 5 else if first == 0xff then 9 else 1
  }

  /** kyk_unpack_varint: the value at the front of `buf` and the bytes it took.
      The operands of each `|` in the source share no bits, so it is a sum here. */
  function UnpackVarint(buf: seq<byte>): (r: (nat, nat))
    requires |buf| >= 1 && |buf| >= VarintSize(buf[0])
    ensures r.1 == VarintSize(buf[0])
  {
    if buf[0] == 0xfd then (buf[2] as int * 0x100 + buf[1], 3)
    else if buf[0] == 0xfe then
      (buf[4] as int * 0x100_0000 + buf[3] as int * 0x1_0000 + buf[2] as int * 0x100 + buf[1], 5)
    else if buf[0] == 0xff then
      (buf[8] as int * 0x100_0000_0000_0000 + buf[7] as int * 0x1_0000_0000_0000 +
       buf[6] as int * 0x100_0000_0000 + buf[5] as int * 0x1_0000_0000 +
       buf[4] as int * 0x100_0000 + buf[3] as int * 0x1_0000 + buf[2] as int * 0x100 + buf[1], 9)
    else (buf[0], 1)
  }

  /** A long encoding carries its value little-endian after the marker byte. */
  lemma UnpackIsLE(buf: seq<byte>)
    requires |buf| >= 1 && |buf| >= VarintSize(buf[0])
    ensures var (v, n) := UnpackVarint(buf);
      if n == 1 then v == buf[0] else v == FromLE(buf[1..n])
  {
    var n := VarintSize(buf[0]);
    if n == 3 {
      FromLE2(buf[1..3]);
    } else if n == 5 {
      FromLE4(buf[1..5]);
    } else if n == 9 {
      FromLE8(buf[1..9]);
    }
  }

  /** Reading recovers the value and the length, whatever follows in the buffer. */
  lemma VarintRoundTrip(v: nat, rest: seq<byte>)
    requires v < TWO64
    ensures var s := PackVarint(v) + rest;
      |s| >= VarintSize(s[0]) && UnpackVarint(s) == (v, |PackVarint(v)|)
  {
    var s := PackVarint(v) + rest;
    var n := |PackVarint(v)|;
    UnpackIsLE(s);
    if n > 1 {
      Pow256Values();
      assert s[1..n] == LE(n - 1, v);
      FromLEofLESmall(n - 1, v);
    }
  }

  /** No encoding is a proper prefix of another, and equal encodings mean equal values. */
  lemma VarintPrefixFree(a: nat, r: seq<byte>, b: nat, s: seq<byte>)
    requires a < TWO64 && b < TWO64
    requires PackVarint(a) + r == PackVarint(b) + s
    ensures a == b && r == s
  {
    VarintRoundTrip(a, r);
    VarintRoundTrip(b, s);
    ConcatSplit(PackVarint(a), r, PackVarint(b), s);
  }

  /** Writing back what was read restores the bytes exactly when the encoding
      was the shortest one for its value. */
  lemma RepackIffShortest(buf: seq<byte>)
    requires |buf| >= 1 && |buf| >= VarintSize(buf[0])
    ensures var (v, n) := UnpackVarint(buf);
      PackVarint(v) == buf[..n] <==>
        (buf[0] == 0xfd ==> v >= 0xfd) && (buf[0] == 0xfe ==> v > 0xffff) && (buf[0] == 0xff ==> v > 0xffff_ffff)
  {
    var (v, n) := UnpackVarint(buf);
    UnpackIsLE(buf);
    if n == 1 {
      assert buf[..1] == [v];
    } else {
      LEofFromLE(buf[1..n]);
      Pow256Values();
      assert buf[..n] == [buf[0]] + LE(n - 1, v);
      if |PackVarint(v)| == n {
        assert PackVarint(v)[0] == buf[0];
      }
    }
  }

  method KykPackVarint(buf: array<byte>, at: nat, v: nat) returns (size: nat)
    requires v < TWO64 && at + |PackVarint(v)| <= buf.Length
    modifies buf
    ensures size == |PackVarint(v)|
    ensures buf[..] == Splice(old(buf[..]), at, PackVarint(v))
  {
    var p := at;
    if v < 0xfd {
      Put1(buf, p, v); p := p + 1;
    } else if v <= 0xffff {
      LEBytes2(v);
      Put1(buf, p, 0xfd); p := p + 1;
      Put2(buf, p, v % 256, v / 0x100 % 256); p := p + 2;
      SpliceSplice(old(buf[..]), at, [0xfd], LE(2, v));
    } else if v <= 0xffff_ffff {
      LEBytes4(v);
      Put1(buf, p, 0xfe); p := p + 1;
      Put4(buf, p, v % 256, v / 0x100 % 256, v / 0x1_0000 % 256, v / 0x100_0000 % 256); p := p + 4;
      SpliceSplice(old(buf[..]), at, [0xfe], LE(4, v));
    } else {
      LEBytes8(v);
      Put1(buf, p, 0xff); p := p + 1;
      Put8(buf, p, v % 256, v / 0x100 % 256, v / 0x1_0000 % 256, v / 0x100_0000 % 256,
        v / 0x1_0000_0000 % 256, v / 0x100_0000_0000 % 256,
        v / 0x1_0000_0000_0000 % 256, v / 0x100_0000_0000_0000 % 256);
      p := p + 8;
      SpliceSplice(old(buf[..]), at, [0xff], LE(8, v));
    }
    size := p - at;
  }
}
