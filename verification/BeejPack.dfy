/** The format interpreters beej_pack and beej_unpack of beej_pack.c. */
module BeejPack {
  import opened Bytes
  import opened Float754
  import opened KykUtils

  const NUL_BYT_ORD := '\0'

  // ---------- storing integers ----------

  /** The bytes of the low 8*w bits of `v`: little-endian under the mark '<', else big-endian. */
  function IntBytes(w: nat, v: int, bytodr: char): (s: seq<byte>)
    ensures |s| == w
  {
    if bytodr == '<' then LE(w, v) else BE(w, v)
  }

  lemma Below(c: nat, r: nat, m: nat)
    requires r < m && c >= 1
    ensures c * r < c * m
  {
    MulAtLeast(c, m - r);
    assert c * (m - r) == c * m - c * r;
  }

  lemma ShlKeeps(i: nat, c: nat, m: nat)
    requires c >= 1 && m >= 1
    ensures i * c % (c * m) == c * (i % m)
  {
    var q, r := i / m, i % m;
    assert i == m * q + r;
    assert i * c == (c * m) * q + c * r by {
      assert (m * q + r) * c == (m * q) * c + r * c;
      assert (m * q) * c == (c * m) * q;
    }
    Below(c, r, m);
    DivModUnique(i * c, c * m, q, c * r);
  }

  lemma ShrCancels(r: nat, c: nat, d: nat)
    requires c >= 1 && d >= 1
    ensures c * r / (c * d) == r / d
  {
    var t := r / d;
    assert r == d * t + r % d;
    assert c * (d * t + r % d) == (c * d) * t + c * (r % d) by { assert c * (d * t) == (c * d) * t; }
    Below(c, r % d, d);
    DivModUnique(c * r, c * d, t, c * (r % d));
  }

  lemma ByteOfLow(i: nat, d: nat, k: nat)
    requires d >= 1 && k >= 1
    ensures i % (d * (256 * k)) / d % 256 == i / d % 256
  {
    var m := d * (256 * k);
    var q, r := i / m, i % m;
    var t := r / d;
    var u := 256 * k * q + t;
    assert i == m * q + r;
    assert m * q == d * (256 * k * q);
    assert d * u == d * (256 * k * q) + d * t;
    DivModUnique(i, d, u, r % d);
    assert u == 256 * (k * q) + t by { assert 256 * k * q == 256 * (k * q); }
  }

  /** Shifting a word left and back right selects one byte: with c = 2^left and
      c * d = 2^right, `((i << left) >> right) & 0xFF` is byte number right - left of i. */
  lemma ShiftedByte(i: nat, c: nat, d: nat, k: nat, word: nat)
    requires c >= 1 && d >= 1 && k >= 1 && word == c * (d * (256 * k))
    ensures i * c % word / (c * d) % 256 == i / d % 256
  {
    var m := d * (256 * k);
    ShlKeeps(i, c, m);
    ShrCancels(i % m, c, d);
    ByteOfLow(i, d, k);
  }

  lemma BigBytes(v: int)
    ensures BE(2, v) == [v / 0x100 % 256, v % 256]
    ensures BE(4, v) == [v / 0x100_0000 % 256, v / 0x1_0000 % 256, v / 0x100 % 256, v % 256]
    ensures BE(8, v) == [v / 0x100_0000_0000_0000 % 256, v / 0x1_0000_0000_0000 % 256,
                         v / 0x100_0000_0000 % 256, v / 0x1_0000_0000 % 256,
                         v / 0x100_0000 % 256, v / 0x1_0000 % 256, v / 0x100 % 256, v % 256]
  {
    LEBytes2(v);
    LEBytes4(v);
    LEBytes8(v);
  }

  lemma Shifted16(i: nat)
    ensures i * 0x100 % TWO32 / 0x100 % 256 == i % 256
  {
    ShiftedByte(i, 0x100, 1, 0x1_0000, TWO32);
  }

  method PackI16(buf: array<byte>, at: nat, i: nat, bytodr: char)
    requires i < TWO32 && at + 2 <= buf.Length
    modifies buf
    ensures buf[..] == Splice(old(buf[..]), at, IntBytes(2, i, bytodr))
  {
    if bytodr == '<' {
      LEBytes2(i);
      Shifted16(i);
      Put2(buf, at, i * 0x100 % TWO32 / 0x100 % 256, i / 0x100 % 256);
    } else {
      BigBytes(i);
      Put2(buf, at, i / 0x100 % 256, i % 256);
    }
  }

  lemma Shifted32(i: nat)
    ensures i * 0x100_0000 % TWO64 / 0x100_0000 % 256 == i % 256
    ensures i * 0x1_0000 % TWO64 / 0x100_0000 % 256 == i / 0x100 % 256
    ensures i * 0x100 % TWO64 / 0x100_0000 % 256 == i / 0x1_0000 % 256
  {
    ShiftedByte(i, 0x100_0000, 1, 0x1_0000_0000, TWO64);
    ShiftedByte(i, 0x1_0000, 0x100, 0x1_0000_0000, TWO64);
    ShiftedByte(i, 0x100, 0x1_0000, 0x1_0000_0000, TWO64);
  }

  method PackI32(buf: array<byte>, at: nat, i: nat, bytodr: char)
    requires i < TWO64 && at + 4 <= buf.Length
    modifies buf
    ensures buf[..] == Splice(old(buf[..]), at, IntBytes(4, i, bytodr))
  {
    if bytodr == '<' {
      Shifted32(i);
      LEBytes4(i);
      Put4(buf, at, i * 0x100_0000 % TWO64 / 0x100_0000 % 256, i * 0x1_0000 % TWO64 / 0x100_0000 % 256,
        i * 0x100 % TWO64 / 0x100_0000 % 256, i / 0x100_0000 % 256);
    } else {
      BigBytes(i);
      Put4(buf, at, i / 0x100_0000 % 256, i / 0x1_0000 % 256, i / 0x100 % 256, i % 256);
    }
  }

  lemma Shifted64(i: nat)
    ensures i * 0x100_0000_0000_0000 % TWO64 / 0x100_0000_0000_0000 % 256 == i % 256
    ensures i * 0x1_0000_0000_0000 % TWO64 / 0x100_0000_0000_0000 % 256 == i / 0x100 % 256
    ensures i * 0x100_0000_0000 % TWO64 / 0x100_0000_0000_0000 % 256 == i / 0x1_0000 % 256
    ensures i * 0x1_0000_0000 % TWO64 / 0x100_0000_0000_0000 % 256 == i / 0x100_0000 % 256
    ensures i * 0x100_0000 % TWO64 / 0x100_0000_0000_0000 % 256 == i / 0x1_0000_0000 % 256
    ensures i * 0x1_0000 % TWO64 / 0x100_0000_0000_0000 % 256 == i / 0x100_0000_0000 % 256
    ensures i * 0x100 % TWO64 / 0x100_0000_0000_0000 % 256 == i / 0x1_0000_0000_0000 % 256
  {
    ShiftedByte(i, 0x100_0000_0000_0000, 1, 1, TWO64);
    ShiftedByte(i, 0x1_0000_0000_0000, 0x100, 1, TWO64);
    ShiftedByte(i, 0x100_0000_0000, 0x1_0000, 1, TWO64);
    ShiftedByte(i, 0x1_0000_0000, 0x100_0000, 1, TWO64);
    ShiftedByte(i, 0x100_0000, 0x1_0000_0000, 1, TWO64);
    ShiftedByte(i, 0x1_0000, 0x100_0000_0000, 1, TWO64);
    ShiftedByte(i, 0x100, 0x1_0000_0000_0000, 1, TWO64);
  }

  method PackI64(buf: array<byte>, at: nat, i: nat, bytodr: char)
    requires i < TWO64 && at + 8 <= buf.Length
    modifies buf
    ensures buf[..] == Splice(old(buf[..]), at, IntBytes(8, i, bytodr))
  {
    if bytodr == '<' {
      Shifted64(i);
      LEBytes8(i);
      Put8(buf, at,
        i * 0x100_0000_0000_0000 % TWO64 / 0x100_0000_0000_0000 % 256,
        i * 0x1_0000_0000_0000 % TWO64 / 0x100_0000_0000_0000 % 256,
        i * 0x100_0000_0000 % TWO64 / 0x100_0000_0000_0000 % 256,
        i * 0x1_0000_0000 % TWO64 / 0x100_0000_0000_0000 % 256,
        i * 0x100_0000 % TWO64 / 0x100_0000_0000_0000 % 256,
        i * 0x1_0000 % TWO64 / 0x100_0000_0000_0000 % 256,
        i * 0x100 % TWO64 / 0x100_0000_0000_0000 % 256,
        i / 0x100_0000_0000_0000 % 256);
    } else {
      BigBytes(i);
      Put8(buf, at, i / 0x100_0000_0000_0000 % 256, i / 0x1_0000_0000_0000 % 256,
        i / 0x100_0000_0000 % 256, i / 0x1_0000_0000 % 256,
        i / 0x100_0000 % 256, i / 0x1_0000 % 256, i / 0x100 % 256, i % 256);
    }
  }

  // ---------- loading integers ----------

  function IntOf(b: seq<byte>, bytodr: char): nat {
    if bytodr == '<' then FromLE(b) else FromBE(b)
  }

  /** The two's complement reading of an unsigned w-byte number. */
  function Signed(w: nat, u: nat): int {
    if 2 * u < Pow256(w) then u else u - Pow256(w)
  }

  function UnpackU16(b: seq<byte>, bytodr: char): (i: nat)
    requires |b| == 2
    ensures i == IntOf(b, bytodr)
  {
    FromLE2(b);
    FromLE2(Reverse(b));
    if bytodr == '<' then b[1] as int * 0x100 + b[0] else b[0] as int * 0x100 + b[1]
  }

  function UnpackU32(b: seq<byte>, bytodr: char): (i: nat)
    requires |b| == 4
    ensures i == IntOf(b, bytodr)
  {
    FromLE4(b);
    FromLE4(Reverse(b));
    if bytodr == '<' then
      b[3] as int * 0x100_0000 + b[2] as int * 0x1_0000 + b[1] as int * 0x100 + b[0]
    else
      b[0] as int * 0x100_0000 + b[1] as int * 0x1_0000 + b[2] as int * 0x100 + b[3]
  }

  function UnpackU64(b: seq<byte>, bytodr: char): (i: nat)
    requires |b| == 8
    ensures i == IntOf(b, bytodr)
  {
    FromLE8(b);
    FromLE8(Reverse(b));
    if bytodr == '<' then
      b[7] as int * 0x100_0000_0000_0000 + b[6] as int * 0x1_0000_0000_0000 +
      b[5] as int * 0x100_0000_0000 + b[4] as int * 0x1_0000_0000 +
      b[3] as int * 0x100_0000 + b[2] as int * 0x1_0000 + b[1] as int * 0x100 + b[0]
    else
      b[0] as int * 0x100_0000_0000_0000 + b[1] as int * 0x1_0000_0000_0000 +
      b[2] as int * 0x100_0000_0000 + b[3] as int * 0x1_0000_0000 +
      b[4] as int * 0x100_0000 + b[5] as int * 0x1_0000 + b[6] as int * 0x100 + b[7]
  }

  function UnpackI8(b: byte): (c: int)
    ensures c == Signed(1, b)
  {
    Pow256Values();
    if b <= 0x7f then b else -1 - (0xff - b)
  }

  function UnpackI16(b: seq<byte>, bytodr: char): (i: int)
    requires |b| == 2
    ensures i == Signed(2, IntOf(b, bytodr))
  {
    Pow256Values();
    var i2 := UnpackU16(b, bytodr);
    if i2 <= 0x7fff then i2 else -1 - (0xffff - i2)
  }

  function UnpackI32(b: seq<byte>, bytodr: char): (i: int)
    requires |b| == 4
    ensures i == Signed(4, IntOf(b, bytodr))
  {
    Pow256Values();
    var i2 := UnpackU32(b, bytodr);
    if i2 <= 0x7fff_ffff then i2 else -1 - (0xffff_ffff - i2)
  }

  function UnpackI64(b: seq<byte>, bytodr: char): (i: int)
    requires |b| == 8
    ensures i == Signed(8, IntOf(b, bytodr))
  {
    Pow256Values();
    var i2 := UnpackU64(b, bytodr);
    if i2 <= 0x7fff_ffff_ffff_ffff then i2 else -1 - (0xffff_ffff_ffff_ffff - i2)
  }

  // ---------- the format language ----------

  /** One variadic argument, a string as its characters, or one value stored through a
      variadic pointer, a string as its bytes with the terminating zero. */
  datatype Value = Num(v: int) | Text(s: seq<byte>) | Flt(f: real)

  /** Bytes of a fixed-width field; 0 for every other character. */
  function Width(c: char): (w: nat)
    ensures w in {0, 1, 2, 4, 8}
  {
    if c == 'c' || c == 'C' then 1
    else if c == 'h' || c == 'H' || c == 'f' then 2
    else if c == 'l' || c == 'L' || c == 'd' then 4
    else if c == 'q' || c == 'Q' || c == 'g' then 8
    else 0
  }

  predicate IsFloat(c: char) { c == 'f' || c == 'd' || c == 'g' }

  predicate IsSigned(c: char) { c == 'c' || c == 'h' || c == 'l' || c == 'q' }

  predicate IsMark(c: char) { c == '<' || c == '>' }

  function ExpBits(c: char): nat
  {
    if c == 'f' then 5 else if c == 'd' then 8 else 11
  }

  /** What `+ 0.5f` adds to 2^s once the sum is rounded to the 24 digits of a float. */
  function Extra(significandbits: nat): real {
    if significandbits <= 22 then 0.5 else 0.0
  }

  predicate Kind(c: char, a: Value) {
    if IsFloat(c) then a.Flt? else if c == 's' then a.Text? else a.Num?
  }

  /** The integer whose low bytes a field stores. */
  ghost function FieldWord(c: char, a: Value): int
    requires Width(c) > 0 && Kind(c, a)
  {
    if IsFloat(c) then Pack754Word(a.f, 8 * Width(c), ExpBits(c), Extra(8 * Width(c) - ExpBits(c) - 1))
    else a.v
  }

  /** One argument of the right kind for each field. */
  predicate ArgsMatch(fmt: string, args: seq<Value>) {
    if fmt == "" then args == []
    else if Width(fmt[0]) > 0 || fmt[0] == 's' then
      args != [] && Kind(fmt[0], args[0]) && ArgsMatch(fmt[1..], args[1..])
    else ArgsMatch(fmt[1..], args)
  }

  /** The bytes beej_pack writes. A mark lasts until the next field. */
  ghost function PackBytes(fmt: string, args: seq<Value>, bytodr: char): seq<byte>
    requires ArgsMatch(fmt, args)
  {
    if fmt == "" then []
    else if IsMark(fmt[0]) then PackBytes(fmt[1..], args, fmt[0])
    else if Width(fmt[0]) > 0 then
      IntBytes(Width(fmt[0]), FieldWord(fmt[0], args[0]), bytodr) + PackBytes(fmt[1..], args[1..], NUL_BYT_ORD)
    else if fmt[0] == 's' then args[0].s + PackBytes(fmt[1..], args[1..], bytodr)
    else PackBytes(fmt[1..], args, bytodr)
  }

  /** The value beej_unpack reads from the bytes of a field. */
  function FieldValue(c: char, b: seq<byte>, bytodr: char): Value
    requires Width(c) > 0 && |b| == Width(c)
  {
    var u := IntOf(b, bytodr);
    if IsFloat(c) then Flt(Unpack754Value(u, 8 * Width(c), ExpBits(c)))
    else if IsSigned(c) then Num(Signed(Width(c), u))
    else Num(u)
  }

  predicate IsDigit(c: char) { '0' <= c <= '9' }

  /** The pending maximal string length after a format character. */
  function NextMax(c: char, max: nat): nat {
    if IsDigit(c) then (max * 10 + (c as int - '0' as int)) % TWO32 else 0
  }

  /** Characters of a stored string that are copied out. */
  function CopyCount(len: nat, max: nat): nat {
    if max > 0 && len > max then max - 1 else len
  }

  /** Every byte that beej_unpack looks at lies inside `buf`. */
  predicate Readable(fmt: string, buf: seq<byte>, bytodr: char) {
    if fmt == "" then true
    else if IsMark(fmt[0]) then Readable(fmt[1..], buf, fmt[0])
    else if Width(fmt[0]) > 0 then |buf| >= Width(fmt[0]) && Readable(fmt[1..], buf[Width(fmt[0])..], bytodr)
    else if fmt[0] == 's' then
      |buf| >= 2 && var len := IntOf(buf[..2], bytodr);
      |buf| >= 2 + len && Readable(fmt[1..], buf[2 + len..], bytodr)
    else Readable(fmt[1..], buf, bytodr)
  }

  /** The values beej_unpack stores. A mark lasts until the next mark. */
  function UnpackValues(fmt: string, buf: seq<byte>, bytodr: char, max: nat): seq<Value>
    requires Readable(fmt, buf, bytodr)
  {
    if fmt == "" then []
    else
      var c, max' := fmt[0], NextMax(fmt[0], max);
      if IsMark(c) then UnpackValues(fmt[1..], buf, c, max')
      else if Width(c) > 0 then
        [FieldValue(c, buf[..Width(c)], bytodr)] + UnpackValues(fmt[1..], buf[Width(c)..], bytodr, max')
      else if c == 's' then
        var len := IntOf(buf[..2], bytodr);
        [Text(buf[2..2 + CopyCount(len, max)] + [0])] + UnpackValues(fmt[1..], buf[2 + len..], bytodr, max')
      else UnpackValues(fmt[1..], buf, bytodr, max')
  }

  // ---------- when unpacking recovers what was packed ----------

  /** Values the C type of a field can hold; for floats, numbers some word stands for.
      The characters of a C string are not zero. */
  ghost predicate InRange(c: char, a: Value)
    requires Width(c) > 0 && Kind(c, a)
  {
    if IsFloat(c) then exists i: nat :: i < Pow256(Width(c)) && a.f == Unpack754Value(i, 8 * Width(c), ExpBits(c))
    else if IsSigned(c) then -(Pow256(Width(c)) as int) <= 2 * a.v < Pow256(Width(c))
    else 0 <= a.v < Pow256(Width(c))
  }

  ghost predicate AllInRange(fmt: string, args: seq<Value>)
    requires ArgsMatch(fmt, args)
  {
    if fmt == "" then true
    else if Width(fmt[0]) > 0 then InRange(fmt[0], args[0]) && AllInRange(fmt[1..], args[1..])
    else if fmt[0] == 's' then 0 !in args[0].s && AllInRange(fmt[1..], args[1..])
    else AllInRange(fmt[1..], args)
  }

  /** Bytes that the fixed-width fields of a format take. */
  function FieldBytesTotal(fmt: string): nat {
    if fmt == "" then 0 else Width(fmt[0]) + FieldBytesTotal(fmt[1..])
  }

  /** No multi-byte field without a mark of its own comes after a most recent '<'.
      `little`: the most recent mark is '<'; `own`: it stands after the last field. */
  predicate EveryFieldMarked(fmt: string, little: bool, own: bool) {
    if fmt == "" then true
    else if IsMark(fmt[0]) then EveryFieldMarked(fmt[1..], fmt[0] == '<', true)
    else if Width(fmt[0]) > 0 then
      (Width(fmt[0]) > 1 ==> own || !little) && EveryFieldMarked(fmt[1..], little, false)
    else EveryFieldMarked(fmt[1..], little, own)
  }

  lemma BitsOfWidth(w: nat)
    requires w in {1, 2, 4, 8}
    ensures Pow2(8 * w) == Pow256(w)
  {
    Pow2Values();
    Pow256Values();
  }

  lemma IntRoundTrip(w: nat, v: int, bytodr: char)
    ensures IntOf(IntBytes(w, v, bytodr), bytodr) == v % Pow256(w)
  {
    FromLEofLE(w, v);
    ReverseTwice(LE(w, v));
  }

  lemma SignedOfMod(w: nat, v: int)
    requires -(Pow256(w) as int) <= 2 * v < Pow256(w)
    ensures Signed(w, v % Pow256(w)) == v
  {
    DivModUnique(v, Pow256(w), if v < 0 then -1 else 0, if v < 0 then v + Pow256(w) else v);
  }

  /** What each integer field may hold, in numbers. */
  lemma Ranges(v: int)
    ensures InRange('c', Num(v)) <==> -0x80 <= v <= 0x7f
    ensures InRange('C', Num(v)) <==> 0 <= v <= 0xff
    ensures InRange('h', Num(v)) <==> -0x8000 <= v <= 0x7fff
    ensures InRange('H', Num(v)) <==> 0 <= v <= 0xffff
    ensures InRange('l', Num(v)) <==> -0x8000_0000 <= v <= 0x7fff_ffff
    ensures InRange('L', Num(v)) <==> 0 <= v <= 0xffff_ffff
    ensures InRange('q', Num(v)) <==> -0x8000_0000_0000_0000 <= v <= 0x7fff_ffff_ffff_ffff
    ensures InRange('Q', Num(v)) <==> 0 <= v <= 0xffff_ffff_ffff_ffff
  {
    Pow256Values();
  }

  /** Which call of pack754 each float field makes: over 16 bits with 5 for the exponent and the
      half in the multiplier, over 32 with 8 and over 64 with 11, the half rounded away. */
  lemma FieldWordIs(f: real)
    ensures Layout(16, 5) && Layout(32, 8) && Layout(64, 11)
    ensures FieldWord('f', Flt(f)) == Pack754Word(f, 16, 5, 0.5)
    ensures FieldWord('d', Flt(f)) == Pack754Word(f, 32, 8, 0.0)
    ensures FieldWord('g', Flt(f)) == Pack754Word(f, 64, 11, 0.0)
  {
    hide Pack754Word;
  }

  /** One field read under the mark it was written under. */
  lemma FieldRoundTrip(c: char, a: Value, bytodr: char)
    requires Width(c) > 0 && Kind(c, a) && InRange(c, a)
    ensures FieldValue(c, IntBytes(Width(c), FieldWord(c, a), bytodr), bytodr) == a
  {
    hide Pack754Word, Unpack754Value, IntBytes;
    var w := Width(c);
    IntRoundTrip(w, FieldWord(c, a), bytodr);
    if IsFloat(c) {
      var i: nat :| i < Pow256(w) && a.f == Unpack754Value(i, 8 * w, ExpBits(c));
      BitsOfWidth(w);
      PackOfUnpack(i, 8 * w, ExpBits(c), Extra(8 * w - ExpBits(c) - 1));
      SmallMod(i, Pow256(w));
    } else if IsSigned(c) {
      SignedOfMod(w, a.v);
    } else {
      SmallMod(a.v, Pow256(w));
    }
  }

  /** With one byte the mark does not matter. */
  lemma OneByte(v: int, o: char, o': char)
    ensures IntBytes(1, v, o) == IntBytes(1, v, o')
    ensures forall b: seq<byte> :: |b| == 1 ==> IntOf(b, o) == IntOf(b, o')
  {
    assert Reverse(LE(1, v)) == LE(1, v);
    forall b: seq<byte> | |b| == 1
      ensures IntOf(b, o) == IntOf(b, o')
    {
      assert Reverse(b) == b;
    }
  }

  function OrderOf(little: bool): char { if little then '<' else '>' }

  /** The size returned is the sum of the field widths, whatever the values. */
  lemma {:induction false} PackedSize(fmt: string, args: seq<Value>, bytodr: char)
    requires ArgsMatch(fmt, args) && 's' !in fmt
    ensures |PackBytes(fmt, args, bytodr)| == FieldBytesTotal(fmt)
  {
    if fmt != "" {
      var c := fmt[0];
      if IsMark(c) {
        PackedSize(fmt[1..], args, c);
      } else if Width(c) > 0 {
        PackedSize(fmt[1..], args[1..], NUL_BYT_ORD);
      } else {
        PackedSize(fmt[1..], args, bytodr);
      }
    }
  }

  /** How many characters of a format are among these. */
  function CountOf(fmt: string, these: string): nat {
    if fmt == "" then 0 else (if fmt[0] in these then 1 else 0) + CountOf(fmt[1..], these)
  }

  lemma {:induction false} TotalIs(fmt: string)
    ensures FieldBytesTotal(fmt) ==
      CountOf(fmt, "cC") + 2 * CountOf(fmt, "hHf") + 4 * CountOf(fmt, "lLd") + 8 * CountOf(fmt, "qQg")
  {
    if fmt != "" {
      TotalIs(fmt[1..]);
    }
  }

  /** In numbers: one byte for each c and C, two for h, H and f, four for l, L and d, eight for
      q, Q and g. */
  lemma PackedSizeIs(fmt: string, args: seq<Value>, bytodr: char)
    requires ArgsMatch(fmt, args) && 's' !in fmt
    ensures |PackBytes(fmt, args, bytodr)| ==
      CountOf(fmt, "cC") + 2 * CountOf(fmt, "hHf") + 4 * CountOf(fmt, "lLd") + 8 * CountOf(fmt, "qQg")
  {
    PackedSize(fmt, args, bytodr);
    TotalIs(fmt);
  }

  lemma {:induction false} EnoughToRead(fmt: string, buf: seq<byte>, bytodr: char)
    requires 's' !in fmt && |buf| >= FieldBytesTotal(fmt)
    ensures Readable(fmt, buf, bytodr)
  {
    if fmt != "" {
      var c := fmt[0];
      if IsMark(c) {
        EnoughToRead(fmt[1..], buf, c);
      } else if Width(c) > 0 {
        EnoughToRead(fmt[1..], buf[Width(c)..], bytodr);
      } else {
        EnoughToRead(fmt[1..], buf, bytodr);
      }
    }
  }

  /** The mark the writer still has when the reader's most recent one is '<' or not. */
  function WriterOrder(little: bool, own: bool): char {
    if own then OrderOf(little) else NUL_BYT_ORD
  }

  lemma MarkedField(c: char, a: Value, little: bool, own: bool)
    requires Width(c) > 0 && Kind(c, a) && InRange(c, a) && (Width(c) > 1 ==> own || !little)
    ensures FieldValue(c, IntBytes(Width(c), FieldWord(c, a), WriterOrder(little, own)), OrderOf(little)) == a
  {
    FieldRoundTrip(c, a, OrderOf(little));
    OneByte(FieldWord(c, a), WriterOrder(little, own), OrderOf(little));
  }

  /** Reading one field off the front. */
  lemma UnpackField(fmt: string, head: seq<byte>, tail: seq<byte>, bytodr: char, max: nat)
    requires fmt != "" && !IsMark(fmt[0]) && Width(fmt[0]) == |head| > 0 && Readable(fmt[1..], tail, bytodr)
    ensures Readable(fmt, head + tail, bytodr)
    ensures UnpackValues(fmt, head + tail, bytodr, max) ==
      [FieldValue(fmt[0], head, bytodr)] + UnpackValues(fmt[1..], tail, bytodr, NextMax(fmt[0], max))
  {
    assert (head + tail)[..|head|] == head && (head + tail)[|head|..] == tail;
  }

  /** Every in-range vector comes back when every multi-byte field is marked. */
  lemma {:induction false} MarkedRecovers(fmt: string, args: seq<Value>, little: bool, own: bool, max: nat)
    requires 's' !in fmt && ArgsMatch(fmt, args) && AllInRange(fmt, args)
    requires EveryFieldMarked(fmt, little, own)
    ensures var buf := PackBytes(fmt, args, WriterOrder(little, own));
      Readable(fmt, buf, OrderOf(little)) && UnpackValues(fmt, buf, OrderOf(little), max) == args
  {
    hide FieldWord, IntBytes, FieldValue, InRange;
    if fmt != "" {
      var c := fmt[0];
      var max' := NextMax(c, max);
      if IsMark(c) {
        MarkedRecovers(fmt[1..], args, c == '<', true, max');
      } else if Width(c) > 0 {
        var o := WriterOrder(little, own);
        MarkedField(c, args[0], little, own);
        MarkedRecovers(fmt[1..], args[1..], little, false, max');
        UnpackField(fmt, IntBytes(Width(c), FieldWord(c, args[0]), o),
          PackBytes(fmt[1..], args[1..], NUL_BYT_ORD), OrderOf(little), max);
        assert args == [args[0]] + args[1..];
      } else {
        MarkedRecovers(fmt[1..], args, little, own, max');
      }
    }
  }

  // ---------- and when it does not ----------

  /** An argument whose word is 1. */
  ghost function One(c: char): (a: Value)
    requires Width(c) > 0
    ensures Kind(c, a) && InRange(c, a) && FieldWord(c, a) == 1
  {
    Pow256Values();
    BitsOfWidth(Width(c));
    if IsFloat(c) then
      var w := Width(c);
      PackOfUnpack(1, 8 * w, ExpBits(c), Extra(8 * w - ExpBits(c) - 1));
      var one: nat := 1;
      assert one < Pow256(w) && Unpack754Value(1, 8 * w, ExpBits(c)) == Unpack754Value(one, 8 * w, ExpBits(c));
      Flt(Unpack754Value(1, 8 * w, ExpBits(c)))
    else Num(1)
  }

  /** Words 1, and empty strings. */
  ghost function Ones(fmt: string): (args: seq<Value>)
    ensures ArgsMatch(fmt, args) && AllInRange(fmt, args)
  {
    if fmt == "" then []
    else if Width(fmt[0]) > 0 then [One(fmt[0])] + Ones(fmt[1..])
    else if fmt[0] == 's' then [Text([])] + Ones(fmt[1..])
    else Ones(fmt[1..])
  }

  /** A 1 written big-endian and read little-endian is 256^(w-1). */
  lemma SwappedOne(w: nat)
    requires w in {2, 4, 8}
    ensures IntOf(IntBytes(w, 1, NUL_BYT_ORD), '<') == Pow256(w - 1)
    ensures 1 < Pow256(w - 1) && 2 * Pow256(w - 1) < Pow256(w)
  {
    Pow256Values();
    assert Pow256(w) == 256 * Pow256(w - 1);
    hide Pow256;
    SwappedBytes(w);
    FromLEofLESmall(w, Pow256(w - 1));
  }

  lemma SwappedBytes(w: nat)
    requires w in {2, 4, 8} && 256 * Pow256(w - 1) == Pow256(w)
    ensures Reverse(LE(w, 1)) == LE(w, Pow256(w - 1))
  {
    hide LE, Pow256;
    Pow256Values();
    BigBytes(1);
    LEBytes2(0x100);
    LEBytes4(0x100_0000);
    LEBytes8(0x100_0000_0000_0000);
  }

  /** A multi-byte field without its own mark, read under '<'. */
  lemma UnmarkedField(c: char)
    requires Width(c) > 1
    ensures FieldValue(c, IntBytes(Width(c), FieldWord(c, One(c)), NUL_BYT_ORD), '<') != One(c)
  {
    hide Pack754Word, Unpack754Value, IntBytes;
    var w := Width(c);
    SwappedOne(w);
    if IsFloat(c) {
      var d := Extra(8 * w - ExpBits(c) - 1);
      BitsOfWidth(w);
      PackOfUnpack(Pow256(w - 1), 8 * w, ExpBits(c), d);
      PackOfUnpack(1, 8 * w, ExpBits(c), d);
    }
  }

  /** The first field of the vector of ones, packed and unpacked. */
  lemma OnesField(fmt: string, little: bool, own: bool, max: nat)
    requires fmt != "" && 's' !in fmt && !IsMark(fmt[0]) && Width(fmt[0]) > 0
    ensures var o, c := WriterOrder(little, own), fmt[0];
      var buf, tail := PackBytes(fmt, Ones(fmt), o), PackBytes(fmt[1..], Ones(fmt[1..]), NUL_BYT_ORD);
      && Readable(fmt, buf, OrderOf(little)) && Readable(fmt[1..], tail, OrderOf(little))
      && UnpackValues(fmt, buf, OrderOf(little), max) ==
           [FieldValue(c, IntBytes(Width(c), FieldWord(c, One(c)), o), OrderOf(little))]
           + UnpackValues(fmt[1..], tail, OrderOf(little), NextMax(c, max))
  {
    var c := fmt[0];
    var head := IntBytes(Width(c), FieldWord(c, One(c)), WriterOrder(little, own));
    var tail := PackBytes(fmt[1..], Ones(fmt[1..]), NUL_BYT_ORD);
    assert Ones(fmt)[0] == One(c) && Ones(fmt)[1..] == Ones(fmt[1..]);
    PackedSize(fmt[1..], Ones(fmt[1..]), NUL_BYT_ORD);
    EnoughToRead(fmt[1..], tail, OrderOf(little));
    UnpackField(fmt, head, tail, OrderOf(little), max);
  }

  /** A character that is no field only moves the writer on, and the reader. */
  lemma PackSkip(fmt: string, args: seq<Value>, little: bool, own: bool)
    requires fmt != "" && 's' !in fmt && (IsMark(fmt[0]) || Width(fmt[0]) == 0) && ArgsMatch(fmt, args)
    ensures PackBytes(fmt, args, WriterOrder(little, own)) ==
      PackBytes(fmt[1..], args, WriterOrder(if IsMark(fmt[0]) then fmt[0] == '<' else little, own || IsMark(fmt[0])))
  {
  }

  lemma UnpackSkip(fmt: string, buf: seq<byte>, little: bool, max: nat)
    requires fmt != "" && 's' !in fmt && (IsMark(fmt[0]) || Width(fmt[0]) == 0)
    requires Readable(fmt[1..], buf, OrderOf(if IsMark(fmt[0]) then fmt[0] == '<' else little))
    ensures Readable(fmt, buf, OrderOf(little))
    ensures UnpackValues(fmt, buf, OrderOf(little), max) ==
      UnpackValues(fmt[1..], buf, OrderOf(if IsMark(fmt[0]) then fmt[0] == '<' else little), NextMax(fmt[0], max))
  {
  }

  /** Otherwise the vector of ones does not come back. */
  lemma {:induction false} UnmarkedFails(fmt: string, little: bool, own: bool, max: nat)
    requires 's' !in fmt && !EveryFieldMarked(fmt, little, own)
    ensures var buf := PackBytes(fmt, Ones(fmt), WriterOrder(little, own));
      Readable(fmt, buf, OrderOf(little)) && UnpackValues(fmt, buf, OrderOf(little), max) != Ones(fmt)
  {
    hide FieldWord, IntBytes, FieldValue, InRange, One;
    var c := fmt[0];
    if IsMark(c) || Width(c) == 0 {
      var little' := if IsMark(c) then c == '<' else little;
      PackSkip(fmt, Ones(fmt), little, own);
      UnmarkedFails(fmt[1..], little', own || IsMark(c), NextMax(c, max));
      UnpackSkip(fmt, PackBytes(fmt, Ones(fmt), WriterOrder(little, own)), little, max);
    } else {
      OnesField(fmt, little, own, max);
      if Width(c) > 1 && little && !own {
        UnmarkedField(c);
      } else {
        UnmarkedFails(fmt[1..], little, false, NextMax(c, max));
      }
    }
  }

  /** What a pointer to hold the argument has to hold. */
  function Stored(a: Value): Value {
    if a.Text? then Text(a.s + [0]) else a
  }

  function AllStored(args: seq<Value>): seq<Value> {
    seq(|args|, i requires 0 <= i < |args| => Stored(args[i]))
  }

  /** Whether one call of beej_unpack gives back what one call of beej_pack was given. */
  ghost predicate Recovers(fmt: string, args: seq<Value>)
    requires ArgsMatch(fmt, args)
  {
    var buf := PackBytes(fmt, args, NUL_BYT_ORD);
    Readable(fmt, buf, NUL_BYT_ORD) && UnpackValues(fmt, buf, NUL_BYT_ORD, 0) == AllStored(args)
  }

  lemma {:induction false} NoTexts(fmt: string, args: seq<Value>)
    requires 's' !in fmt && ArgsMatch(fmt, args)
    ensures AllStored(args) == args
  {
    if fmt != "" {
      if Width(fmt[0]) > 0 {
        NoTexts(fmt[1..], args[1..]);
        assert args == [args[0]] + AllStored(args[1..]);
      } else {
        NoTexts(fmt[1..], args);
      }
    }
  }

  // ---------- formats with strings ----------

  function Strings(fmt: string): nat {
    if fmt == "" then 0 else (if fmt[0] == 's' then 1 else 0) + Strings(fmt[1..])
  }

  /** The reader takes at least a length of two bytes for each string. */
  lemma {:induction false} BytesRead(fmt: string, buf: seq<byte>, bytodr: char)
    requires Readable(fmt, buf, bytodr)
    ensures |buf| >= FieldBytesTotal(fmt) + 2 * Strings(fmt)
  {
    if fmt != "" {
      var c := fmt[0];
      if IsMark(c) {
        BytesRead(fmt[1..], buf, c);
      } else if Width(c) > 0 {
        BytesRead(fmt[1..], buf[Width(c)..], bytodr);
      } else if c == 's' {
        BytesRead(fmt[1..], buf[2 + IntOf(buf[..2], bytodr)..], bytodr);
      } else {
        BytesRead(fmt[1..], buf, bytodr);
      }
    }
  }

  /** The writer takes none for an empty string. */
  lemma {:induction false} OnesSize(fmt: string, bytodr: char)
    ensures |PackBytes(fmt, Ones(fmt), bytodr)| == FieldBytesTotal(fmt)
  {
    hide FieldWord, IntBytes, One;
    if fmt != "" {
      var c := fmt[0];
      if IsMark(c) {
        OnesSize(fmt[1..], c);
      } else if Width(c) > 0 {
        OnesSize(fmt[1..], NUL_BYT_ORD);
        assert Ones(fmt)[1..] == Ones(fmt[1..]);
      } else if c == 's' {
        OnesSize(fmt[1..], bytodr);
        assert Ones(fmt)[1..] == Ones(fmt[1..]);
      } else {
        OnesSize(fmt[1..], bytodr);
      }
    }
  }

  lemma {:induction false} HasString(fmt: string)
    requires 's' in fmt
    ensures Strings(fmt) >= 1
  {
    if fmt[0] != 's' {
      HasString(fmt[1..]);
    }
  }

  /** So empty strings never come back: the reader runs past the end. */
  lemma StringsOverrun(fmt: string)
    requires 's' in fmt
    ensures !Readable(fmt, PackBytes(fmt, Ones(fmt), NUL_BYT_ORD), NUL_BYT_ORD) && !Recovers(fmt, Ones(fmt))
  {
    OnesSize(fmt, NUL_BYT_ORD);
    HasString(fmt);
    if Readable(fmt, PackBytes(fmt, Ones(fmt), NUL_BYT_ORD), NUL_BYT_ORD) {
      BytesRead(fmt, PackBytes(fmt, Ones(fmt), NUL_BYT_ORD), NUL_BYT_ORD);
    }
  }

  /** Without a mark the reader works as under '>'. */
  lemma {:induction false} NoMarkIsBig(fmt: string, buf: seq<byte>, max: nat)
    requires 's' !in fmt
    ensures Readable(fmt, buf, NUL_BYT_ORD) <==> Readable(fmt, buf, '>')
    ensures Readable(fmt, buf, '>') ==> UnpackValues(fmt, buf, NUL_BYT_ORD, max) == UnpackValues(fmt, buf, '>', max)
  {
    if fmt != "" && !IsMark(fmt[0]) && |buf| >= Width(fmt[0]) {
      NoMarkIsBig(fmt[1..], buf[Width(fmt[0])..], NextMax(fmt[0], max));
    }
  }

  /** The formats that round-trip every in-range vector are exactly the marked ones without
      strings. */
  lemma RoundTripIffMarked(fmt: string)
    ensures 's' !in fmt && EveryFieldMarked(fmt, false, false) <==>
      forall args :: ArgsMatch(fmt, args) && AllInRange(fmt, args) ==> Recovers(fmt, args)
  {
    if 's' in fmt {
      StringsOverrun(fmt);
    } else if EveryFieldMarked(fmt, false, false) {
      forall args | ArgsMatch(fmt, args) && AllInRange(fmt, args)
        ensures Recovers(fmt, args)
      {
        MarkedRecovers(fmt, args, false, false, 0);
        NoMarkIsBig(fmt, PackBytes(fmt, args, NUL_BYT_ORD), 0);
        NoTexts(fmt, args);
      }
    } else {
      UnmarkedFails(fmt, false, false, 0);
      NoMarkIsBig(fmt, PackBytes(fmt, Ones(fmt), NUL_BYT_ORD), 0);
      NoTexts(fmt, Ones(fmt));
      assert !Recovers(fmt, Ones(fmt));
    }
  }

  lemma OneWord(o: char)
    ensures IntBytes(2, 1, o) == if o == '<' then [1, 0] else [0, 1]
    ensures IntOf([1, 0], '<') == 1 && IntOf([0, 1], '<') == 0x100
  {
    LEBytes2(1);
    BigBytes(1);
    FromLE2([1, 0]);
    FromLE2([0, 1]);
  }

  lemma TwoWordsPacked()
    ensures ArgsMatch("<HH", [Num(1), Num(1)])
    ensures PackBytes("<HH", [Num(1), Num(1)], NUL_BYT_ORD) == [1, 0] + [0, 1]
  {
    hide IntBytes;
    var fmt, two, one := "<HH", [Num(1), Num(1)], [Num(1)];
    assert fmt[1..] == "HH" && "HH"[1..] == "H" && "H"[1..] == "" && two[1..] == one && one[1..] == [];
    OneWord('<');
    OneWord(NUL_BYT_ORD);
    assert PackBytes("H", one, NUL_BYT_ORD) == [0, 1] + [];
    assert PackBytes("HH", two, '<') == [1, 0] + PackBytes("H", one, NUL_BYT_ORD);
  }

  lemma TwoWordsUnpacked(x: seq<byte>, y: seq<byte>)
    requires |x| == |y| == 2
    ensures Readable("<HH", x + y, NUL_BYT_ORD)
    ensures UnpackValues("<HH", x + y, NUL_BYT_ORD, 0) == [Num(IntOf(x, '<')), Num(IntOf(y, '<'))]
  {
    hide IntOf;
    var fmt := "<HH";
    assert fmt[1..] == "HH" && "HH"[1..] == "H" && "H"[1..] == "";
    assert y + [] == y;
    UnpackField("H", y, [], '<', 0);
    UnpackField("HH", x, y, '<', 0);
  }

  /** A concrete case: two words 1 under one mark come back as 1 and 256. */
  lemma SecondFieldSwapped()
    ensures !EveryFieldMarked("<HH", false, false) && ArgsMatch("<HH", [Num(1), Num(1)])
    ensures var buf := PackBytes("<HH", [Num(1), Num(1)], NUL_BYT_ORD);
      Readable("<HH", buf, NUL_BYT_ORD) && UnpackValues("<HH", buf, NUL_BYT_ORD, 0) == [Num(1), Num(0x100)]
  {
    hide PackBytes, UnpackValues, Readable, IntOf, ArgsMatch;
    var fmt := "<HH";
    assert fmt[1..] == "HH" && "HH"[1..] == "H";
    OneWord('<');
    TwoWordsPacked();
    TwoWordsUnpacked([1, 0], [0, 1]);
  }

  // ---------- strings ----------

  /** The first or the second byte of a big-endian 16-bit length, by turns. */
  function LengthByte(n: nat, i: nat): nat {
    if i % 2 == 0 then n / 0x100 else n % 0x100
  }

  /** The first n + 2 bytes are the two bytes of the length n over and over. */
  predicate SpellsLength(b: seq<byte>, n: nat) {
    |b| >= n + 2 && forall i :: 0 <= i < n + 2 ==> b[i] == LengthByte(n, i)
  }

  lemma {:induction false} SpelledAt(b: seq<byte>, n: nat, i: nat)
    requires |b| >= n + 2 && b[0] * 0x100 as int + b[1] == n && b[2..2 + n] == b[..n] && i < n + 2
    ensures b[i] == LengthByte(n, i)
  {
    if i >= 2 {
      SpelledAt(b, n, i - 2);
      assert b[2..2 + n][i - 2] == b[..n][i - 2];
    }
  }

  lemma SpellsLengthIff(b: seq<byte>, n: nat)
    requires |b| >= n + 2
    ensures SpellsLength(b, n) <==> b[0] * 0x100 as int + b[1] == n && b[2..2 + n] == b[..n]
  {
    if SpellsLength(b, n) {
      forall i | 0 <= i < n
        ensures b[2..2 + n][i] == b[..n][i]
      {
        assert b[i + 2] == LengthByte(n, i + 2) == LengthByte(n, i) == b[i];
      }
      assert b[0] == LengthByte(n, 0) && b[1] == LengthByte(n, 1);
    } else if b[0] * 0x100 as int + b[1] == n && b[2..2 + n] == b[..n] {
      forall i | 0 <= i < n + 2
        ensures b[i] == LengthByte(n, i)
      {
        SpelledAt(b, n, i);
      }
    }
  }

  /** A string is written without its length but read with one, so it comes back exactly when
      it and the two bytes behind it are nothing but the two bytes of its length. */
  lemma StringRecoveredIff(s: seq<byte>, rest: seq<byte>)
    requires Readable("s", s + rest, NUL_BYT_ORD)
    ensures UnpackValues("s", s + rest, NUL_BYT_ORD, 0) == [Text(s + [0])] <==> SpellsLength(s + rest, |s|)
  {
    hide SpellsLength;
    var b := s + rest;
    var len := UnpackU16(b[..2], NUL_BYT_ORD);
    assert b[0] * 0x100 as int + b[1] == len;
    assert UnpackValues("s", b, NUL_BYT_ORD, 0) == [Text(b[2..2 + len] + [0])];
    Terminated(b[2..2 + len], s);
    assert b[..|s|] == s;
    if |b| >= |s| + 2 {
      SpellsLengthIff(b, |s|);
    } else {
      ShortSpells(b, |s|);
    }
  }

  lemma Terminated(x: seq<byte>, y: seq<byte>)
    ensures x + [0] == y + [0] <==> x == y
  {
    if x + [0] == y + [0] {
      assert x == (x + [0])[..|x|] && y == (y + [0])[..|y|];
    }
  }

  lemma SpellsFirst(b: seq<byte>, n: nat)
    ensures SpellsLength(b, n) ==> b[0] == n / 0x100 && b[1] == n % 0x100
  {
    assert LengthByte(n, 0) == n / 0x100 && LengthByte(n, 1) == n % 0x100;
  }

  lemma ShortSpells(b: seq<byte>, n: nat)
    requires |b| < n + 2
    ensures !SpellsLength(b, n)
  {
  }

  /** In particular no C string of 1 to 256 characters comes back. */
  lemma ShortStringLost(s: seq<byte>, rest: seq<byte>)
    requires 1 <= |s| <= 256 && (forall i :: 0 <= i < |s| ==> s[i] != 0)
    requires Readable("s", s + rest, NUL_BYT_ORD)
    ensures UnpackValues("s", s + rest, NUL_BYT_ORD, 0) != [Text(s + [0])]
  {
    StringRecoveredIff(s, rest);
    var b := s + rest;
    assert b[0] == s[0] && (|s| >= 2 ==> b[1] == s[1]);
    SpellsFirst(b, |s|);
  }

  // ---------- the maximal length of a string ----------

  /** The decimal number that digits behind the number acc spell. */
  function Decimal(ds: string, acc: nat): nat {
    if ds == "" then acc
    else if IsDigit(ds[0]) then Decimal(ds[1..], acc * 10 + (ds[0] as int - '0' as int))
    else Decimal(ds[1..], acc)
  }

  predicate AllDigits(ds: string) {
    forall c :: c in ds ==> IsDigit(c)
  }

  lemma ModStep(acc: nat, d: nat)
    ensures (acc % TWO32 * 10 + d) % TWO32 == (acc * 10 + d) % TWO32
  {
    var q, r := acc / TWO32, acc % TWO32;
    var x := r * 10 + d;
    assert acc == TWO32 * q + r && x == TWO32 * (x / TWO32) + x % TWO32;
    assert acc * 10 + d == TWO32 * (q * 10 + x / TWO32) + x % TWO32;
    DivModUnique(acc * 10 + d, TWO32, q * 10 + x / TWO32, x % TWO32);
  }

  lemma DigitSkip(c: char, fmt: string, buf: seq<byte>, bytodr: char, max: nat)
    requires IsDigit(c) && Readable(fmt, buf, bytodr)
    ensures Readable([c] + fmt, buf, bytodr)
    ensures UnpackValues([c] + fmt, buf, bytodr, max) ==
      UnpackValues(fmt, buf, bytodr, (max * 10 + (c as int - '0' as int)) % TWO32)
  {
    assert ([c] + fmt)[1..] == fmt;
  }

  /** Digits in a format only set the pending maximal length, cut to 32 bits. */
  lemma {:induction false} DigitsSkip(ds: string, fmt: string, buf: seq<byte>, bytodr: char, acc: nat)
    requires AllDigits(ds) && Readable(fmt, buf, bytodr)
    ensures Readable(ds + fmt, buf, bytodr)
    ensures UnpackValues(ds + fmt, buf, bytodr, acc % TWO32) == UnpackValues(fmt, buf, bytodr, Decimal(ds, acc) % TWO32)
    decreases |ds|
  {
    hide Readable, UnpackValues;
    if ds == "" {
      assert ds + fmt == fmt;
    } else {
      var d := ds[0] as int - '0' as int;
      assert IsDigit(ds[0]) && ds + fmt == [ds[0]] + (ds[1..] + fmt);
      DigitsSkip(ds[1..], fmt, buf, bytodr, acc * 10 + d);
      DigitSkip(ds[0], ds[1..] + fmt, buf, bytodr, acc % TWO32);
      ModStep(acc, d);
    }
  }

  /** Any other character ends the limit: a string itself uses it up, and no other field or mark
      lets it through. */
  lemma LimitEnds(fmt: string, buf: seq<byte>, bytodr: char, max: nat)
    requires fmt != "" && !('0' <= fmt[0] <= '9') && Readable(fmt, buf, bytodr)
    ensures var limited, free := UnpackValues(fmt, buf, bytodr, max), UnpackValues(fmt, buf, bytodr, 0);
      if fmt[0] == 's' then |limited| >= 1 && |free| >= 1 && limited[1..] == free[1..] else limited == free
  {
  }

  lemma OneString(buf: seq<byte>, max: nat)
    requires Readable("s", buf, NUL_BYT_ORD)
    ensures var len := buf[0] * 0x100 as int + buf[1];
      var k := if max > 0 && len > max then max - 1 else len;
      |buf| >= 2 + len && UnpackValues("s", buf, NUL_BYT_ORD, max) == [Text(buf[2..2 + k] + [0])]
  {
    var len := UnpackU16(buf[..2], NUL_BYT_ORD);
    assert "s"[1..] == "";
  }

  /** A string read with a maximal length n takes, with its terminating zero, at most n bytes
      if and only if its stored length is not n itself: then it takes n + 1. */
  lemma StringLimit(ds: string, buf: seq<byte>, n: nat)
    requires AllDigits(ds) && n == Decimal(ds, 0) && 0 < n < TWO32 && Readable("s", buf, NUL_BYT_ORD)
    ensures Readable(ds + "s", buf, NUL_BYT_ORD)
    ensures var len := buf[0] * 0x100 as int + buf[1];
      var k := if len > n then n - 1 else len;
      && |buf| >= 2 + len
      && UnpackValues(ds + "s", buf, NUL_BYT_ORD, 0) == [Text(buf[2..2 + k] + [0])]
      && (|buf[2..2 + k] + [0]| <= n <==> len != n)
  {
    assert |buf| >= 2;
    hide *;
    DigitsSkip(ds, "s", buf, NUL_BYT_ORD, 0);
    OneString(buf, n);
    LimitedSize(buf, n, buf[0] * 0x100 as int + buf[1]);
  }

  lemma LimitedSize(buf: seq<byte>, n: nat, len: nat)
    requires 0 < n < TWO32 && |buf| >= 2 + len
    ensures n % TWO32 == n && 0 % TWO32 == 0
    ensures var k := if len > n then n - 1 else len;
      |buf[2..2 + k] + [0]| <= n <==> len != n
  {
  }

  // ---------- the interpreters ----------

  lemma IntBytesOfMod(w: nat, v: int, m: nat, bytodr: char)
    requires w <= m
    ensures IntBytes(w, v % Pow256(m), bytodr) == IntBytes(w, v, bytodr)
  {
    LEOfMod(w, m, v);
  }

  method PackField(buf: array<byte>, at: nat, c: char, a: Value, bytodr: char)
    requires Width(c) > 0 && Kind(c, a) && at + Width(c) <= buf.Length
    modifies buf
    ensures buf[..] == Splice(old(buf[..]), at, IntBytes(Width(c), FieldWord(c, a), bytodr))
  {
    Pow256Values();
    var v: int;
    if IsFloat(c) {
      v := Pack754(a.f, 8 * Width(c), ExpBits(c), Extra(8 * Width(c) - ExpBits(c) - 1));
    } else {
      v := a.v;
    }
    IntBytesOfMod(Width(c), v, if Width(c) == 1 then 1 else if Width(c) == 2 then 4 else 8, bytodr);
    if Width(c) == 1 {
      OneByte(v, bytodr, '<');
      assert LE(1, v) == [v % 256];
      Put1(buf, at, v % 256);
    } else if Width(c) == 2 {
      PackI16(buf, at, v % TWO32, bytodr);
    } else if Width(c) == 4 {
      PackI32(buf, at, v % TWO64, bytodr);
    } else {
      PackI64(buf, at, v % TWO64, bytodr);
    }
  }

  /** One turn of the loop of beej_pack: `piece` is what it stored. */
  method PackStep(buf: array<byte>, at: nat, format: string, ap: seq<Value>, bytodr: char)
    returns (size: nat, ap': seq<Value>, bytodr': char, ghost piece: seq<byte>)
    requires format != "" && ArgsMatch(format, ap) && at + |PackBytes(format, ap, bytodr)| <= buf.Length
    modifies buf
    ensures size == |piece| && ArgsMatch(format[1..], ap')
    ensures PackBytes(format, ap, bytodr) == piece + PackBytes(format[1..], ap', bytodr')
    ensures buf[..] == Splice(old(buf[..]), at, piece)
  {
    size, ap', bytodr', piece := 0, ap, bytodr, [];
    SpliceEmpty(buf[..], at);
    var c := format[0];
    if IsMark(c) {
      bytodr' := c;
    } else if Width(c) > 0 {
      piece := IntBytes(Width(c), FieldWord(c, ap[0]), bytodr);
      PackField(buf, at, c, ap[0], bytodr);
      size, ap', bytodr' := Width(c), ap[1..], NUL_BYT_ORD;
    } else if c == 's' {
      piece := ap[0].s;
      Memcpy(buf, at, ap[0].s);
      size, ap' := |ap[0].s|, ap[1..];
    }
  }

  method BeejPack(buf: array<byte>, at: nat, fmt: string, args: seq<Value>) returns (size: nat)
    requires ArgsMatch(fmt, args) && at + |PackBytes(fmt, args, NUL_BYT_ORD)| <= buf.Length
    modifies buf
    ensures size == |PackBytes(fmt, args, NUL_BYT_ORD)|
    ensures buf[..] == Splice(old(buf[..]), at, PackBytes(fmt, args, NUL_BYT_ORD))
  {
    hide Splice, IntBytes, FieldWord;
    SpliceEmpty(buf[..], at);
    size := 0;
    var bytodr := NUL_BYT_ORD;
    var format, ap := fmt, args;
    ghost var all := PackBytes(fmt, args, NUL_BYT_ORD);
    ghost var done: seq<byte> := [];
    while format != ""
      invariant ArgsMatch(format, ap)
      invariant all == done + PackBytes(format, ap, bytodr)
      invariant size == |done| && buf[..] == Splice(old(buf[..]), at, done)
      decreases |format|
    {
      var n, ap', bytodr', piece := PackStep(buf, at + size, format, ap, bytodr);
      SpliceSplice(old(buf[..]), at, done, piece);
      done := done + piece;
      format, ap, bytodr, size := format[1..], ap', bytodr', size + n;
    }
    assert all == done;
  }

  lemma OneByteValue(b: seq<byte>, bytodr: char)
    requires |b| == 1
    ensures IntOf(b, bytodr) == b[0]
  {
    OneByte(0, bytodr, '<');
    assert FromLE(b) == b[0] + 256 * FromLE(b[1..]);
  }

  method UnpackOneField(c: char, b: seq<byte>, bytodr: char) returns (v: Value)
    requires Width(c) > 0 && |b| == Width(c)
    ensures v == FieldValue(c, b, bytodr)
  {
    match c {
      case 'c' => OneByteValue(b, bytodr); v := Num(UnpackI8(b[0]));
      case 'C' => OneByteValue(b, bytodr); v := Num(b[0]);
      case 'h' => v := Num(UnpackI16(b, bytodr));
      case 'H' => v := Num(UnpackU16(b, bytodr));
      case 'l' => v := Num(UnpackI32(b, bytodr));
      case 'L' => v := Num(UnpackU32(b, bytodr));
      case 'q' => v := Num(UnpackI64(b, bytodr));
      case 'Q' => v := Num(UnpackU64(b, bytodr));
      case 'f' => var fhold := UnpackU16(b, bytodr); var r := Unpack754(fhold, 16, 5); v := Flt(r);
      case 'd' => var fhold := UnpackU32(b, bytodr); var r := Unpack754(fhold, 32, 8); v := Flt(r);
      case _ => var fhold := UnpackU64(b, bytodr); var r := Unpack754(fhold, 64, 11); v := Flt(r);
    }
  }

  /** One turn of the loop of beej_unpack: `vals` is what it stored. */
  method UnpackStep(format: string, p: seq<byte>, bytodr: char, maxstrlen: nat)
    returns (vals: seq<Value>, p': seq<byte>, bytodr': char, maxstrlen': nat)
    requires format != "" && Readable(format, p, bytodr)
    ensures Readable(format[1..], p', bytodr')
    ensures UnpackValues(format, p, bytodr, maxstrlen) == vals + UnpackValues(format[1..], p', bytodr', maxstrlen')
  {
    var c := format[0];
    vals, p', bytodr', maxstrlen' := [], p, bytodr, NextMax(c, maxstrlen);
    if IsMark(c) {
      bytodr' := c;
    } else if Width(c) > 0 {
      var v := UnpackOneField(c, p[..Width(c)], bytodr);
      vals, p' := [v], p[Width(c)..];
    } else if c == 's' {
      var len := UnpackU16(p[..2], bytodr);
      var count := if maxstrlen > 0 && len > maxstrlen then maxstrlen - 1 else len;
      vals, p' := [Text(p[2..2 + count] + [0])], p[2 + len..];
    }
  }

  method BeejUnpack(buf: seq<byte>, fmt: string) returns (vals: seq<Value>)
    requires Readable(fmt, buf, NUL_BYT_ORD)
    ensures vals == UnpackValues(fmt, buf, NUL_BYT_ORD, 0)
  {
    vals := [];
    var bytodr, maxstrlen := NUL_BYT_ORD, 0;
    var format, p := fmt, buf;
    ghost var all := UnpackValues(fmt, buf, NUL_BYT_ORD, 0);
    while format != ""
      invariant Readable(format, p, bytodr)
      invariant all == vals + UnpackValues(format, p, bytodr, maxstrlen)
      decreases |format|
    {
      var vs, p', bytodr', max' := UnpackStep(format, p, bytodr, maxstrlen);
      vals, format, p, bytodr, maxstrlen := vals + vs, format[1..], p', bytodr', max';
    }
  }

  // ---------- the formats the serialisers use ----------

  lemma FormatL(v: int)
    ensures ArgsMatch("<L", [Num(v)]) && PackBytes("<L", [Num(v)], NUL_BYT_ORD) == LE(4, v)
    ensures ArgsMatch(">L", [Num(v)]) && PackBytes(">L", [Num(v)], NUL_BYT_ORD) == BE(4, v)
  {
    FormatOf("<L", '<', 'L', v);
    FormatOf(">L", '>', 'L', v);
  }

  lemma FormatQ(v: int)
    ensures ArgsMatch("<Q", [Num(v)]) && PackBytes("<Q", [Num(v)], NUL_BYT_ORD) == LE(8, v)
  {
    FormatOf("<Q", '<', 'Q', v);
  }

  lemma FormatOf(fmt: string, mark: char, c: char, v: int)
    requires fmt == [mark, c] && IsMark(mark) && Width(c) > 0 && !IsFloat(c)
    ensures ArgsMatch(fmt, [Num(v)])
    ensures PackBytes(fmt, [Num(v)], NUL_BYT_ORD) == IntBytes(Width(c), v, mark)
  {
    assert fmt[1..] == [c];
    assert PackBytes([c], [Num(v)], mark) ==
      IntBytes(Width(c), v, mark) + PackBytes([c][1..], [Num(v)][1..], NUL_BYT_ORD);
  }

  /** `beej_pack(buf, "<L", v)`. */
  method PackL(buf: array<byte>, at: nat, v: int) returns (size: nat)
    requires at + 4 <= buf.Length
    modifies buf
    ensures size == 4 && buf[..] == Splice(old(buf[..]), at, LE(4, v))
  {
    FormatL(v);
    size := BeejPack(buf, at, "<L", [Num(v)]);
  }

  /** `beej_pack(buf, ">L", v)`. */
  method PackBigL(buf: array<byte>, at: nat, v: int) returns (size: nat)
    requires at + 4 <= buf.Length
    modifies buf
    ensures size == 4 && buf[..] == Splice(old(buf[..]), at, BE(4, v))
  {
    FormatL(v);
    size := BeejPack(buf, at, ">L", [Num(v)]);
  }

  /** `beej_pack(buf, "<Q", v)`. */
  method PackQ(buf: array<byte>, at: nat, v: int) returns (size: nat)
    requires at + 8 <= buf.Length
    modifies buf
    ensures size == 8 && buf[..] == Splice(old(buf[..]), at, LE(8, v))
  {
    FormatQ(v);
    size := BeejPack(buf, at, "<Q", [Num(v)]);
  }

  /** `beej_unpack(buf, "<L", &v)`. */
  method UnpackL(buf: seq<byte>) returns (v: nat)
    requires |buf| >= 4
    ensures v == FromLE(buf[..4])
  {
    var fmt := "<L";
    assert fmt[1..] == "L" && "L"[1..] == "";
    assert Readable("L", buf, '<');
    assert UnpackValues("L", buf, '<', 0) ==
      [FieldValue('L', buf[..4], '<')] + UnpackValues("L"[1..], buf[4..], '<', 0);
    assert UnpackValues(fmt, buf, NUL_BYT_ORD, 0) == UnpackValues("L", buf, '<', 0);
    var vals := BeejUnpack(buf, fmt);
    assert vals == [Num(FromLE(buf[..4]))];
    v := vals[0].v;
  }
}
