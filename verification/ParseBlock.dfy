/** The block file reader of parse_block.c. */
module ParseBlock {
  import opened Bytes
  import opened KykUtils
  import opened Varint
  import opened BeejPack
  import opened Block
  import opened Files

  class Blk {
    var magicNo: nat
    var blkSize: nat
    var hd: BlkHeader
    /** Eight bytes; the struct starts with whatever its memory held. */
    var txCount: nat

    constructor (hd: BlkHeader, garbage: nat)
      ensures txCount == garbage
    {
      magicNo, blkSize, this.hd, txCount := 0, 0, hd, garbage;
    }
  }

  // ---------- the transaction count ----------

  /** An integer after its low w bytes were overwritten with v. */
  function StoreLow(cell: nat, w: nat, v: nat): nat {
    RemainderAtMost(cell, Pow256(w));
    cell - cell % Pow256(w) + v
  }

  lemma RemainderAtMost(cell: nat, p: nat)
    requires p >= 1
    ensures cell % p <= cell
  {
    if cell < p {
      DivModUnique(cell, p, 0, cell);
    }
  }

  /** Bytes of an `unsigned long`. */
  type LongSize = n: nat | n == 4 || n == 8 witness 4

  /** Bytes of the field that the last store overwrites, by the size of the encoding: the
      byte read, or an `unsigned int`, `unsigned long` or `unsigned long long`. */
  function StoreWidth(n: nat, lng: LongSize): nat {
    if n == 1 then 1 else if n == 3 then 4 else if n == 5 then lng else 8
  }

  function CellWidth(v: nat, lng: LongSize): nat {
    StoreWidth(|PackVarint(v)|, lng)
  }

  /** The field after kyk_varint_fread read from `buf`. */
  function VarintCell(cell: nat, buf: seq<byte>, lng: LongSize): nat
    requires |buf| >= 1 && |buf| >= VarintSize(buf[0])
  {
    var (v, n) := UnpackVarint(buf);
    StoreLow(cell, StoreWidth(n, lng), v)
  }

  /** In numbers, what the field holds after an encoded count was read over `cell`: the byte of
      a short one over the lowest byte, the two of the next over the lowest four, the four of
      the next over the lowest four or eight as a long has, and the eight over all. */
  predicate CountStored(cell: nat, cell': nat, buf: seq<byte>, lng: LongSize)
    requires |buf| >= 1 && |buf| >= VarintSize(buf[0])
  {
    var m := if buf[0] < 0xfd then 0x100 else if buf[0] == 0xfd then 0x1_0000_0000
      else if buf[0] == 0xfe && lng == 4 then 0x1_0000_0000 else 0x1_0000_0000_0000_0000;
    && cell' / m == cell / m
    && cell' % m == if buf[0] < 0xfd then buf[0] else if buf[0] == 0xfd then FromLE(buf[1..3])
         else if buf[0] == 0xfe then FromLE(buf[1..5]) else FromLE(buf[1..9])
  }

  lemma StoreLowIs(cell: nat, w: nat, v: nat)
    requires v < Pow256(w)
    ensures StoreLow(cell, w, v) / Pow256(w) == cell / Pow256(w) && StoreLow(cell, w, v) % Pow256(w) == v
  {
    var p := Pow256(w);
    assert cell == p * (cell / p) + cell % p;
    DivModUnique(StoreLow(cell, w, v), p, cell / p, v);
  }

  lemma VarintCellStores(cell: nat, buf: seq<byte>, lng: LongSize)
    requires |buf| >= 1 && |buf| >= VarintSize(buf[0])
    ensures CountStored(cell, VarintCell(cell, buf, lng), buf, lng)
  {
    hide StoreLow, FromLE;
    UnpackIsLE(buf);
    var (v, n) := UnpackVarint(buf);
    Pow256Values();
    if n > 1 {
      LEofFromLE(buf[1..n]);
      WidthEnough(n, lng);
    }
    StoreLowIs(cell, StoreWidth(n, lng), v);
  }

  lemma WidthEnough(n: nat, lng: LongSize)
    requires n == 3 || n == 5 || n == 9
    ensures Pow256(n - 1) <= Pow256(StoreWidth(n, lng))
  {
    Pow256Values();
  }

  /** A concrete case: a count of 300 read over 70000 is right. */
  lemma CountOverOld(lng: LongSize)
    ensures VarintCell(70000, [0xfd, 0x2c, 0x01], lng) == 300
  {
    Pow256Values();
  }

  lemma VarintCellOfPack(cell: nat, v: nat, rest: seq<byte>, lng: LongSize)
    requires v < TWO64
    ensures var s := PackVarint(v) + rest;
      |s| >= VarintSize(s[0]) && VarintCell(cell, s, lng) == StoreLow(cell, CellWidth(v, lng), v)
  {
    hide StoreLow, UnpackVarint;
    VarintRoundTrip(v, rest);
  }

  /** The old high bytes stay: the count is right exactly when they were zero. */
  lemma StoreLowRightIff(cell: nat, w: nat, v: nat)
    ensures StoreLow(cell, w, v) == v <==> cell < Pow256(w)
  {
    if cell < Pow256(w) {
      DivModUnique(cell, Pow256(w), 0, cell);
    }
  }

  // ---------- records ----------

  /** A block in the file: its header, its transaction count and the bytes behind it. */
  datatype Record = Record(magicNo: nat, hd: Header, txCount: nat, txs: seq<byte>)

  function BodySize(r: Record): nat {
    KYK_BLK_HD_LEN + |PackVarint(r.txCount)| + |r.txs|
  }

  predicate ValidRecord(r: Record) {
    r.magicNo < TWO32 && ValidHeader(r.hd) && r.txCount < TWO64 && BodySize(r) < TWO32
  }

  function RecordBytes(r: Record): seq<byte> {
    LE(4, r.magicNo) + LE(4, BodySize(r)) + SeriHd(r.hd) + PackVarint(r.txCount) + r.txs
  }

  function RecordsBytes(rs: seq<Record>): seq<byte> {
    if rs == [] then [] else RecordBytes(rs[0]) + RecordsBytes(rs[1..])
  }

  lemma SubSlice<T>(data: seq<T>, p: nat, n: nat, i: nat, j: nat)
    requires p + n <= |data| && i <= j <= n
    ensures data[p + i..p + j] == data[p..p + n][i..j]
  {
    var a, b := data[p + i..p + j], data[p..p + n][i..j];
    assert forall k :: 0 <= k < |a| ==> a[k] == data[p + i + k] == b[k];
    assert a == b;
  }

  /** The slices of a record that stands at p. */
  lemma RecordSlices(r: Record, data: seq<byte>, p: nat)
    requires ValidRecord(r) && p + |RecordBytes(r)| <= |data| && data[p..p + |RecordBytes(r)|] == RecordBytes(r)
    ensures |RecordBytes(r)| == 8 + BodySize(r)
    ensures data[p..p + 4] == LE(4, r.magicNo) && data[p + 4..p + 8] == LE(4, BodySize(r))
    ensures data[p + 8..p + 88] == SeriHd(r.hd)
    ensures data[p + 88..] == PackVarint(r.txCount) + (r.txs + data[p + |RecordBytes(r)|..])
  {
    hide LE, SeriHd, PackVarint;
    var b, n := RecordBytes(r), |RecordBytes(r)|;
    var v := PackVarint(r.txCount);
    assert b[..4] == LE(4, r.magicNo) && b[4..8] == LE(4, BodySize(r)) && b[8..88] == SeriHd(r.hd);
    assert b[88..] == v + r.txs;
    var d := data[p..p + n];
    SubSlice(data, p, n, 0, 4);
    SubSlice(data, p, n, 4, 8);
    SubSlice(data, p, n, 8, 88);
    assert data[p + 88..] == d[88..] + data[p + n..];
    Assoc(v, r.txs, data[p + n..]);
    assert data[p + 88..] == v + (r.txs + data[p + n..]);
  }

  // ---------- the reader ----------

  lemma CountInFile(cell: nat, data: seq<byte>, p: nat, lng: LongSize)
    requires p < |data| && p + VarintSize(data[p]) <= |data|
    ensures var fd, cell' := data[p], VarintCell(cell, data[p..], lng);
      && (fd < 0xfd ==> cell' / 0x100 == cell / 0x100 && cell' % 0x100 == fd)
      && (fd == 0xfd ==>
        cell' / 0x1_0000_0000 == cell / 0x1_0000_0000 && cell' % 0x1_0000_0000 == FromLE(data[p + 1..p + 3]))
      && (fd == 0xfe && lng == 4 ==>
        cell' / 0x1_0000_0000 == cell / 0x1_0000_0000 && cell' % 0x1_0000_0000 == FromLE(data[p + 1..p + 5]))
      && (fd == 0xfe && lng == 8 && cell < 0x1_0000_0000_0000_0000 ==> cell' == FromLE(data[p + 1..p + 5]))
      && (fd == 0xff && cell < 0x1_0000_0000_0000_0000 ==> cell' == FromLE(data[p + 1..p + 9]))
  {
    hide VarintCell, FromLE;
    var buf := data[p..];
    VarintCellStores(cell, buf, lng);
    var n := VarintSize(data[p]);
    assert data[p + 1..p + n] == buf[1..n];
  }

  method KykVarintFread(cell: nat, fp: File, lng: LongSize) returns (cell': nat, len: nat)
    requires fp.pos < |fp.data| && fp.pos + VarintSize(fp.data[fp.pos]) <= |fp.data|
    modifies fp
    ensures len == VarintSize(fp.data[old(fp.pos)]) && fp.pos == old(fp.pos) + len
    ensures cell' == VarintCell(cell, fp.data[old(fp.pos)..], lng)
    ensures var p, fd := old(fp.pos), fp.data[old(fp.pos)];
      && (fd < 0xfd ==> cell' / 0x100 == cell / 0x100 && cell' % 0x100 == fd)
      && (fd == 0xfd ==>
        cell' / 0x1_0000_0000 == cell / 0x1_0000_0000 && cell' % 0x1_0000_0000 == FromLE(fp.data[p + 1..p + 3]))
      && (fd == 0xfe && lng == 4 ==>
        cell' / 0x1_0000_0000 == cell / 0x1_0000_0000 && cell' % 0x1_0000_0000 == FromLE(fp.data[p + 1..p + 5]))
      && (fd == 0xfe && lng == 8 && cell < 0x1_0000_0000_0000_0000 ==> cell' == FromLE(fp.data[p + 1..p + 5]))
      && (fd == 0xff && cell < 0x1_0000_0000_0000_0000 ==> cell' == FromLE(fp.data[p + 1..p + 9]))
  {
    ghost var buf := fp.data[fp.pos..];
    UnpackIsLE(buf);
    VarintCellStores(cell, buf, lng);
    CountInFile(cell, fp.data, fp.pos, lng);
    var b := fp.Fread(1);
    var fd := b[0];
    cell' := StoreLow(cell, 1, fd);
    len := 1;
    if fd < 0xfd {
    } else if fd == 0xfd {
      var w := fp.Fread(2);
      assert w == buf[1..3];
      StoreTwice(cell, 1, fd, 2, FromLE(w));
      cell' := StoreLow(cell', 2, FromLE(w));
      StoreTwice(cell, 2, FromLE(w), 4, FromLE(w));
      cell' := StoreLow(cell', 4, FromLE(w));
      len := len + 2;
    } else if fd == 0xfe {
      var w := fp.Fread(4);
      assert w == buf[1..5];
      StoreTwice(cell, 1, fd, 4, FromLE(w));
      cell' := StoreLow(cell', 4, FromLE(w));
      StoreTwice(cell, 4, FromLE(w), lng, FromLE(w));
      cell' := StoreLow(cell', lng, FromLE(w));
      len := len + 4;
    } else {
      var w := fp.Fread(8);
      assert w == buf[1..9];
      StoreTwice(cell, 1, fd, 8, FromLE(w));
      cell' := StoreLow(cell', 8, FromLE(w));
      len := len + 8;
    }
  }

  lemma LessRemainder(x: nat, p: nat)
    requires p >= 1
    ensures x - x % p == p * (x / p)
  {
  }

  /** A wider store hides a narrower one before it. */
  lemma StoreTwice(cell: nat, w: nat, v: nat, w': nat, u: nat)
    requires w <= w' && v < Pow256(w)
    ensures StoreLow(StoreLow(cell, w, v), w', u) == StoreLow(cell, w', u)
  {
    SameHigh(cell, w, v, w');
    LessRemainder(cell, Pow256(w'));
    LessRemainder(StoreLow(cell, w, v), Pow256(w'));
  }

  lemma {:induction false} SameHigh(cell: nat, w: nat, v: nat, w': nat)
    requires w <= w' && v < Pow256(w)
    ensures StoreLow(cell, w, v) / Pow256(w') == cell / Pow256(w')
    decreases w' - w
  {
    var p, q := Pow256(w), cell / Pow256(w);
    var x := StoreLow(cell, w, v);
    assert cell == p * q + cell % p;
    DivModUnique(x, p, q, v);
    if w < w' {
      Pow256Split(w, w');
      DivByProduct(x, p, Pow256(w' - w));
      DivByProduct(cell, p, Pow256(w' - w));
    }
  }

  lemma Times256(a: nat, b: nat)
    ensures 256 * (a * b) == (256 * a) * b
  {
  }

  lemma {:induction false} Pow256Split(w: nat, w': nat)
    requires w <= w'
    ensures Pow256(w') == Pow256(w) * Pow256(w' - w)
  {
    if w > 0 {
      Pow256Split(w - 1, w' - 1);
      Times256(Pow256(w - 1), Pow256(w' - w));
    }
  }

  lemma NestedBound(p: nat, q: nat, s: nat, t: nat)
    requires s < q && t < p
    ensures p * s + t < p * q
  {
    MulAtLeast(p, q - s);
    assert p * (q - s) == p * q - p * s;
  }

  lemma NestedQuotient(x: nat, p: nat, q: nat, b: nat, s: nat, t: nat)
    requires p >= 1 && q >= 1 && s < q && t < p && x == p * (q * b + s) + t
    ensures x / (p * q) == b
  {
    NestedBound(p, q, s, t);
    assert p * (q * b + s) == (p * q) * b + p * s;
    DivModUnique(x, p * q, b, p * s + t);
  }

  lemma DivByProduct(x: nat, p: nat, q: nat)
    requires p >= 1 && q >= 1
    ensures x / (p * q) == x / p / q
  {
    var a := x / p;
    NestedQuotient(x, p, q, a / q, a % q, x % p);
  }

  method KykParseBlkHeader(fp: File) returns (hd: BlkHeader)
    requires fp.pos + KYK_BLK_HD_LEN <= |fp.data|
    modifies fp
    ensures fp.pos == old(fp.pos) + KYK_BLK_HD_LEN && fresh(hd)
    ensures hd.Value() == ParseHd(fp.data[old(fp.pos)..fp.pos])
  {
    hide Reverse, FromLE;
    ghost var b := fp.data[fp.pos..fp.pos + KYK_BLK_HD_LEN];
    var version := FreadL(fp);
    assert fp.data[old(fp.pos)..old(fp.pos) + 4] == b[..4];
    var pre := FreadReversed(fp);
    assert fp.data[old(fp.pos) + 4..old(fp.pos) + 36] == b[4..36];
    var mrk := FreadReversed(fp);
    assert fp.data[old(fp.pos) + 36..old(fp.pos) + 68] == b[36..68];
    var tts := FreadL(fp);
    assert fp.data[old(fp.pos) + 68..old(fp.pos) + 72] == b[68..72];
    var bts := FreadL(fp);
    assert fp.data[old(fp.pos) + 72..old(fp.pos) + 76] == b[72..76];
    var nonce := FreadL(fp);
    assert fp.data[old(fp.pos) + 76..old(fp.pos) + 80] == b[76..];
    hd := new BlkHeader(Header(version, pre, mrk, tts, bts, nonce));
  }

  /** `kyk_fread` of four bytes with the format "<L". */
  method FreadL(fp: File) returns (v: nat)
    requires fp.pos + 4 <= |fp.data|
    modifies fp
    ensures fp.pos == old(fp.pos) + 4 && v == FromLE(fp.data[old(fp.pos)..fp.pos])
  {
    var b := fp.Fread(4);
    v := UnpackL(b);
    assert b[..4] == b;
  }

  /** Thirty-two bytes, turned around in place. */
  method FreadReversed(fp: File) returns (d: Digest)
    requires fp.pos + 32 <= |fp.data|
    modifies fp
    ensures fp.pos == old(fp.pos) + 32 && d == Reverse(fp.data[old(fp.pos)..fp.pos])
  {
    var b := fp.Fread(32);
    var a := new byte[32];
    Memcpy(a, 0, b);
    assert a[..] == b && a[0..0 + 32] == b;
    KykReverse(a, 0, 32);
    assert a[..] == Reverse(b);
    d := a[..];
  }

  /** Reads one block and skips its transactions: wherever the record ends according to its
      size field, the cursor stands there. */
  method KykParseBlk(blk: Blk, fp: File, lng: LongSize)
    requires fp.pos + 88 < |fp.data| && fp.pos + 88 + VarintSize(fp.data[fp.pos + 88]) <= |fp.data|
    modifies blk, fp
    ensures var p := old(fp.pos);
      && blk.magicNo == FromLE(fp.data[p..p + 4]) && blk.blkSize == FromLE(fp.data[p + 4..p + 8])
      && fresh(blk.hd) && blk.hd.Value() == ParseHd(fp.data[p + 8..p + 88])
      && blk.txCount == VarintCell(old(blk.txCount), fp.data[p + 88..], lng)
      && CountStored(old(blk.txCount), blk.txCount, fp.data[p + 88..], lng)
      && fp.pos == p + 8 + blk.blkSize
  {
    hide Reverse, FromLE, ParseHd, VarintCell, CountStored;
    var len := 80;
    VarintCellStores(blk.txCount, fp.data[fp.pos + 88..], lng);
    blk.magicNo := FreadL(fp);
    blk.blkSize := FreadL(fp);
    blk.hd := KykParseBlkHeader(fp);
    var cell, n := KykVarintFread(blk.txCount, fp, lng);
    blk.txCount := cell;
    len := len + n;
    fp.Fseek(blk.blkSize - len);
  }

  // ---------- a file of records ----------

  /** What the reader reports for a record. */
  datatype Report = Report(magicNo: nat, hd: Header, txCount: nat)

  /** The reports for a list of records read into one struct whose count field starts as
      `cell`: everything as written, except for the stale bytes of the counts. */
  function Reports(cell: nat, rs: seq<Record>, lng: LongSize): seq<Report>
    decreases |rs|
  {
    if rs == [] then []
    else
      var c := StoreLow(cell, CellWidth(rs[0].txCount, lng), rs[0].txCount);
      [Report(rs[0].magicNo, rs[0].hd, c)] + Reports(c, rs[1..], lng)
  }

  /** What the field has to be below for a count to come out right, in numbers. */
  function CountBound(v: nat, lng: LongSize): nat {
    if v < 0xfd then 0x100
    else if v <= 0xffff then 0x1_0000_0000
    else if v <= 0xffff_ffff && lng == 4 then 0x1_0000_0000
    else 0x1_0000_0000_0000_0000
  }

  lemma CountBoundIs(v: nat, lng: LongSize)
    ensures CountBound(v, lng) == Pow256(CellWidth(v, lng))
  {
    Pow256Values();
  }

  /** No count is narrower than what the field held before it. */
  predicate CountsFit(cell: nat, rs: seq<Record>, lng: LongSize)
    decreases |rs|
  {
    rs == [] || (cell < CountBound(rs[0].txCount, lng) && CountsFit(rs[0].txCount, rs[1..], lng))
  }

  /** All counts come back exactly when none of them is narrower than its predecessor's
      value, the first included. */
  lemma {:induction false} CountsRightIff(cell: nat, rs: seq<Record>, lng: LongSize)
    ensures |Reports(cell, rs, lng)| == |rs|
    ensures forall i :: 0 <= i < |rs| ==>
      Reports(cell, rs, lng)[i].magicNo == rs[i].magicNo && Reports(cell, rs, lng)[i].hd == rs[i].hd
    ensures (forall i :: 0 <= i < |rs| ==> Reports(cell, rs, lng)[i].txCount == rs[i].txCount)
      <==> CountsFit(cell, rs, lng)
    decreases |rs|
  {
    if rs != [] {
      hide StoreLow, CellWidth, CountBound;
      var c, v := StoreLow(cell, CellWidth(rs[0].txCount, lng), rs[0].txCount), rs[0].txCount;
      CountBoundIs(v, lng);
      StoreLowRightIff(cell, CellWidth(v, lng), v);
      CountsRightIff(c, rs[1..], lng);
      var all, tail := Reports(cell, rs, lng), Reports(c, rs[1..], lng);
      assert all == [Report(rs[0].magicNo, rs[0].hd, c)] + tail;
      assert all[0].txCount == c && forall i :: 0 < i < |rs| ==> all[i] == tail[i - 1];
      assert forall i :: 0 < i < |rs| ==> rs[i] == rs[1..][i - 1];
      if c == v && CountsFit(cell, rs, lng) {
        assert forall i :: 0 < i < |rs| ==> all[i].txCount == rs[i].txCount;
      } else if c == v {
        var i :| 0 <= i < |rs[1..]| && tail[i].txCount != rs[1..][i].txCount;
        assert all[i + 1].txCount != rs[i + 1].txCount;
      }
    }
  }

  lemma {:induction false} RecordsSplit(rs: seq<Record>, i: nat)
    requires i < |rs|
    ensures RecordsBytes(rs) == RecordsBytes(rs[..i]) + RecordBytes(rs[i]) + RecordsBytes(rs[i + 1..])
    ensures RecordsBytes(rs[..i + 1]) == RecordsBytes(rs[..i]) + RecordBytes(rs[i])
  {
    hide RecordBytes;
    if i == 0 {
      assert rs[..0] == [] && rs[..1] == [rs[0]] && [rs[0]][1..] == [];
    } else {
      RecordsSplit(rs[1..], i - 1);
      assert rs[..i][1..] == rs[1..][..i - 1] && rs[..i + 1][1..] == rs[1..][..i];
      assert rs[1..][i - 1 + 1..] == rs[i + 1..];
    }
  }

  lemma {:induction false} ReportsSnoc(cell: nat, rs: seq<Record>, r: Record, lng: LongSize)
    ensures |Reports(cell, rs, lng)| == |rs|
    ensures var last := if rs == [] then cell else Reports(cell, rs, lng)[|rs| - 1].txCount;
      Reports(cell, rs + [r], lng) ==
        Reports(cell, rs, lng) + [Report(r.magicNo, r.hd, StoreLow(last, CellWidth(r.txCount, lng), r.txCount))]
    decreases |rs|
  {
    hide StoreLow, CellWidth;
    if rs == [] {
      assert [] + [r] == [r] && [r][1..] == [];
    } else {
      var c := StoreLow(cell, CellWidth(rs[0].txCount, lng), rs[0].txCount);
      assert (rs + [r])[1..] == rs[1..] + [r];
      ReportsSnoc(c, rs[1..], r, lng);
    }
  }

  /** One call on the record that stands at the cursor. */
  method ParseRecord(blk: Blk, fp: File, lng: LongSize, ghost r: Record) returns (report: Report)
    requires ValidRecord(r) && fp.pos + |RecordBytes(r)| <= |fp.data|
    requires fp.data[fp.pos..fp.pos + |RecordBytes(r)|] == RecordBytes(r)
    modifies blk, fp
    ensures fp.pos == old(fp.pos) + |RecordBytes(r)|
    ensures report == Report(r.magicNo, r.hd, StoreLow(old(blk.txCount), CellWidth(r.txCount, lng), r.txCount))
    ensures blk.txCount == report.txCount
  {
    hide RecordBytes, FromLE, LE, StoreLow, VarintCell, ParseHd, SeriHd;
    Pow256Values();
    RecordSlices(r, fp.data, fp.pos);
    ghost var rest := r.txs + fp.data[fp.pos + |RecordBytes(r)|..];
    VarintCellOfPack(blk.txCount, r.txCount, rest, lng);
    FromLEofLESmall(4, r.magicNo);
    FromLEofLESmall(4, BodySize(r));
    ParseOfSeri(r.hd);
    assert fp.data[fp.pos + 88] == fp.data[fp.pos + 88..][0];
    KykParseBlk(blk, fp, lng);
    report := Report(blk.magicNo, blk.hd.Value(), blk.txCount);
  }

  /** Reads k blocks into one struct: after each call the cursor stands on a record
      boundary, and every header is the one that was written. */
  method ParseBlks(blk: Blk, fp: File, k: nat, lng: LongSize, ghost rs: seq<Record>, ghost trailer: seq<byte>)
    returns (reports: seq<Report>)
    requires fp.pos == 0 && fp.data == RecordsBytes(rs) + trailer && k <= |rs|
    requires forall i :: 0 <= i < |rs| ==> ValidRecord(rs[i])
    modifies blk, fp
    ensures fp.pos == |RecordsBytes(rs[..k])|
    ensures reports == Reports(old(blk.txCount), rs[..k], lng)
  {
    hide RecordBytes, RecordsBytes, Reports, StoreLow, ValidRecord;
    reports := [];
    assert rs[..0] == [];
    NoReports(blk.txCount, lng);
    for i := 0 to k
      invariant fp.pos == |RecordsBytes(rs[..i])|
      invariant reports == Reports(old(blk.txCount), rs[..i], lng) && |reports| == i
      invariant blk.txCount == if i == 0 then old(blk.txCount) else reports[i - 1].txCount
    {
      RecordStands(rs, i, trailer);
      var report := ParseRecord(blk, fp, lng, rs[i]);
      RecordsSplit(rs, i);
      ReportsSnoc(old(blk.txCount), rs[..i], rs[i], lng);
      assert rs[..i + 1] == rs[..i] + [rs[i]];
      reports := reports + [report];
    }
  }

  lemma NoReports(cell: nat, lng: LongSize)
    ensures Reports(cell, [], lng) == [] && RecordsBytes([]) == []
  {
  }

  lemma RecordStands(rs: seq<Record>, i: nat, trailer: seq<byte>)
    requires i < |rs|
    ensures var data, p := RecordsBytes(rs) + trailer, |RecordsBytes(rs[..i])|;
      p + |RecordBytes(rs[i])| <= |data| && data[p..p + |RecordBytes(rs[i])|] == RecordBytes(rs[i])
  {
    hide RecordBytes, RecordsBytes;
    RecordsSplit(rs, i);
    var a, b, c := RecordsBytes(rs[..i]), RecordBytes(rs[i]), RecordsBytes(rs[i + 1..]);
    assert (a + b + c + trailer)[|a|..|a| + |b|] == b;
  }

  /** A concrete case: after a block with 300 transactions, a count of 5 is read as 261. */
  lemma StaleCount(lng: LongSize)
    ensures StoreLow(StoreLow(0, CellWidth(300, lng), 300), CellWidth(5, lng), 5) == 261
  {
    Pow256Values();
  }
}
