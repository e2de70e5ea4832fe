/** The column-by-column serialiser of kyk_ser.c and its agreement with kyk_tx.c. */
module Ser {
  import opened Bytes
  import opened KykUtils
  import opened Varint
  import opened BeejPack
  import opened Tx

  /** The column names that kyk_valist_ser knows, and every other name. */
  datatype Col =
    | VersionNo | InCounter | PreTxHash | PreTxHashHex | PreTxoutInx | TxinScLen
    | TxinScSig | TxinScSigHex | SeqNo | OutCounter | TxoutScLen | TxoutScPubkeyHex
    | TxoutValue | LockTime | MagicNo | BlockSize | TxCount | RawBuf
    | Other(name: string)

  /** The variadic arguments of one call. */
  datatype Arg = Int(v: nat) | Raw(b: seq<byte>) | Hex(h: string)

  datatype Entry = Entry(col: Col, arg: Arg)

  /** The argument has the type the column takes. */
  predicate Fits(e: Entry) {
    match e.col {
      case PreTxHash => e.arg.Raw?
      case TxinScSig => e.arg.Raw?
      case RawBuf => e.arg.Raw?
      case PreTxHashHex => e.arg.Hex?
      case TxinScSigHex => e.arg.Hex?
      case TxoutScPubkeyHex => e.arg.Hex?
      case Other(_) => true
      case _ => e.arg.Int? && e.arg.v < TWO64
    }
  }

  /** The bytes one column adds; an unknown column adds none. */
  function ColBytes(e: Entry): seq<byte>
    requires Fits(e)
  {
    match e.col {
      case VersionNo => LE(4, e.arg.v)
      case InCounter => PackVarint(e.arg.v)
      case PreTxHash => e.arg.b
      case PreTxHashHex => FromHex(e.arg.h)
      case PreTxoutInx => LE(4, e.arg.v)
      case TxinScLen => PackVarint(e.arg.v)
      case TxinScSig => e.arg.b
      case TxinScSigHex => FromHex(e.arg.h)
      case SeqNo => BE(4, e.arg.v)
      case OutCounter => PackVarint(e.arg.v)
      case TxoutScLen => PackVarint(e.arg.v)
      case TxoutScPubkeyHex => FromHex(e.arg.h)
      case TxoutValue => LE(8, e.arg.v)
      case LockTime => LE(4, e.arg.v)
      case MagicNo => LE(4, e.arg.v)
      case BlockSize => LE(4, e.arg.v)
      case TxCount => PackVarint(e.arg.v)
      case RawBuf => e.arg.b
      case Other(_) => []
    }
  }

  /** The columns byte by byte: 32-bit numbers lowest byte first, the sequence number highest
      byte first, and the value in eight bytes; counters and lengths as varints; bytes as they
      are, and hexadecimal text as the bytes it stands for. */
  lemma ColumnBytes(v: nat, b: seq<byte>, h: string)
    requires v < TWO64
    ensures forall c :: c in {VersionNo, PreTxoutInx, LockTime, MagicNo, BlockSize} ==>
      ColBytes(Entry(c, Int(v))) == [v % 256, v / 0x100 % 256, v / 0x1_0000 % 256, v / 0x100_0000 % 256]
    ensures ColBytes(Entry(SeqNo, Int(v))) ==
      [v / 0x100_0000 % 256, v / 0x1_0000 % 256, v / 0x100 % 256, v % 256]
    ensures ColBytes(Entry(TxoutValue, Int(v))) ==
      [v % 256, v / 0x100 % 256, v / 0x1_0000 % 256, v / 0x100_0000 % 256,
       v / 0x1_0000_0000 % 256, v / 0x100_0000_0000 % 256,
       v / 0x1_0000_0000_0000 % 256, v / 0x100_0000_0000_0000 % 256]
    ensures forall c :: c in {InCounter, TxinScLen, OutCounter, TxoutScLen, TxCount} ==>
      ColBytes(Entry(c, Int(v))) == PackVarint(v)
    ensures forall c :: c in {PreTxHash, TxinScSig, RawBuf} ==> ColBytes(Entry(c, Raw(b))) == b
    ensures forall c :: c in {PreTxHashHex, TxinScSigHex, TxoutScPubkeyHex} ==>
      ColBytes(Entry(c, Hex(h))) == FromHex(h)
  {
    hide LE, PackVarint, FromHex;
    LEBytes4(v);
    LEBytes8(v);
    assert BE(4, v) == [v / 0x100_0000 % 256, v / 0x1_0000 % 256, v / 0x100 % 256, v % 256];
  }

  predicate AllFit(es: seq<Entry>) {
    forall i :: 0 <= i < |es| ==> Fits(es[i])
  }

  function ColsBytes(es: seq<Entry>): seq<byte>
    requires AllFit(es)
  {
    if es == [] then [] else ColBytes(es[0]) + ColsBytes(es[1..])
  }

  lemma {:induction false} ColsBytesAppend(xs: seq<Entry>, ys: seq<Entry>)
    requires AllFit(xs) && AllFit(ys)
    ensures AllFit(xs + ys) && ColsBytes(xs + ys) == ColsBytes(xs) + ColsBytes(ys)
  {
    hide ColBytes, Fits;
    if xs == [] {
      assert xs + ys == ys;
    } else {
      assert (xs + ys)[1..] == xs[1..] + ys;
      ColsBytesAppend(xs[1..], ys);
    }
  }

  // ---------- the columns of a transaction ----------

  /** The value that has the bytes of the 32-bit v in the opposite order. */
  function Swap32(v: nat): (r: nat)
    ensures r < TWO32
  {
    Pow256Values();
    LEofFromLE(BE(4, v));
    FromLE(BE(4, v))
  }

  /** `feed` is what the caller passes for a sequence number. */
  function InEntries(t: TxIn, feed: nat -> nat): seq<Entry> {
    [Entry(PreTxHash, Raw(Reverse(t.preTxid))), Entry(PreTxoutInx, Int(t.preTxInx)),
     Entry(TxinScLen, Int(|t.sc|)), Entry(TxinScSig, Raw(t.sc)), Entry(SeqNo, Int(feed(t.seqNo) % TWO32))]
  }

  function OutEntries(t: TxOut): seq<Entry> {
    [Entry(TxoutValue, Int(t.value)), Entry(TxoutScLen, Int(|t.sc|)), Entry(TxoutScPubkeyHex, Hex(ToHex(t.sc)))]
  }

  function InListEntries(ts: seq<TxIn>, feed: nat -> nat): seq<Entry> {
    if ts == [] then [] else InEntries(ts[0], feed) + InListEntries(ts[1..], feed)
  }

  function OutListEntries(ts: seq<TxOut>): seq<Entry> {
    if ts == [] then [] else OutEntries(ts[0]) + OutListEntries(ts[1..])
  }

  function TxEntries(tx: Tx, feed: nat -> nat): seq<Entry> {
    [Entry(VersionNo, Int(tx.version)), Entry(InCounter, Int(|tx.txin|))] + InListEntries(tx.txin, feed)
    + [Entry(OutCounter, Int(|tx.txout|))] + OutListEntries(tx.txout) + [Entry(LockTime, Int(tx.lockTime))]
  }

  // ---------- agreement with kyk_seri_tx ----------

  /** Everything of an input up to its sequence number. */
  function InHead(t: TxIn): seq<byte> {
    Reverse(t.preTxid) + LE(4, t.preTxInx) + PackVarint(|t.sc|) + t.sc
  }

  lemma ColsBytes1(e: Entry)
    requires Fits(e)
    ensures ColsBytes([e]) == ColBytes(e)
  {
    assert [e][1..] == [];
  }

  lemma ColsBytesCons(e: Entry, es: seq<Entry>)
    requires Fits(e) && AllFit(es)
    ensures AllFit([e] + es) && ColsBytes([e] + es) == ColBytes(e) + ColsBytes(es)
  {
    ColsBytesAppend([e], es);
    ColsBytes1(e);
  }

  lemma InColumns(t: TxIn, feed: nat -> nat)
    requires ValidIn(t)
    ensures AllFit(InEntries(t, feed))
    ensures ColsBytes(InEntries(t, feed)) == InHead(t) + BE(4, feed(t.seqNo) % TWO32)
    ensures SeriTxIn(t) == InHead(t) + LE(4, t.seqNo)
  {
    var es := InEntries(t, feed);
    hide LE, BE, PackVarint, Reverse, ColsBytes;
    ColsBytes1(es[4]);
    ColsBytesCons(es[3], [es[4]]);
    ColsBytesCons(es[2], [es[3]] + [es[4]]);
    ColsBytesCons(es[1], [es[2]] + ([es[3]] + [es[4]]));
    ColsBytesCons(es[0], [es[1]] + ([es[2]] + ([es[3]] + [es[4]])));
    assert es == [es[0]] + ([es[1]] + ([es[2]] + ([es[3]] + [es[4]])));
  }

  lemma OutColumns(t: TxOut)
    requires ValidOut(t)
    ensures AllFit(OutEntries(t)) && ColsBytes(OutEntries(t)) == SeriTxOut(t)
  {
    var es := OutEntries(t);
    FromHexOfToHex(t.sc);
    hide LE, PackVarint, ColsBytes, ToHex, FromHex;
    ColsBytes1(es[2]);
    ColsBytesCons(es[1], [es[2]]);
    ColsBytesCons(es[0], [es[1]] + [es[2]]);
    assert es == [es[0]] + ([es[1]] + [es[2]]);
  }

  lemma {:induction false} OutListColumns(ts: seq<TxOut>)
    requires ValidOuts(ts)
    ensures AllFit(OutListEntries(ts)) && ColsBytes(OutListEntries(ts)) == SeriTxOutList(ts)
  {
    hide OutEntries, SeriTxOut, ColBytes, Fits;
    if ts != [] {
      OutColumns(ts[0]);
      OutListColumns(ts[1..]);
      ColsBytesAppend(OutEntries(ts[0]), OutListEntries(ts[1..]));
    }
  }

  /** The fed value, written big-endian, has the bytes of the sequence number. */
  predicate FedRight(t: TxIn, feed: nat -> nat) {
    BE(4, feed(t.seqNo) % TWO32) == LE(4, t.seqNo)
  }

  lemma {:induction false} InListColumns(ts: seq<TxIn>, feed: nat -> nat)
    requires ValidIns(ts)
    ensures AllFit(InListEntries(ts, feed))
    ensures |ColsBytes(InListEntries(ts, feed))| == |SeriTxInList(ts)|
    ensures ColsBytes(InListEntries(ts, feed)) == SeriTxInList(ts) <==>
      forall i :: 0 <= i < |ts| ==> FedRight(ts[i], feed)
  {
    hide InEntries, SeriTxIn, ColBytes, Fits, BE, LE, InHead;
    if ts != [] {
      var t := ts[0];
      InColumns(t, feed);
      InListColumns(ts[1..], feed);
      ColsBytesAppend(InEntries(t, feed), InListEntries(ts[1..], feed));
      var x, y := ColsBytes(InEntries(t, feed)), SeriTxIn(t);
      var xs, ys := ColsBytes(InListEntries(ts[1..], feed)), SeriTxInList(ts[1..]);
      if x + xs == y + ys {
        ConcatSplit(x, xs, y, ys);
        ConcatSplit(InHead(t), BE(4, feed(t.seqNo) % TWO32), InHead(t), LE(4, t.seqNo));
        assert forall i :: 0 <= i < |ts| ==> ts[i] == if i == 0 then t else ts[1..][i - 1];
      } else {
        if x == y {
          var i :| 0 <= i < |ts[1..]| && !FedRight(ts[1..][i], feed);
          assert !FedRight(ts[i + 1], feed);
        } else {
          assert !FedRight(ts[0], feed);
        }
      }
    }
  }

  /** The whole: the same bytes come out exactly when every sequence number is fed right. */
  lemma TxColumns(tx: Tx, feed: nat -> nat)
    requires Valid(tx)
    ensures AllFit(TxEntries(tx, feed))
    ensures ColsBytes(TxEntries(tx, feed)) == SeriTx(tx) <==>
      forall i :: 0 <= i < |tx.txin| ==> FedRight(tx.txin[i], feed)
  {
    hide FedRight, LE, PackVarint, SeriTxInList, SeriTxOutList, InListEntries, OutListEntries, ColsBytes;
    var h0, h1 := Entry(VersionNo, Int(tx.version)), Entry(InCounter, Int(|tx.txin|));
    var o, l := Entry(OutCounter, Int(|tx.txout|)), Entry(LockTime, Int(tx.lockTime));
    var ins, outs := InListEntries(tx.txin, feed), OutListEntries(tx.txout);
    InListColumns(tx.txin, feed);
    OutListColumns(tx.txout);
    ColsBytes1(l);
    ColsBytesAppend(outs, [l]);
    ColsBytesCons(o, outs + [l]);
    ColsBytesAppend(ins, [o] + (outs + [l]));
    ColsBytesCons(h1, ins + ([o] + (outs + [l])));
    ColsBytesCons(h0, [h1] + (ins + ([o] + (outs + [l]))));
    assert TxEntries(tx, feed) == [h0] + ([h1] + (ins + ([o] + (outs + [l]))));
    var pre := LE(4, tx.version) + PackVarint(|tx.txin|);
    var post := PackVarint(|tx.txout|) + (SeriTxOutList(tx.txout) + LE(4, tx.lockTime));
    assert ColsBytes(TxEntries(tx, feed)) == pre + (ColsBytes(ins) + post);
    assert SeriTx(tx) == pre + (SeriTxInList(tx.txin) + post);
    if pre + (ColsBytes(ins) + post) == pre + (SeriTxInList(tx.txin) + post) {
      ConcatSplit(pre, ColsBytes(ins) + post, pre, SeriTxInList(tx.txin) + post);
      ConcatSplit(ColsBytes(ins), post, SeriTxInList(tx.txin), post);
    }
  }

  lemma SmallNat(v: nat, n: nat)
    requires v < n
    ensures v % n == v
  {
  }

  lemma SwapFeedsRight(v: nat)
    ensures Swap32(v) % TWO32 == Swap32(v) && BE(4, Swap32(v)) == LE(4, v)
  {
    hide LE, FromLE, Reverse;
    SmallNat(Swap32(v), TWO32);
    LEofFromLE(BE(4, v));
    assert LE(4, Swap32(v)) == Reverse(LE(4, v));
    ReverseTwice(LE(4, v));
  }

  /** With the sequence numbers byte-swapped, both serialisers emit the same bytes. */
  lemma ColumnsAgree(tx: Tx)
    requires Valid(tx)
    ensures AllFit(TxEntries(tx, Swap32)) && ColsBytes(TxEntries(tx, Swap32)) == SeriTx(tx)
  {
    TxColumns(tx, Swap32);
    forall i | 0 <= i < |tx.txin|
      ensures FedRight(tx.txin[i], Swap32)
    {
      SwapFeedsRight(tx.txin[i].seqNo);
    }
  }

  function Plain(v: nat): nat { v }

  /** With the sequence numbers passed as they are, the bytes agree exactly when each of
      them reads the same in both byte orders. */
  lemma PlainColumnsAgreeIff(tx: Tx)
    requires Valid(tx)
    ensures AllFit(TxEntries(tx, Plain))
    ensures ColsBytes(TxEntries(tx, Plain)) == SeriTx(tx) <==>
      forall i :: 0 <= i < |tx.txin| ==> Swap32(tx.txin[i].seqNo) == tx.txin[i].seqNo
  {
    hide ColsBytes, TxEntries, SeriTx;
    TxColumns(tx, Plain);
    forall i | 0 <= i < |tx.txin|
      ensures FedRight(tx.txin[i], Plain) <==> Swap32(tx.txin[i].seqNo) == tx.txin[i].seqNo
    {
      assert tx.txin[i] in tx.txin;
      PlainFeedsRight(tx.txin[i].seqNo);
    }
  }

  /** A concrete case: a transaction with the sequence number 0xfffffffe, fed as it is. */
  lemma PlainDisagrees()
    ensures var tx := Tx(1, [TxIn(Zeros(32), 0, [], 0xffff_fffe)], [], 0);
      && Valid(tx) && Swap32(0xffff_fffe) == 0xfeff_ffff
      && AllFit(TxEntries(tx, Plain)) && ColsBytes(TxEntries(tx, Plain)) != SeriTx(tx)
  {
    hide ColsBytes, TxEntries, SeriTx;
    var tx := Tx(1, [TxIn(Zeros(32), 0, [], 0xffff_fffe)], [], 0);
    SwapOfFinal();
    PlainColumnsAgreeIff(tx);
    assert tx.txin[0].seqNo == 0xffff_fffe;
  }

  lemma SwapOfFinal()
    ensures Swap32(0xffff_fffe) == 0xfeff_ffff
  {
    hide LE, FromLE;
    var b: seq<byte> := [0xff, 0xff, 0xff, 0xfe];
    LEBytes4(0xffff_fffe);
    assert BE(4, 0xffff_fffe) == b;
    FromLE4(b);
  }

  lemma PlainFeedsRight(v: nat)
    requires v < TWO32
    ensures v % TWO32 == v
    ensures BE(4, v) == LE(4, v) <==> Swap32(v) == v
  {
    hide LE, BE, FromLE;
    SmallNat(v, TWO32);
    Pow256Values();
    FromLEofLESmall(4, v);
    LEofFromLE(BE(4, v));
  }

  // ---------- the serialiser ----------

  method KykSerByteVal(buf: array<byte>, at: nat, val: seq<byte>) returns (len: nat)
    requires at + |val| <= buf.Length
    modifies buf
    ensures len == |val| && buf[..] == Splice(old(buf[..]), at, val)
  {
    Memcpy(buf, at, val);
    len := |val|;
  }

  method KykSerByteHex(buf: array<byte>, at: nat, val: string) returns (len: nat)
    requires at + |FromHex(val)| <= buf.Length
    modifies buf
    ensures len == |FromHex(val)| && buf[..] == Splice(old(buf[..]), at, FromHex(val))
  {
    var tmp, n := KykAllocHex(val);
    Memcpy(buf, at, tmp[..]);
    len := n;
  }

  method KykValistSer(buf: array<byte>, at: nat, e: Entry) returns (len: nat)
    requires Fits(e) && at + |ColBytes(e)| <= buf.Length
    modifies buf
    ensures len == |ColBytes(e)| && buf[..] == Splice(old(buf[..]), at, ColBytes(e))
  {
    len := 0;
    match e.col {
      case VersionNo => len := PackL(buf, at, e.arg.v);
      case InCounter => len := KykPackVarint(buf, at, e.arg.v);
      case PreTxHash => len := KykSerByteVal(buf, at, e.arg.b);
      case PreTxHashHex => len := KykSerByteHex(buf, at, e.arg.h);
      case PreTxoutInx => len := PackL(buf, at, e.arg.v);
      case TxinScLen => len := KykPackVarint(buf, at, e.arg.v);
      case TxinScSig => len := KykSerByteVal(buf, at, e.arg.b);
      case TxinScSigHex => len := KykSerByteHex(buf, at, e.arg.h);
      case SeqNo => len := PackBigL(buf, at, e.arg.v);
      case OutCounter => len := KykPackVarint(buf, at, e.arg.v);
      case TxoutScLen => len := KykPackVarint(buf, at, e.arg.v);
      case TxoutScPubkeyHex => len := KykSerByteHex(buf, at, e.arg.h);
      case TxoutValue => len := PackQ(buf, at, e.arg.v);
      case LockTime => len := PackL(buf, at, e.arg.v);
      case MagicNo => len := PackL(buf, at, e.arg.v);
      case BlockSize => len := PackL(buf, at, e.arg.v);
      case TxCount => len := KykPackVarint(buf, at, e.arg.v);
      case RawBuf => len := KykSerByteVal(buf, at, e.arg.b);
      case Other(_) => SpliceEmpty(buf[..], at);
    }
  }

  /** The caller's cursor, `uint8_t **buf_cpy`. */
  class Cursor {
    const buf: array<byte>
    var at: nat

    constructor (buf: array<byte>, at: nat)
      ensures this.buf == buf && this.at == at
    {
      this.buf, this.at := buf, at;
    }

    /** Appends one column and moves the cursor past it. */
    method KykIncSer(e: Entry) returns (len: nat)
      requires Fits(e) && at + |ColBytes(e)| <= buf.Length
      modifies this, buf
      ensures len == |ColBytes(e)| && at == old(at) + len
      ensures buf[..] == Splice(old(buf[..]), old(at), ColBytes(e))
    {
      len := KykValistSer(buf, at, e);
      at := at + len;
    }

    /** A caller that feeds columns one after the other. */
    method SerAll(es: seq<Entry>)
      requires AllFit(es) && at + |ColsBytes(es)| <= buf.Length
      modifies this, buf
      ensures at == old(at) + |ColsBytes(es)|
      ensures buf[..] == Splice(old(buf[..]), old(at), ColsBytes(es))
    {
      hide Splice, ColBytes, Fits;
      SpliceEmpty(buf[..], at);
      for i := 0 to |es|
        invariant at == old(at) + |ColsBytes(es[..i])|
        invariant |ColsBytes(es)| == |ColsBytes(es[..i])| + |ColsBytes(es[i..])|
        invariant buf[..] == Splice(old(buf[..]), old(at), ColsBytes(es[..i]))
      {
        ghost var done := ColsBytes(es[..i]);
        ColsBytesCons(es[i], es[i + 1..]);
        assert es[i..] == [es[i]] + es[i + 1..];
        var len := KykIncSer(es[i]);
        SpliceSplice(old(buf[..]), old(at), done, ColBytes(es[i]));
        ColsBytesAppend(es[..i], [es[i]]);
        ColsBytes1(es[i]);
        assert es[..i + 1] == es[..i] + [es[i]];
      }
      assert es[..|es|] == es;
    }
  }
}
