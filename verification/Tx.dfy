/** Transactions and their serialiser, kyk_tx.c. */
module Tx {
  import opened Bytes
  import opened KykUtils
  import opened Varint
  import opened BeejPack

  /** The size fields of the source are the lengths of the sequences. */
  datatype TxIn = TxIn(preTxid: Digest, preTxInx: nat, sc: seq<byte>, seqNo: nat)
  datatype TxOut = TxOut(value: nat, sc: seq<byte>)
  datatype Tx = Tx(version: nat, txin: seq<TxIn>, txout: seq<TxOut>, lockTime: nat)

  /** The fields fit their C types. */
  predicate ValidIn(t: TxIn) {
    t.preTxInx < TWO32 && |t.sc| < TWO64 && t.seqNo < TWO32
  }

  predicate ValidOut(t: TxOut) {
    t.value < TWO64 && |t.sc| < TWO64
  }

  predicate ValidIns(ts: seq<TxIn>) {
    |ts| < TWO64 && forall t :: t in ts ==> ValidIn(t)
  }

  predicate ValidOuts(ts: seq<TxOut>) {
    |ts| < TWO64 && forall t :: t in ts ==> ValidOut(t)
  }

  predicate Valid(tx: Tx) {
    tx.version < TWO32 && ValidIns(tx.txin) && ValidOuts(tx.txout) && tx.lockTime < TWO32
  }

  // ---------- the bytes of each part ----------

  function SeriTxIn(t: TxIn): seq<byte> {
    Reverse(t.preTxid) + LE(4, t.preTxInx) + PackVarint(|t.sc|) + t.sc + LE(4, t.seqNo)
  }

  function SeriTxOut(t: TxOut): seq<byte> {
    LE(8, t.value) + PackVarint(|t.sc|) + t.sc
  }

  function SeriTxInList(ts: seq<TxIn>): seq<byte> {
    if ts == [] then [] else SeriTxIn(ts[0]) + SeriTxInList(ts[1..])
  }

  function SeriTxOutList(ts: seq<TxOut>): seq<byte> {
    if ts == [] then [] else SeriTxOut(ts[0]) + SeriTxOutList(ts[1..])
  }

  function SeriTx(tx: Tx): seq<byte> {
    LE(4, tx.version) + PackVarint(|tx.txin|) + SeriTxInList(tx.txin)
    + PackVarint(|tx.txout|) + SeriTxOutList(tx.txout) + LE(4, tx.lockTime)
  }

  // ---------- no serialisation is a prefix of another ----------

  lemma LEPrefixFree(n: nat, a: nat, r: seq<byte>, b: nat, s: seq<byte>)
    requires a < Pow256(n) && b < Pow256(n) && LE(n, a) + r == LE(n, b) + s
    ensures a == b && r == s
  {
    ConcatSplit(LE(n, a), r, LE(n, b), s);
    LEInjective(n, a, b);
  }

  /** A script behind its length. */
  lemma ScriptPrefixFree(a: seq<byte>, r: seq<byte>, b: seq<byte>, s: seq<byte>)
    requires |a| < TWO64 && |b| < TWO64
    requires PackVarint(|a|) + a + r == PackVarint(|b|) + b + s
    ensures a == b && r == s
  {
    hide PackVarint;
    Assoc(PackVarint(|a|), a, r);
    Assoc(PackVarint(|b|), b, s);
    VarintPrefixFree(|a|, a + r, |b|, b + s);
    ConcatSplit(a, r, b, s);
  }

  lemma TxInPrefixFree(a: TxIn, r: seq<byte>, b: TxIn, s: seq<byte>)
    requires ValidIn(a) && ValidIn(b) && SeriTxIn(a) + r == SeriTxIn(b) + s
    ensures a == b && r == s
  {
    hide PackVarint, LE;
    Pow256Values();
    var ra, sb := LE(4, a.seqNo) + r, LE(4, b.seqNo) + s;
    var ta, tb := PackVarint(|a.sc|) + a.sc + ra, PackVarint(|b.sc|) + b.sc + sb;
    assert SeriTxIn(a) + r == Reverse(a.preTxid) + (LE(4, a.preTxInx) + ta);
    assert SeriTxIn(b) + s == Reverse(b.preTxid) + (LE(4, b.preTxInx) + tb);
    ConcatSplit(Reverse(a.preTxid), LE(4, a.preTxInx) + ta, Reverse(b.preTxid), LE(4, b.preTxInx) + tb);
    ReverseInjective(a.preTxid, b.preTxid);
    LEPrefixFree(4, a.preTxInx, ta, b.preTxInx, tb);
    ScriptPrefixFree(a.sc, ra, b.sc, sb);
    LEPrefixFree(4, a.seqNo, r, b.seqNo, s);
  }

  lemma TxOutPrefixFree(a: TxOut, r: seq<byte>, b: TxOut, s: seq<byte>)
    requires ValidOut(a) && ValidOut(b) && SeriTxOut(a) + r == SeriTxOut(b) + s
    ensures a == b && r == s
  {
    hide PackVarint, LE;
    Pow256Values();
    var ta, tb := PackVarint(|a.sc|) + a.sc + r, PackVarint(|b.sc|) + b.sc + s;
    assert SeriTxOut(a) + r == LE(8, a.value) + ta && SeriTxOut(b) + s == LE(8, b.value) + tb;
    LEPrefixFree(8, a.value, ta, b.value, tb);
    ScriptPrefixFree(a.sc, r, b.sc, s);
  }

  lemma {:induction false} TxInListPrefixFree(a: seq<TxIn>, r: seq<byte>, b: seq<TxIn>, s: seq<byte>)
    requires |a| == |b| && ValidIns(a) && ValidIns(b)
    requires SeriTxInList(a) + r == SeriTxInList(b) + s
    ensures a == b && r == s
  {
    hide SeriTxIn;
    if a == [] {
      assert SeriTxInList(a) + r == r && SeriTxInList(b) + s == s;
    } else {
      var ra, sb := SeriTxInList(a[1..]) + r, SeriTxInList(b[1..]) + s;
      Assoc(SeriTxIn(a[0]), SeriTxInList(a[1..]), r);
      Assoc(SeriTxIn(b[0]), SeriTxInList(b[1..]), s);
      TxInPrefixFree(a[0], ra, b[0], sb);
      TxInListPrefixFree(a[1..], r, b[1..], s);
      assert a == [a[0]] + a[1..] && b == [b[0]] + b[1..];
    }
  }

  lemma {:induction false} TxOutListPrefixFree(a: seq<TxOut>, r: seq<byte>, b: seq<TxOut>, s: seq<byte>)
    requires |a| == |b| && ValidOuts(a) && ValidOuts(b)
    requires SeriTxOutList(a) + r == SeriTxOutList(b) + s
    ensures a == b && r == s
  {
    hide SeriTxOut;
    if a == [] {
      assert SeriTxOutList(a) + r == r && SeriTxOutList(b) + s == s;
    } else {
      var ra, sb := SeriTxOutList(a[1..]) + r, SeriTxOutList(b[1..]) + s;
      Assoc(SeriTxOut(a[0]), SeriTxOutList(a[1..]), r);
      Assoc(SeriTxOut(b[0]), SeriTxOutList(b[1..]), s);
      TxOutPrefixFree(a[0], ra, b[0], sb);
      TxOutListPrefixFree(a[1..], r, b[1..], s);
      assert a == [a[0]] + a[1..] && b == [b[0]] + b[1..];
    }
  }

  /** Whatever follows them, equal bytes start with the same transaction. */
  lemma TxUnambiguous(a: Tx, r: seq<byte>, b: Tx, s: seq<byte>)
    requires Valid(a) && Valid(b) && SeriTx(a) + r == SeriTx(b) + s
    ensures a == b && r == s
  {
    hide PackVarint, LE, SeriTxInList, SeriTxOutList;
    Pow256Values();
    var a4, b4 := LE(4, a.lockTime) + r, LE(4, b.lockTime) + s;
    var a3, b3 := SeriTxOutList(a.txout) + a4, SeriTxOutList(b.txout) + b4;
    var a2, b2 := PackVarint(|a.txout|) + a3, PackVarint(|b.txout|) + b3;
    var a1, b1 := SeriTxInList(a.txin) + a2, SeriTxInList(b.txin) + b2;
    assert SeriTx(a) + r == LE(4, a.version) + (PackVarint(|a.txin|) + a1);
    assert SeriTx(b) + s == LE(4, b.version) + (PackVarint(|b.txin|) + b1);
    LEPrefixFree(4, a.version, PackVarint(|a.txin|) + a1, b.version, PackVarint(|b.txin|) + b1);
    VarintPrefixFree(|a.txin|, a1, |b.txin|, b1);
    TxInListPrefixFree(a.txin, a2, b.txin, b2);
    VarintPrefixFree(|a.txout|, a3, |b.txout|, b3);
    TxOutListPrefixFree(a.txout, a4, b.txout, b4);
    LEPrefixFree(4, a.lockTime, r, b.lockTime, s);
  }

  /** kyk_seri_tx is prefix-free: a transaction whose bytes start another's bytes is that one. */
  lemma TxPrefixFree(a: Tx, b: Tx)
    requires Valid(a) && Valid(b) && SeriTx(a) <= SeriTx(b)
    ensures a == b
  {
    var r := SeriTx(b)[|SeriTx(a)|..];
    assert SeriTx(a) + r == SeriTx(b) + [];
    TxUnambiguous(a, r, b, []);
  }

  // ---------- the bytes written out ----------

  /** What a transaction may hold, in numbers. */
  lemma ValidIff(tx: Tx)
    ensures Valid(tx) <==>
      && tx.version < 0x1_0000_0000 && tx.lockTime < 0x1_0000_0000
      && |tx.txin| < 0x1_0000_0000_0000_0000 && |tx.txout| < 0x1_0000_0000_0000_0000
      && (forall t :: t in tx.txin ==>
            t.preTxInx < 0x1_0000_0000 && |t.sc| < 0x1_0000_0000_0000_0000 && t.seqNo < 0x1_0000_0000)
      && (forall t :: t in tx.txout ==>
            t.value < 0x1_0000_0000_0000_0000 && |t.sc| < 0x1_0000_0000_0000_0000)
  {
  }

  /** An input in bytes, for a script of up to 252 bytes: the id highest place first. */
  lemma TxInBytes(t: TxIn)
    requires |t.sc| < 0xfd
    ensures var i, q := t.preTxInx, t.seqNo;
      && |SeriTxIn(t)| == 41 + |t.sc|
      && (forall j :: 0 <= j < 32 ==> SeriTxIn(t)[j] == t.preTxid[31 - j])
      && SeriTxIn(t)[32..37] == [i % 256, i / 0x100 % 256, i / 0x1_0000 % 256, i / 0x100_0000 % 256, |t.sc|]
      && SeriTxIn(t)[37..37 + |t.sc|] == t.sc
      && SeriTxIn(t)[37 + |t.sc|..] == [q % 256, q / 0x100 % 256, q / 0x1_0000 % 256, q / 0x100_0000 % 256]
  {
    hide LE;
    LEBytes4(t.preTxInx);
    LEBytes4(t.seqNo);
  }

  /** An output in bytes, for a script of up to 252 bytes. */
  lemma TxOutBytes(t: TxOut)
    requires |t.sc| < 0xfd
    ensures var v := t.value;
      SeriTxOut(t) == [v % 256, v / 0x100 % 256, v / 0x1_0000 % 256, v / 0x100_0000 % 256,
                       v / 0x1_0000_0000 % 256, v / 0x100_0000_0000 % 256,
                       v / 0x1_0000_0000_0000 % 256, v / 0x100_0000_0000_0000 % 256, |t.sc|] + t.sc
  {
    hide LE;
    LEBytes8(t.value);
  }

  /** A transaction of one input and one output in bytes. */
  lemma TxOfOneBytes(version: nat, t: TxIn, u: TxOut, lockTime: nat)
    ensures SeriTx(Tx(version, [t], [u], lockTime)) ==
      [version % 256, version / 0x100 % 256, version / 0x1_0000 % 256, version / 0x100_0000 % 256, 1]
      + SeriTxIn(t) + [1] + SeriTxOut(u)
      + [lockTime % 256, lockTime / 0x100 % 256, lockTime / 0x1_0000 % 256, lockTime / 0x100_0000 % 256]
  {
    hide LE, SeriTxIn, SeriTxOut;
    LEBytes4(version);
    LEBytes4(lockTime);
    assert PackVarint(1) == [1];
    assert [t][1..] == [] && [u][1..] == [];
    assert SeriTxInList([t]) == SeriTxIn(t) && SeriTxOutList([u]) == SeriTxOut(u);
  }

  // ---------- the serialiser ----------

  method KykSeriTxIn(buf: array<byte>, at: nat, txin: TxIn) returns (total: nat)
    requires ValidIn(txin) && at + |SeriTxIn(txin)| <= buf.Length
    modifies buf
    ensures total == |SeriTxIn(txin)|
    ensures buf[..] == Splice(old(buf[..]), at, SeriTxIn(txin))
  {
    hide Splice, LE, PackVarint;
    ghost var was := buf[..];
    var p := at;
    var size := KykReversePackChars(buf, p, txin.preTxid);
    p := p + size;
    ghost var done := Reverse(txin.preTxid);

    size := PackL(buf, p, txin.preTxInx);
    p := p + size;
    SpliceSplice(was, at, done, LE(4, txin.preTxInx));
    done := done + LE(4, txin.preTxInx);

    size := KykPackVarint(buf, p, |txin.sc|);
    p := p + size;
    SpliceSplice(was, at, done, PackVarint(|txin.sc|));
    done := done + PackVarint(|txin.sc|);

    size := KykPackChars(buf, p, txin.sc);
    p := p + size;
    SpliceSplice(was, at, done, txin.sc);
    done := done + txin.sc;

    size := PackL(buf, p, txin.seqNo);
    p := p + size;
    SpliceSplice(was, at, done, LE(4, txin.seqNo));
    total := p - at;
  }

  method KykSeriTxOut(buf: array<byte>, at: nat, txout: TxOut) returns (total: nat)
    requires ValidOut(txout) && at + |SeriTxOut(txout)| <= buf.Length
    modifies buf
    ensures total == |SeriTxOut(txout)|
    ensures buf[..] == Splice(old(buf[..]), at, SeriTxOut(txout))
  {
    hide Splice, LE, PackVarint;
    ghost var was := buf[..];
    var p := at;
    var size := PackQ(buf, p, txout.value);
    p := p + size;
    ghost var done := LE(8, txout.value);

    size := KykPackVarint(buf, p, |txout.sc|);
    p := p + size;
    SpliceSplice(was, at, done, PackVarint(|txout.sc|));
    done := done + PackVarint(|txout.sc|);

    size := KykPackChars(buf, p, txout.sc);
    p := p + size;
    SpliceSplice(was, at, done, txout.sc);
    total := p - at;
  }

  lemma {:induction false} SeriTxInListSplit(ts: seq<TxIn>, i: nat)
    requires i <= |ts|
    ensures SeriTxInList(ts) == SeriTxInList(ts[..i]) + SeriTxInList(ts[i..])
  {
    hide SeriTxIn;
    if i == 0 {
      assert ts[..0] == [] && ts[0..] == ts;
    } else {
      SeriTxInListSplit(ts[1..], i - 1);
      assert ts[..i][1..] == ts[1..][..i - 1] && ts[i..] == ts[1..][i - 1..];
      Assoc(SeriTxIn(ts[0]), SeriTxInList(ts[1..][..i - 1]), SeriTxInList(ts[i..]));
    }
  }

  lemma {:induction false} SeriTxOutListSplit(ts: seq<TxOut>, i: nat)
    requires i <= |ts|
    ensures SeriTxOutList(ts) == SeriTxOutList(ts[..i]) + SeriTxOutList(ts[i..])
  {
    hide SeriTxOut;
    if i == 0 {
      assert ts[..0] == [] && ts[0..] == ts;
    } else {
      SeriTxOutListSplit(ts[1..], i - 1);
      assert ts[..i][1..] == ts[1..][..i - 1] && ts[i..] == ts[1..][i - 1..];
    }
  }

  method KykSeriTxInList(buf: array<byte>, at: nat, txin: seq<TxIn>) returns (total: nat)
    requires ValidIns(txin) && at + |SeriTxInList(txin)| <= buf.Length
    modifies buf
    ensures total == |SeriTxInList(txin)|
    ensures buf[..] == Splice(old(buf[..]), at, SeriTxInList(txin))
  {
    hide Splice, LE, PackVarint;
    total := 0;
    SpliceEmpty(buf[..], at);
    for i := 0 to |txin|
      invariant total == |SeriTxInList(txin[..i])| && at + total + |SeriTxInList(txin[i..])| <= buf.Length
      invariant buf[..] == Splice(old(buf[..]), at, SeriTxInList(txin[..i]))
    {
      ghost var done := SeriTxInList(txin[..i]);
      assert txin[i..][0] == txin[i] && txin[i..][1..] == txin[i + 1..];
      var size := KykSeriTxIn(buf, at + total, txin[i]);
      SpliceSplice(old(buf[..]), at, done, SeriTxIn(txin[i]));
      SeriTxInListSplit(txin[..i + 1], i);
      assert txin[..i + 1][..i] == txin[..i] && txin[..i + 1][i..] == [txin[i]];
      assert SeriTxInList([txin[i]]) == SeriTxIn(txin[i]);
      total := total + size;
    }
    assert txin[..|txin|] == txin;
  }

  method KykSeriTxOutList(buf: array<byte>, at: nat, txout: seq<TxOut>) returns (total: nat)
    requires ValidOuts(txout) && at + |SeriTxOutList(txout)| <= buf.Length
    modifies buf
    ensures total == |SeriTxOutList(txout)|
    ensures buf[..] == Splice(old(buf[..]), at, SeriTxOutList(txout))
  {
    hide Splice, LE, PackVarint;
    total := 0;
    SpliceEmpty(buf[..], at);
    for i := 0 to |txout|
      invariant total == |SeriTxOutList(txout[..i])| && at + total + |SeriTxOutList(txout[i..])| <= buf.Length
      invariant buf[..] == Splice(old(buf[..]), at, SeriTxOutList(txout[..i]))
    {
      ghost var done := SeriTxOutList(txout[..i]);
      assert txout[i..][0] == txout[i] && txout[i..][1..] == txout[i + 1..];
      var size := KykSeriTxOut(buf, at + total, txout[i]);
      SpliceSplice(old(buf[..]), at, done, SeriTxOut(txout[i]));
      SeriTxOutListSplit(txout[..i + 1], i);
      assert txout[..i + 1][..i] == txout[..i] && txout[..i + 1][i..] == [txout[i]];
      assert SeriTxOutList([txout[i]]) == SeriTxOut(txout[i]);
      total := total + size;
    }
    assert txout[..|txout|] == txout;
  }

  method KykSeriTx(buf: array<byte>, at: nat, tx: Tx) returns (total: nat)
    requires Valid(tx) && at + |SeriTx(tx)| <= buf.Length
    modifies buf
    ensures total == |SeriTx(tx)|
    ensures buf[..] == Splice(old(buf[..]), at, SeriTx(tx))
  {
    hide Splice, LE, PackVarint;
    ghost var was := buf[..];
    var p := at;
    var size := PackL(buf, p, tx.version);
    p := p + size;
    ghost var done := LE(4, tx.version);

    size := KykPackVarint(buf, p, |tx.txin|);
    p := p + size;
    SpliceSplice(was, at, done, PackVarint(|tx.txin|));
    done := done + PackVarint(|tx.txin|);

    size := KykSeriTxInList(buf, p, tx.txin);
    p := p + size;
    SpliceSplice(was, at, done, SeriTxInList(tx.txin));
    done := done + SeriTxInList(tx.txin);

    size := KykPackVarint(buf, p, |tx.txout|);
    p := p + size;
    SpliceSplice(was, at, done, PackVarint(|tx.txout|));
    done := done + PackVarint(|tx.txout|);

    size := KykSeriTxOutList(buf, p, tx.txout);
    p := p + size;
    SpliceSplice(was, at, done, SeriTxOutList(tx.txout));
    done := done + SeriTxOutList(tx.txout);

    size := PackL(buf, p, tx.lockTime);
    p := p + size;
    SpliceSplice(was, at, done, LE(4, tx.lockTime));
    total := p - at;
  }
}
