/** The block of one transaction that kyk_gens_block.c makes: every part of the toolkit that
    writes, one behind the other. */
module GensBlock {
  import opened Bytes
  import opened KykUtils
  import opened Varint
  import opened Tx
  import opened Ser
  import opened MerkleTree
  import opened MklTree
  import opened Block
  import opened HashNonce

  const KYK_TX_BUF_LEN: nat := 2000
  const KYK_BLK_LEN: nat := 1000 * 1000
  const GENS_TTS: nat := 1504483200
  const GENS_BTS: nat := 0x1e00_ffff

  method MakeMklTreeRoot(hash256: Hasher, bufs: seq<seq<byte>>) returns (root: MklLevel)
    requires |bufs| >= 1
    ensures |bufs| <= Pow2(Height(|bufs|))
    ensures root.len == |root.nd| == 1 && root.nd[0].bdy == Reverse(TxRoot(hash256, bufs))
  {
    hide Reverse, TopDown, LeafHashes, TxTree;
    HeightIsCeilLog2(|bufs|);
    TxTreeIsTopDown(hash256, bufs, Height(|bufs|));
    var leafs := CreateMklLeafs(hash256, bufs);
    ghost var levels;
    root, levels := CreateMklTree(hash256, leafs, LeafHashes(hash256, bufs));
    assert TxRoot(hash256, bufs) == TopDown(hash256, LeafHashes(hash256, bufs), Height(|bufs|));
  }

  /** The root of the transactions into the header. */
  method SetMrkRoot(hash256: Hasher, hd: BlkHeader, bufs: seq<seq<byte>>)
    requires |bufs| >= 1
    modifies hd`mrkRootHash
    ensures hd.mrkRootHash == Reverse(TxRoot(hash256, bufs))
  {
    hide Reverse, TxRoot;
    var root := MakeMklTreeRoot(hash256, bufs);
    var field := new byte[32];
    KykCpyMklRootValue(field, root);
    assert field[..] == root.nd[0].bdy;
    hd.mrkRootHash := field[..];
  }

  /** From any transactions to the bytes of a header: leaves, tree, copied root and serialised
      field put the root, in the order the hash gives it, at bytes 36 to 67. */
  method SeriHdOver(hash256: Hasher, hd: BlkHeader, bufs: seq<seq<byte>>, buf: array<byte>) returns (total: nat)
    requires |bufs| >= 1 && buf.Length >= KYK_BLK_HD_LEN
    modifies hd`mrkRootHash, buf
    ensures total == KYK_BLK_HD_LEN && buf[..total] == SeriHd(hd.Value())
    ensures buf[36..68] == TxRoot(hash256, bufs)
    ensures hd.Value() == old(hd.Value()).(mrkRootHash := Reverse(TxRoot(hash256, bufs)))
  {
    hide Reverse, TxRoot, SeriHd;
    SetMrkRoot(hash256, hd, bufs);
    total := KykSeriBlkHd(buf, 0, hd);
    HeaderSlices(hd.Value());
    ReverseTwice(TxRoot(hash256, bufs));
    assert buf[..total] == SeriHd(hd.Value());
    assert buf[36..68] == buf[..total][36..68];
  }

  // ---------- the block of one transaction ----------

  function GensHeader(hash256: Hasher, tx: Tx, nonce: nat): Header {
    Header(1, Zeros(32), Reverse(TxRoot(hash256, [SeriTx(tx)])), GENS_TTS, GENS_BTS, nonce)
  }

  function BlockBytes(h: Header, tx: Tx): seq<byte> {
    SeriHd(h) + [1] + SeriTx(tx)
  }

  lemma OneTransaction(hash256: Hasher, buf: seq<byte>)
    ensures TxRoot(hash256, [buf]) == hash256(buf)
  {
    SmallRoots(hash256, buf, buf, buf);
  }

  lemma GensFields(hash256: Hasher, tx: Tx, nonce: nat)
    requires nonce < TWO32
    ensures ValidHeader(GensHeader(hash256, tx, nonce)) && ExponentOk(GENS_BTS)
    ensures GensHeader(hash256, tx, nonce) == GensHeader(hash256, tx, 0).(nonce := nonce)
  {
  }

  /** The header in bytes. */
  lemma GensBytes(hash256: Hasher, tx: Tx, nonce: nat)
    ensures var b := SeriHd(GensHeader(hash256, tx, nonce));
      && b[..4] == [1, 0, 0, 0] && (forall i :: 4 <= i < 36 ==> b[i] == 0)
      && b[36..68] == hash256(SeriTx(tx))
      && b[68..76] == [0x80, 0x97, 0xac, 0x59, 0xff, 0xff, 0x00, 0x1e]
      && (nonce < TWO32 ==> FromLE(b[76..]) == nonce)
  {
    hide LE, FromLE, Reverse, SeriHd, SeriTx, TxRoot;
    var h := GensHeader(hash256, tx, nonce);
    var b := SeriHd(h);
    HeaderSlices(h);
    OneTransaction(hash256, SeriTx(tx));
    ReverseTwice(hash256(SeriTx(tx)));
    LEBytes4(1);
    LEBytes4(GENS_TTS);
    LEBytes4(GENS_BTS);
    Pow256Values();
    if nonce < TWO32 {
      FromLEofLESmall(4, nonce);
    }
    assert forall i :: 4 <= i < 36 ==> b[i] == b[4..36][i - 4] == Reverse(Zeros(32))[i - 4] == 0;
    assert b[68..76] == b[68..72] + b[72..76];
  }

  /** The bytes of a block tell its header and its transaction, whatever follows them. */
  lemma BlockUnambiguous(h: Header, tx: Tx, r: seq<byte>, h': Header, tx': Tx, r': seq<byte>)
    requires ValidHeader(h) && ValidHeader(h') && Valid(tx) && Valid(tx')
    requires BlockBytes(h, tx) + r == BlockBytes(h', tx') + r'
    ensures h == h' && tx == tx' && r == r'
  {
    hide SeriHd, SeriTx, ParseHd;
    var a, b := [1] + SeriTx(tx) + r, [1] + SeriTx(tx') + r';
    assert BlockBytes(h, tx) + r == SeriHd(h) + a && BlockBytes(h', tx') + r' == SeriHd(h') + b;
    ConcatSplit(SeriHd(h), a, SeriHd(h'), b);
    ParseOfSeri(h);
    ParseOfSeri(h');
    assert a[1..] == SeriTx(tx) + r && b[1..] == SeriTx(tx') + r';
    TxUnambiguous(tx, r, tx', r');
  }

  /** The columns written for a block. */
  function BlockColumns(h: Header, tx: Tx): seq<Entry> {
    [Entry(RawBuf, Raw(SeriHd(h))), Entry(TxCount, Int(1)), Entry(RawBuf, Raw(SeriTx(tx)))]
  }

  lemma BlockColumnsBytes(h: Header, tx: Tx)
    ensures AllFit(BlockColumns(h, tx)) && ColsBytes(BlockColumns(h, tx)) == BlockBytes(h, tx)
  {
    hide SeriHd, SeriTx, ColsBytes;
    var es := BlockColumns(h, tx);
    ColsBytes1(es[2]);
    ColsBytesCons(es[1], [es[2]]);
    ColsBytesCons(es[0], [es[1]] + [es[2]]);
    assert es == [es[0]] + ([es[1]] + [es[2]]);
    assert PackVarint(1) == [1];
  }

  /** Serialises the transaction, builds its tree, mines the header and writes the block: its
      header holds the hash of the transaction, has the first good nonce from 0 on, and its own
      hash meets the target. */
  method MakeGensBlock(hash256: Hasher, tx: Tx, blkBuf: array<byte>) returns (blkLen: nat, nonce: nat)
    requires Valid(tx) && |SeriTx(tx)| <= KYK_TX_BUF_LEN && blkBuf.Length == KYK_BLK_LEN
    requires ExponentOk(GENS_BTS) && exists n :: 0 <= n < TWO32 && Meets(hash256, GensHeader(hash256, tx, 0), n)
    modifies blkBuf
    ensures nonce < TWO32 && blkLen == KYK_BLK_HD_LEN + 1 + |SeriTx(tx)|
    ensures blkBuf[..blkLen] == BlockBytes(GensHeader(hash256, tx, nonce), tx)
    ensures blkBuf[..4] == [1, 0, 0, 0] && forall i :: 4 <= i < 36 ==> blkBuf[i] == 0
    ensures blkBuf[36..68] == hash256(SeriTx(tx))
    ensures blkBuf[68..76] == [0x80, 0x97, 0xac, 0x59, 0xff, 0xff, 0x00, 0x1e]
    ensures FromLE(blkBuf[76..80]) == nonce && blkBuf[80] == 1 && blkBuf[81..blkLen] == SeriTx(tx)
    ensures FromLE(hash256(blkBuf[..KYK_BLK_HD_LEN])) <= Target(GENS_BTS)
    ensures forall n :: 0 <= n < nonce ==> !Meets(hash256, GensHeader(hash256, tx, 0), n)
  {
    hide SeriTx, SeriHd, Reverse, Target, TxRoot, FromLE;
    var txBuf := new byte[KYK_TX_BUF_LEN];
    var txLen := KykSeriTx(txBuf, 0, tx);
    ghost var h0 := GensHeader(hash256, tx, 0);
    assert txBuf[..txLen] == SeriTx(tx);
    var hd := new BlkHeader(Header(1, Zeros(32), Zeros(32), GENS_TTS, GENS_BTS, 0));
    SetMrkRoot(hash256, hd, [txBuf[..txLen]]);
    assert hd.Value() == h0;
    ghost var k := KykHshNonce(hash256, hd);
    nonce := hd.nonce;
    FirstFromZero(hash256, h0, k);
    GensFields(hash256, tx, nonce);
    assert hd.Value() == GensHeader(hash256, tx, nonce);
    var hdBuf := new byte[KYK_BLK_HD_LEN];
    var hdLen := KykSeriBlkHd(hdBuf, 0, hd);
    assert hdBuf[..hdLen] == SeriHd(hd.Value());
    blkLen := WriteBlock(blkBuf, hdBuf[..hdLen], txBuf[..txLen], hd.Value(), tx);
    GensBytes(hash256, tx, nonce);
    BlockParts(blkBuf[..], blkLen, SeriHd(hd.Value()), SeriTx(tx));
  }

  /** The parts of a written block. */
  lemma BlockParts(buf: seq<byte>, n: nat, h: seq<byte>, tx: seq<byte>)
    requires |h| == 80 && n <= |buf| && buf[..n] == h + [1] + tx
    ensures n == 81 + |tx| && buf[..80] == h && buf[80] == 1 && buf[81..n] == tx
    ensures buf[..4] == h[..4] && buf[36..68] == h[36..68] && buf[68..76] == h[68..76] && buf[76..80] == h[76..]
    ensures forall i :: 0 <= i < 80 ==> buf[i] == h[i]
  {
    assert buf[..80] == buf[..n][..80] == h;
    assert buf[80] == buf[..n][80] && buf[81..n] == buf[..n][81..];
  }

  lemma FirstFromZero(hash256: Hasher, h: Header, k: nat)
    requires ExponentOk(h.bts) && k < TWO32
    requires forall j :: 0 <= j < k ==> !Meets(hash256, h, After(0, j))
    ensures After(0, k) == k && forall n :: 0 <= n < k ==> !Meets(hash256, h, n)
  {
    hide Meets;
    forall n | 0 <= n < k
      ensures !Meets(hash256, h, n)
    {
      assert After(0, n) == n;
    }
  }

  /** The three columns, one behind the other. */
  method WriteBlock(blkBuf: array<byte>, hdBytes: seq<byte>, txBytes: seq<byte>, ghost h: Header, ghost tx: Tx)
    returns (blkLen: nat)
    requires hdBytes == SeriHd(h) && txBytes == SeriTx(tx)
    requires |BlockBytes(h, tx)| <= blkBuf.Length
    modifies blkBuf
    ensures blkLen == |BlockBytes(h, tx)| && blkBuf[..blkLen] == BlockBytes(h, tx)
  {
    hide SeriHd, SeriTx, ColsBytes, AllFit;
    BlockColumnsBytes(h, tx);
    var cursor := new Cursor(blkBuf, 0);
    cursor.SerAll([Entry(RawBuf, Raw(hdBytes)), Entry(TxCount, Int(1)), Entry(RawBuf, Raw(txBytes))]);
    blkLen := cursor.at;
  }
}
