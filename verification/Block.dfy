/** Block headers and their serialisers, kyk_block.c. */
module Block {
  import opened Bytes
  import opened KykUtils
  import opened BeejPack
  import opened MerkleTree

  const KYK_BLK_HD_LEN: nat := 80

  /** The fields of a header at one moment. */
  datatype Header = Header(version: nat, preBlkHash: Digest, mrkRootHash: Digest, tts: nat, bts: nat, nonce: nat)

  predicate ValidHeader(h: Header) {
    h.version < TWO32 && h.tts < TWO32 && h.bts < TWO32 && h.nonce < TWO32
  }

  class BlkHeader {
    var version: nat
    var preBlkHash: Digest
    var mrkRootHash: Digest
    var tts: nat
    var bts: nat
    var nonce: nat

    constructor (h: Header)
      ensures Value() == h
    {
      version, preBlkHash, mrkRootHash := h.version, h.preBlkHash, h.mrkRootHash;
      tts, bts, nonce := h.tts, h.bts, h.nonce;
    }

    function Value(): Header
      reads this
    {
      Header(version, preBlkHash, mrkRootHash, tts, bts, nonce)
    }
  }

  // ---------- the 80 bytes ----------

  function SeriHdNoNonce(h: Header): (s: seq<byte>)
    ensures |s| == 76
  {
    LE(4, h.version) + Reverse(h.preBlkHash) + Reverse(h.mrkRootHash) + LE(4, h.tts) + LE(4, h.bts)
  }

  function SeriHd(h: Header): (s: seq<byte>)
    ensures |s| == KYK_BLK_HD_LEN
  {
    SeriHdNoNonce(h) + LE(4, h.nonce)
  }

  /** The header that 80 bytes stand for. */
  function ParseHd(b: seq<byte>): (h: Header)
    requires |b| == KYK_BLK_HD_LEN
  {
    Header(FromLE(b[..4]), Reverse(b[4..36]), Reverse(b[36..68]), FromLE(b[68..72]), FromLE(b[72..76]), FromLE(b[76..]))
  }

  lemma HeaderSlices(h: Header)
    ensures var b := SeriHd(h);
      && b[..4] == LE(4, h.version) && b[4..36] == Reverse(h.preBlkHash) && b[36..68] == Reverse(h.mrkRootHash)
      && b[68..72] == LE(4, h.tts) && b[72..76] == LE(4, h.bts) && b[76..] == LE(4, h.nonce)
  {
    hide LE, Reverse;
  }

  /** Reading undoes writing. */
  lemma ParseOfSeri(h: Header)
    requires ValidHeader(h)
    ensures ParseHd(SeriHd(h)) == h
  {
    hide LE, FromLE, Reverse, SeriHd;
    HeaderSlices(h);
    Pow256Values();
    FromLEofLESmall(4, h.version);
    FromLEofLESmall(4, h.tts);
    FromLEofLESmall(4, h.bts);
    FromLEofLESmall(4, h.nonce);
    ReverseTwice(h.preBlkHash);
    ReverseTwice(h.mrkRootHash);
  }

  /** Writing undoes reading, for any 80 bytes. */
  lemma SeriOfParse(b: seq<byte>)
    requires |b| == KYK_BLK_HD_LEN
    ensures ValidHeader(ParseHd(b)) && SeriHd(ParseHd(b)) == b
  {
    hide LE, FromLE, Reverse;
    Pow256Values();
    LEofFromLE(b[..4]);
    LEofFromLE(b[68..72]);
    LEofFromLE(b[72..76]);
    LEofFromLE(b[76..]);
    ReverseTwice(b[4..36]);
    ReverseTwice(b[36..68]);
    assert b == b[..4] + b[4..36] + b[36..68] + b[68..72] + b[72..76] + b[76..];
  }

  /** A tree's root body is stored reversed and written reversed again: the bytes of the
      header are the root as the hash gives it. */
  lemma RootInHashOrder(hash256: Hasher, raw: seq<Digest>, h: Header)
    requires |raw| >= 1 && h.mrkRootHash == Reverse(Root(hash256, raw))
    ensures SeriHd(h)[36..68] == Root(hash256, raw)
  {
    HeaderSlices(h);
    ReverseTwice(Root(hash256, raw));
  }

  // ---------- the serialisers ----------

  method KykSeriBlkHdWithoutNonce(buf: array<byte>, at: nat, hd: BlkHeader) returns (total: nat)
    requires at + 76 <= buf.Length
    modifies buf
    ensures total == 76
    ensures buf[..] == Splice(old(buf[..]), at, SeriHdNoNonce(hd.Value()))
  {
    hide Splice, LE, Reverse;
    ghost var was := buf[..];
    var p := at;
    var len := PackL(buf, p, hd.version);
    p := p + len;
    ghost var done := LE(4, hd.version);

    len := KykReversePackChars(buf, p, hd.preBlkHash);
    p := p + len;
    SpliceSplice(was, at, done, Reverse(hd.preBlkHash));
    done := done + Reverse(hd.preBlkHash);

    len := KykReversePackChars(buf, p, hd.mrkRootHash);
    p := p + len;
    SpliceSplice(was, at, done, Reverse(hd.mrkRootHash));
    done := done + Reverse(hd.mrkRootHash);

    len := PackL(buf, p, hd.tts);
    p := p + len;
    SpliceSplice(was, at, done, LE(4, hd.tts));
    done := done + LE(4, hd.tts);

    len := PackL(buf, p, hd.bts);
    p := p + len;
    SpliceSplice(was, at, done, LE(4, hd.bts));
    total := p - at;
  }

  method KykSeriBlkHd(buf: array<byte>, at: nat, hd: BlkHeader) returns (total: nat)
    requires at + KYK_BLK_HD_LEN <= buf.Length
    modifies buf
    ensures total == KYK_BLK_HD_LEN
    ensures buf[..] == Splice(old(buf[..]), at, SeriHd(hd.Value()))
  {
    hide Splice, LE, SeriHdNoNonce;
    total := KykSeriBlkHdWithoutNonce(buf, at, hd);
    var len := PackL(buf, at + total, hd.nonce);
    SpliceSplice(old(buf[..]), at, SeriHdNoNonce(hd.Value()), LE(4, hd.nonce));
    total := total + len;
  }
}
