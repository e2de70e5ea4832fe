/** Address text: the layout of kyk_address.c, and reading it back in kyk_script.c. */
module Address {
  import opened Bytes
  import opened KykUtils
  import opened Base58
  import opened Script
  import opened ScriptStack

  const MAIN_NW: byte := 0x00
  const PAYLOAD_LEN: nat := 25

  /** kyk_dgst_hash256: SHA-256 twice. */
  function Twice(sha256: Hasher): Hasher {
    m => sha256(sha256(m))
  }

  /** Version byte, public key hash and the first four bytes of the hash of both. */
  function Payload(hash256: Hasher, version: byte, pkh: Digest20): (p: seq<byte>)
    ensures |p| == PAYLOAD_LEN
  {
    [version] + pkh + hash256([version] + pkh)[..4]
  }

  // ---------- BIGNUM to bytes ----------

  /** BN_bn2bin: big-endian without leading zero bytes. */
  function BnBytes(n: nat): seq<byte> {
    if n == 0 then [] else BnBytes(n / 256) + [n % 256]
  }

  lemma {:induction false} BnBytesValue(n: nat)
    ensures FromBE(BnBytes(n)) == n
  {
    if n > 0 {
      BnBytesValue(n / 256);
      FromBESnoc(BnBytes(n / 256), n % 256);
    }
  }

  lemma {:induction false} BnBytesLength(n: nat, k: nat)
    requires n < Pow256(k)
    ensures |BnBytes(n)| <= k
  {
    if n > 0 {
      assert k > 0;
      assert n / 256 < Pow256(k - 1);
      BnBytesLength(n / 256, k - 1);
    }
  }

  lemma {:induction false} FromBEPadded(z: nat, s: seq<byte>)
    ensures FromBE(Zeros(z) + s) == FromBE(s)
  {
    var p := Zeros(z) + s;
    if z == 0 {
      assert p == s;
    } else {
      FromBEZero(p);
      FromBEPadded(z - 1, s);
      assert p[1..] == Zeros(z - 1) + s;
    }
  }

  /** Right-aligned in 25 zero bytes, the bytes of a number are its 25-byte form. */
  lemma PaddedIsBE(n: nat, k: nat)
    requires n < Pow256(k)
    ensures |BnBytes(n)| <= k && Zeros(k - |BnBytes(n)|) + BnBytes(n) == BE(k, n)
  {
    BnBytesLength(n, k);
    BnBytesValue(n);
    var p := Zeros(k - |BnBytes(n)|) + BnBytes(n);
    FromBEPadded(k - |BnBytes(n)|, BnBytes(n));
    BEofFromBE(p);
  }

  lemma BEofFromBE(p: seq<byte>)
    ensures BE(|p|, FromBE(p)) == p && FromBE(p) < Pow256(|p|)
  {
    LEofFromLE(Reverse(p));
    ReverseTwice(p);
  }

  // ---------- what an address decodes to ----------

  /** The hash in a decoded address, if its checksum is right. */
  datatype Decoded = Hash(pkh: Digest20) | BadChecksum

  function DecodeAddress(hash256: Hasher, value: nat): Decoded {
    var p := BE(PAYLOAD_LEN, value);
    if p[21..25] == hash256(p[..21])[..4] then Hash(p[1..21]) else BadChecksum
  }

  /** Every hash, zero bytes in front or not, comes back from its address under every
      version byte, and its number fits the 25-byte buffer. */
  lemma AddressRoundTrip(hash256: Hasher, version: byte, pkh: Digest20)
    ensures var addr := Encode(Payload(hash256, version, pkh));
      && Decodable(addr) && Value58(addr) < Pow256(PAYLOAD_LEN)
      && DecodeAddress(hash256, Value58(addr)) == Hash(pkh)
  {
    var p := Payload(hash256, version, pkh);
    hide Encode, FromBE, BE, Pow256, Value58;
    DecodeOfEncode(p);
    BEofFromBE(p);
    assert p[..21] == [version] + pkh && p[1..21] == pkh && p[21..25] == hash256([version] + pkh)[..4];
  }

  /** Different hashes or versions have different addresses. */
  lemma AddressInjective(hash256: Hasher, v: byte, h: Digest20, v': byte, h': Digest20)
    requires Encode(Payload(hash256, v, h)) == Encode(Payload(hash256, v', h'))
    ensures v == v' && h == h'
  {
    var p, p' := Payload(hash256, v, h), Payload(hash256, v', h');
    EncodeInjective(p, p');
    assert p[0] == v && p[1..21] == h && p'[0] == v' && p'[1..21] == h';
  }

  /** The reader does not look at the number of leading digits '1'. */
  lemma LeadingOnesIgnored(hash256: Hasher, z: nat, addr: string)
    requires Decodable(addr)
    ensures var longer := Repeat(ALPHABET[0], z) + addr;
      Decodable(longer) && DecodeAddress(hash256, Value58(longer)) == DecodeAddress(hash256, Value58(addr))
  {
    Value58Ones(z, addr);
  }

  /** From address to spending: the script made from the address of a public key accepts
      exactly the keys with the same hash and a good signature. */
  lemma PaidKeySpends(env: Env, hash256: Hasher, version: byte, owner: seq<byte>, sig: seq<byte>, pubkey: seq<byte>)
    requires Pushable(sig) && Pushable(pubkey) && |env.tx| + 4 <= TX_BUF_SIZE
    ensures var d := DecodeAddress(hash256, AddressValue(hash256, version, env.hash160(owner)));
      d.Hash? && (RunScript(env, PushTwo(sig, pubkey) + P2pkh(d.pkh)).Done? <==>
        env.hash160(pubkey) == env.hash160(owner)
        && env.verify(env.tx + [sig[|sig| - 1], 0, 0, 0], sig[..|sig| - 1], pubkey) >= 1)
  {
    AddressRoundTrip(hash256, version, env.hash160(owner));
    P2pkhDecides(env, env.hash160(owner), sig, pubkey);
    SigChecksIs(env, sig, pubkey);
  }

  /** The number behind an address. */
  function AddressValue(hash256: Hasher, version: byte, pkh: Digest20): nat {
    AddressRoundTrip(hash256, version, pkh);
    Value58(Encode(Payload(hash256, version, pkh)))
  }

  // ---------- the methods of the source ----------

  method SetVersionByte(vdgst: array<byte>, digest: seq<byte>, vbyt: byte)
    requires vdgst.Length == |digest| + 1
    modifies vdgst
    ensures vdgst[..] == [vbyt] + digest
  {
    vdgst[0] := vbyt;
    for i := 0 to |digest|
      invariant vdgst[0] == vbyt && forall k :: 0 <= k < i ==> vdgst[k + 1] == digest[k]
    {
      vdgst[i + 1] := digest[i];
    }
  }

  method GetAddrChecksum(dgst7: array<byte>, dgst6: seq<byte>)
    requires dgst7.Length <= |dgst6|
    modifies dgst7
    ensures dgst7[..] == dgst6[..dgst7.Length]
  {
    for i := 0 to dgst7.Length
      invariant dgst7[..i] == dgst6[..i]
    {
      dgst7[i] := dgst6[i];
    }
  }

  method SetChksumByte(dgst8: array<byte>, dgst7: seq<byte>, dgst4: seq<byte>)
    requires dgst8.Length == |dgst4| + |dgst7|
    modifies dgst8
    ensures dgst8[..] == dgst4 + dgst7
  {
    for i := 0 to |dgst4|
      invariant dgst8[..i] == dgst4[..i]
    {
      dgst8[i] := dgst4[i];
    }
    for j := 0 to |dgst7|
      invariant dgst8[..|dgst4| + j] == dgst4 + dgst7[..j]
    {
      dgst8[j + |dgst4|] := dgst7[j];
    }
  }

  /** The payload of a main network address in bytes. */
  lemma MainPayload(sha256: Hasher, dgst3: Digest20)
    ensures Payload(Twice(sha256), MAIN_NW, dgst3) == [0x00] + dgst3 + sha256(sha256([0x00] + dgst3))[..4]
  {
  }

  /** What is made is read back: a reader that hashes twice finds the digest in the text of
      the 25 bytes that kyk_make_address lays out. */
  lemma MadeAddressReads(sha256: Hasher, hash256: Hasher, dgst3: Digest20)
    requires forall m :: hash256(m) == sha256(sha256(m))
    ensures var t := Encode([0x00] + dgst3 + sha256(sha256([0x00] + dgst3))[..4]);
      Decodable(t) && Value58(t) < Pow256(PAYLOAD_LEN) && DecodeAddress(hash256, Value58(t)) == Hash(dgst3)
  {
    hide Encode, Value58, Pow256, DecodeAddress;
    AddressRoundTrip(hash256, 0x00, dgst3);
    assert Payload(hash256, 0x00, dgst3) == [0x00] + dgst3 + sha256(sha256([0x00] + dgst3))[..4];
  }

  /** Steps 4 to 9 of kyk_make_address, from the RIPEMD-160 digest of the public key on. */
  method MakeAddress(sha256: Hasher, dgst3: Digest20) returns (dgst9: array<char>)
    ensures fresh(dgst9)
    ensures var p := [0x00] + dgst3 + sha256(sha256([0x00] + dgst3))[..4];
      var t := Encode(p);
      && |p| == 25 && |t| < dgst9.Length && dgst9[..|t|] == t && dgst9[|t|] == '\0'
      && Decodable(t) && Value58(t) == FromBE(p)
    ensures var t := Encode(Payload(Twice(sha256), MAIN_NW, dgst3));
      |t| < dgst9.Length && dgst9[..|t|] == t && dgst9[|t|] == '\0'
  {
    var dgst4 := new byte[21];
    SetVersionByte(dgst4, dgst3, MAIN_NW);
    var dgst5 := sha256(dgst4[..]);
    var dgst6 := sha256(dgst5);
    var dgst7 := new byte[4];
    GetAddrChecksum(dgst7, dgst6);
    var dgst8 := new byte[25];
    SetChksumByte(dgst8, dgst7[..], dgst4[..]);
    dgst9 := KykBase58(dgst8[..]);
    MainPayload(sha256, dgst3);
    DecodeOfEncode(Payload(Twice(sha256), MAIN_NW, dgst3));
  }

  /** The result of raw_decode_base58 is ignored by the source, so the characters have to be
      of the alphabet, and the number has to fit the buffer it is copied to. */
  method PubkHashFromAddress(hash256: Hasher, addr: string) returns (ret: int, pubkHash: seq<byte>)
    requires Decodable(addr) && Value58(addr) < Pow256(PAYLOAD_LEN)
    ensures match DecodeAddress(hash256, Value58(addr)) {
      case Hash(pkh) => ret == 1 && pubkHash == pkh
      case BadChecksum => ret == -1
    }
  {
    hide FromBE, BE, BnBytes, Value58, Pow256;
    pubkHash := [];
    var r, bn := RawDecodeBase58(addr);
    var buf := new byte[PAYLOAD_LEN](i => 0);
    PaddedIsBE(bn, PAYLOAD_LEN);
    var len := |BnBytes(bn)|;
    Memcpy(buf, PAYLOAD_LEN - len, BnBytes(bn));
    assert buf[..] == Zeros(PAYLOAD_LEN - len) + BnBytes(bn);
    ret := ValidateBase58Checksum(hash256, buf[..], 1 + RIPEMD160_DIGEST_LENGTH);
    if ret < 0 {
      return;
    }
    pubkHash := buf[1..21];
  }

  /** The locking script of an address, or -1 when its checksum is wrong. */
  method P2pkhScFromAddress(hash256: Hasher, sc: array<byte>, addr: string) returns (len: int)
    requires Decodable(addr) && Value58(addr) < Pow256(PAYLOAD_LEN) && sc.Length >= 25
    modifies sc
    ensures match DecodeAddress(hash256, Value58(addr)) {
      case Hash(pkh) => len == 25 && sc[..] == Splice(old(sc[..]), 0, P2pkh(pkh))
      case BadChecksum => len == -1 && sc[..] == old(sc[..])
    }
  {
    var ret, pubkHash := PubkHashFromAddress(hash256, addr);
    if ret < 0 {
      return -1;
    }
    len := BuildP2pkhScPubk(sc, 0, pubkHash);
  }
}
