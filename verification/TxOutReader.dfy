/** The output reader and script disassembler of parse_txout_script_pbk.c. */
module TxOutReader {
  import opened Bytes
  import opened KykUtils
  import opened Varint
  import opened Files
  import opened Tx
  import opened Script

  const PBK_STACK_SIZE: nat := 100

  // ---------- entries of a parsed script ----------

  const OPCODES0: seq<byte> := [
    0x00, 0x01, 0x4b, 0x4c, 0x4d, 0x4e, 0x4f, 0x51, 0x52, 0x53, 0x54, 0x55, 0x56, 0x57, 0x58, 0x59, 0x5a, 0x5b, 0x5c,
    0x5d, 0x5e, 0x5f]
  const OPCODES1: seq<byte> := [
    0x60, 0x61, 0x63, 0x64, 0x67, 0x68, 0x69, 0x6a, 0x6b, 0x6c, 0x73, 0x74, 0x75, 0x76, 0x77, 0x78, 0x79, 0x7a, 0x7b,
    0x7c, 0x7d, 0x6d]
  const OPCODES2: seq<byte> := [
    0x6e, 0x6f, 0x70, 0x71, 0x72, 0x7e, 0x7f, 0x80, 0x81, 0x82, 0x83, 0x84, 0x85, 0x86, 0x87, 0x88, 0x8b, 0x8c, 0x8d,
    0x8e, 0x8f, 0x90]
  const OPCODES3: seq<byte> := [
    0x91, 0x92, 0x93, 0x94, 0x95, 0x96, 0x97, 0x98, 0x99, 0x9a, 0x9b, 0x9c, 0x9d, 0x9e, 0x9f, 0xa0, 0xa1, 0xa2, 0xa3,
    0xa4, 0xa5, 0xa6]
  const OPCODES4: seq<byte> := [
    0xa7, 0xa8, 0xa9, 0xaa, 0xab, 0xac, 0xad, 0xae, 0xaf, 0xb1, 0xb2, 0xfd, 0xfe, 0xff, 0x50, 0x62, 0x65, 0x66, 0x89,
    0x8a, 0xb0, 0xb9]
  const BTC_SC_OPCODES: seq<byte> := OPCODES0 + OPCODES1 + OPCODES2 + OPCODES3 + OPCODES4

  /** What an entry of the stack points to: the pushed bytes in hexadecimal, a slot of the
      table of names that runs beside the table of opcodes, or NO_FOUND_OPTCODE. */
  datatype Token = Data(hex: string) | Name(slot: nat) | NoFound

  function OpToken(opcode: byte): Token {
    var i := IndexOf(BTC_SC_OPCODES, opcode);
    if i < 0 then NoFound else Name(i)
  }

  /** The table in runs of opcodes that follow one another: 00-01, 4b-4f, 51-61, 63-64, 67-6c,
      73-7d, 6d-72, 7e-88, 8b-af, b1-b2, fd-ff and eight single ones. */
  function TableAt(k: nat): nat {
    if k < 2 then k
    else if k < 7 then 0x4b + k - 2
    else if k < 24 then 0x51 + k - 7
    else if k < 26 then 0x63 + k - 24
    else if k < 32 then 0x67 + k - 26
    else if k < 43 then 0x73 + k - 32
    else if k < 49 then 0x6d + k - 43
    else if k < 60 then 0x7e + k - 49
    else if k < 97 then 0x8b + k - 60
    else if k < 99 then 0xb1 + k - 97
    else if k < 102 then 0xfd + k - 99
    else if k == 102 then 0x50
    else if k == 103 then 0x62
    else if k < 106 then 0x65 + k - 104
    else if k < 108 then 0x89 + k - 106
    else if k == 108 then 0xb0
    else 0xb9
  }

  lemma Row0(k: nat)
    requires k < 22
    ensures OPCODES0[k] == TableAt(k)
  {
  }

  lemma Row1(k: nat)
    requires k < 22
    ensures OPCODES1[k] == TableAt(22 + k)
  {
  }

  lemma Row2(k: nat)
    requires k < 22
    ensures OPCODES2[k] == TableAt(44 + k)
  {
  }

  lemma Row3(k: nat)
    requires k < 22
    ensures OPCODES3[k] == TableAt(66 + k)
  {
  }

  lemma Row4(k: nat)
    requires k < 22
    ensures OPCODES4[k] == TableAt(88 + k)
  {
  }

  lemma RowSizes()
    ensures |OPCODES0| == |OPCODES1| == |OPCODES2| == |OPCODES3| == |OPCODES4| == 22
  {
  }

  lemma TableIs(k: nat)
    requires k < 110
    ensures |BTC_SC_OPCODES| == 110 && BTC_SC_OPCODES[k] == TableAt(k)
  {
    RowSizes();
    hide OPCODES0, OPCODES1, OPCODES2, OPCODES3, OPCODES4, TableAt;
    if k < 22 {
      Row0(k);
    } else if k < 44 {
      Row1(k - 22);
    } else if k < 66 {
      Row2(k - 44);
    } else if k < 88 {
      Row3(k - 66);
    } else {
      Row4(k - 88);
    }
  }

  lemma TableDiffers(i: nat, k: nat)
    requires i < k < 110
    ensures TableAt(i) != TableAt(k)
  {
  }

  /** An opcode is given the slot k exactly if it is the one that the table has there. */
  lemma SlotIff(opcode: byte, k: nat)
    requires k < 110
    ensures OpToken(opcode) == Name(k) <==> opcode == TableAt(k)
  {
    TableIs(k);
    var i := IndexOf(BTC_SC_OPCODES, opcode);
    hide BTC_SC_OPCODES, TableAt;
    if i >= 0 {
      TableIs(i);
      if i < k {
        TableDiffers(i, k);
      } else if k < i {
        TableDiffers(k, i);
      }
    } else {
      assert BTC_SC_OPCODES[k] in BTC_SC_OPCODES;
    }
  }

  /** The linear search through the table of opcodes. */
  method TrOpcodeToName(opcode: byte) returns (res: Token)
    ensures res == OpToken(opcode)
    ensures res == NoFound <==> opcode !in BTC_SC_OPCODES
    ensures res.Name? ==> res.slot < |BTC_SC_OPCODES| && BTC_SC_OPCODES[res.slot] == opcode
  {
    hide BTC_SC_OPCODES;
    var i := 0;
    var n := |BTC_SC_OPCODES|;
    while i < n
      invariant 0 <= i <= n && forall k :: 0 <= k < i ==> BTC_SC_OPCODES[k] != opcode
    {
      if BTC_SC_OPCODES[i] == opcode {
        break;
      }
      i := i + 1;
    }
    FirstIndex(BTC_SC_OPCODES, opcode, i);
    res := if i < n then Name(i) else NoFound;
  }

  lemma {:induction false} FirstIndex<T>(s: seq<T>, x: T, i: nat)
    requires i <= |s| && (forall k :: 0 <= k < i ==> s[k] != x) && (i < |s| ==> s[i] == x)
    ensures IndexOf(s, x) == if i < |s| then i else -1
  {
    if i > 0 {
      FirstIndex(s[1..], x, i - 1);
    }
  }

  /** The token at offset i. */
  function TokenAt(s: seq<byte>, i: nat): Token
    requires i < |s| && Next(s, i) <= |s|
  {
    if IsScNaConst(s[i]) then Data(ToHex(s[i + 1..Next(s, i)])) else OpToken(s[i])
  }

  /** Cutting a whole script into tokens. */
  function Tokenise(s: seq<byte>, i: nat): seq<Token>
    requires i <= |s| && EndsExactly(s, i)
    decreases |s| - i
  {
    if i == |s| then [] else [TokenAt(s, i)] + Tokenise(s, Next(s, i))
  }

  /** The disassembler cuts where the script machine's walk cuts: token k is the one at the
      k-th cut. With Script.ExecutedArePrefix, a run executes a prefix of the tokens. */
  lemma {:induction false} TokensAtCuts(s: seq<byte>, i: nat)
    requires i <= |s| && EndsExactly(s, i)
    ensures |Tokenise(s, i)| == |Cuts(s, i)|
    ensures forall k :: 0 <= k < |Cuts(s, i)| ==>
      var c := Cuts(s, i)[k]; c < |s| && Next(s, c) <= |s| && Tokenise(s, i)[k] == TokenAt(s, c)
    decreases |s| - i
  {
    if i < |s| {
      hide TokenAt;
      TokensAtCuts(s, Next(s, i));
      var cs, ts := Cuts(s, Next(s, i)), Tokenise(s, Next(s, i));
      assert forall k :: 0 < k < |Cuts(s, i)| ==> Cuts(s, i)[k] == cs[k - 1] && Tokenise(s, i)[k] == ts[k - 1];
    }
  }

  // ---------- what the tokens tell of a script ----------

  /** Stands for all opcodes that are not in the table. */
  const UNLISTED: byte := 0xba

  lemma UnlistedLow(x: byte)
    requires 0xba <= x <= 0xfc
    ensures x !in OPCODES0 && x !in OPCODES1 && x !in OPCODES2
  {
  }

  lemma UnlistedHigh(x: byte)
    requires 0xba <= x <= 0xfc
    ensures x !in OPCODES3 && x !in OPCODES4
  {
  }

  lemma Unlisted(x: byte)
    requires 0xba <= x <= 0xfc
    ensures x !in BTC_SC_OPCODES
  {
    hide OPCODES0, OPCODES1, OPCODES2, OPCODES3, OPCODES4;
    UnlistedLow(x);
    UnlistedHigh(x);
  }

  function CanonicalOp(opcode: byte): (op: byte)
    ensures op == opcode || op == UNLISTED
  {
    if IsScNaConst(opcode) || opcode in BTC_SC_OPCODES then opcode else UNLISTED
  }

  /** The script from offset i on, every unlisted opcode replaced by one of them. */
  function Canonical(s: seq<byte>, i: nat): seq<byte>
    requires i <= |s| && EndsExactly(s, i)
    decreases |s| - i
  {
    if i == |s| then [] else [CanonicalOp(s[i])] + s[i + 1..Next(s, i)] + Canonical(s, Next(s, i))
  }

  /** The bytes a token stands for. */
  function TokenBytes(t: Token): seq<byte> {
    match t
    case Data(hex) => [(|hex| / 2) % 256] + FromHex(hex)
    case Name(slot) => if slot < |BTC_SC_OPCODES| then [BTC_SC_OPCODES[slot]] else []
    case NoFound => [UNLISTED]
  }

  function TokensBytes(ts: seq<Token>): seq<byte> {
    if ts == [] then [] else TokenBytes(ts[0]) + TokensBytes(ts[1..])
  }

  lemma TokenAtBytes(s: seq<byte>, i: nat)
    requires i < |s| && Next(s, i) <= |s|
    ensures TokenBytes(TokenAt(s, i)) == [CanonicalOp(s[i])] + s[i + 1..Next(s, i)]
  {
    hide ToHex, FromHex, BTC_SC_OPCODES;
    if IsScNaConst(s[i]) {
      var d := s[i + 1..Next(s, i)];
      FromHexOfToHex(d);
      var n: nat := s[i];
      assert |ToHex(d)| == 2 * n && n % 256 == n;
    } else {
      assert s[i + 1..Next(s, i)] == [];
    }
  }

  /** The tokens spell the script up to its unlisted opcodes. */
  lemma {:induction false} TokensSpell(s: seq<byte>, i: nat)
    requires i <= |s| && EndsExactly(s, i)
    ensures TokensBytes(Tokenise(s, i)) == Canonical(s, i)
    decreases |s| - i
  {
    if i < |s| {
      hide TokenAt, TokenBytes, CanonicalOp;
      var n := Next(s, i);
      TokenAtBytes(s, i);
      TokensSpell(s, n);
      var t, ts := TokenAt(s, i), Tokenise(s, n);
      assert Tokenise(s, i) == [t] + ts && ([t] + ts)[1..] == ts;
    }
  }

  lemma CanonicalOpTells(x: byte, y: byte)
    requires CanonicalOp(x) == CanonicalOp(y)
    ensures IsScNaConst(x) == IsScNaConst(y) && (IsScNaConst(x) ==> x == y)
    ensures !IsScNaConst(x) ==> OpToken(x) == OpToken(y)
  {
    Unlisted(UNLISTED);
    hide BTC_SC_OPCODES;
  }

  lemma CanonicalStep(s: seq<byte>, i: nat)
    requires i < |s| && EndsExactly(s, i)
    ensures Canonical(s, i) == [CanonicalOp(s[i])] + s[i + 1..Next(s, i)] + Canonical(s, Next(s, i))
  {
  }

  lemma CanonicalHead(s: seq<byte>, i: nat)
    requires i < |s| && EndsExactly(s, i)
    ensures Canonical(s, i) != [] && Canonical(s, i)[0] == CanonicalOp(s[i])
    ensures Canonical(s, i)[1..] == s[i + 1..Next(s, i)] + Canonical(s, Next(s, i))
  {
    CanonicalStep(s, i);
    hide Canonical, CanonicalOp;
    var x, y := s[i + 1..Next(s, i)], Canonical(s, Next(s, i));
    Assoc([CanonicalOp(s[i])], x, y);
  }

  /** Scripts that agree up to unlisted opcodes have the same tokens. */
  lemma {:induction false} CanonicalTells(a: seq<byte>, i: nat, b: seq<byte>, j: nat)
    requires i <= |a| && EndsExactly(a, i) && j <= |b| && EndsExactly(b, j)
    requires Canonical(a, i) == Canonical(b, j)
    ensures Tokenise(a, i) == Tokenise(b, j)
    decreases |a| - i
  {
    hide OpToken, CanonicalOp, ToHex;
    if i == |a| {
      if j < |b| {
        CanonicalHead(b, j);
      }
    } else if j == |b| {
      CanonicalHead(a, i);
    } else {
      CanonicalHead(a, i);
      CanonicalHead(b, j);
      hide Canonical;
      CanonicalOpTells(a[i], b[j]);
      var n, m := Next(a, i), Next(b, j);
      ConcatSplit(a[i + 1..n], Canonical(a, n), b[j + 1..m], Canonical(b, m));
      CanonicalTells(a, n, b, m);
    }
  }

  /** Two scripts that end exactly are parsed to the same entries if and only if they agree
      after every unlisted opcode is replaced by one of them. */
  lemma SameTokensIff(a: seq<byte>, b: seq<byte>)
    requires EndsExactly(a, 0) && EndsExactly(b, 0)
    ensures Tokenise(a, 0) == Tokenise(b, 0) <==> Canonical(a, 0) == Canonical(b, 0)
  {
    TokensSpell(a, 0);
    TokensSpell(b, 0);
    if Canonical(a, 0) == Canonical(b, 0) {
      CanonicalTells(a, 0, b, 0);
    }
  }

  /** A concrete case: two scripts of one unlisted opcode each. */
  lemma UnlistedAlike()
    ensures EndsExactly([0xba], 0) && EndsExactly([0xbb], 0)
    ensures Tokenise([0xba], 0) == Tokenise([0xbb], 0) == [NoFound]
  {
    Unlisted(0xba);
    Unlisted(0xbb);
    hide BTC_SC_OPCODES;
    assert EndsExactly([0xba], 1) && EndsExactly([0xbb], 1);
    assert Tokenise([0xba], 1) == [] && Tokenise([0xbb], 1) == [];
  }

  // ---------- the loop of the disassembler ----------

  /** Every byte the do-while loop reads is there: it reads at least one opcode. */
  predicate Scannable(s: seq<byte>, i: nat, len: nat)
    decreases |s| - i
  {
    i < |s| && Next(s, i) <= |s| && (Next(s, i) < len ==> Scannable(s, Next(s, i), len))
  }

  /** The tokens the loop stores, starting at offset i. */
  function Scan(s: seq<byte>, i: nat, len: nat): (ts: seq<Token>)
    requires Scannable(s, i, len)
    ensures |ts| >= 1
    decreases |s| - i
  {
    [TokenAt(s, i)] + if Next(s, i) < len then Scan(s, Next(s, i), len) else []
  }

  /** Where the loop leaves the cursor. */
  function ScanEnd(s: seq<byte>, i: nat, len: nat): (e: nat)
    requires Scannable(s, i, len)
    ensures i < e <= |s| && e >= len
    decreases |s| - i
  {
    if Next(s, i) < len then ScanEnd(s, Next(s, i), len) else Next(s, i)
  }

  lemma NextInside(s: seq<byte>, len: nat, i: nat)
    requires len <= |s| && i < len
    ensures Next(s[..len], i) == Next(s, i)
    ensures Next(s, i) <= len ==> TokenAt(s[..len], i) == TokenAt(s, i)
  {
    if Next(s, i) <= len {
      assert s[..len][i + 1..Next(s, i)] == s[i + 1..Next(s, i)];
    }
  }

  /** The loop stops at the end of the script exactly when its walk ends there, and then it
      has stored the script's tokens. */
  lemma {:induction false} ScanExact(s: seq<byte>, i: nat, len: nat)
    requires Scannable(s, i, len) && i < len <= |s|
    ensures ScanEnd(s, i, len) == len <==> EndsExactly(s[..len], i)
    ensures EndsExactly(s[..len], i) ==> Scan(s, i, len) == Tokenise(s[..len], i)
    decreases |s| - i
  {
    hide TokenAt;
    NextInside(s, len, i);
    var n := Next(s, i);
    if n < len {
      ScanExact(s, n, len);
    } else if n == len {
      assert EndsExactly(s[..len], len);
    }
  }

  /** A script the reader takes: not empty, for the loop reads at least one opcode, and its
      walk ends on its last byte. */
  predicate Exact(sc: seq<byte>) {
    sc != [] && EndsExactly(sc, 0)
  }

  /** The cursor ends at the end of the script if and only if the reader takes it, and past
      it otherwise. */
  lemma ScanEndsIff(s: seq<byte>, len: nat)
    requires Scannable(s, 0, len) && len <= |s|
    ensures ScanEnd(s, 0, len) >= len
    ensures ScanEnd(s, 0, len) == len <==> Exact(s[..len])
    ensures Exact(s[..len]) ==> Scan(s, 0, len) == Tokenise(s[..len], 0)
  {
    if len > 0 {
      ScanExact(s, 0, len);
    }
  }

  lemma {:induction false} ExactIsScannable(s: seq<byte>, i: nat, len: nat)
    requires i < len <= |s| && EndsExactly(s[..len], i)
    ensures Scannable(s, i, len)
    decreases len - i
  {
    NextInside(s, len, i);
    if Next(s, i) < len {
      ExactIsScannable(s, Next(s, i), len);
    }
  }

  // ---------- reading integers ----------

  /** A little-endian integer read straight into memory. */
  method BtcUint(fp: File, n: nat) returns (v: nat)
    requires fp.pos + n <= |fp.data|
    modifies fp
    ensures fp.pos == old(fp.pos) + n && v == FromLE(fp.data[old(fp.pos)..fp.pos])
  {
    var b := fp.Fread(n);
    v := FromLE(b);
  }

  method BtcVarint(fp: File) returns (v: nat)
    requires fp.pos < |fp.data| && fp.pos + VarintSize(fp.data[fp.pos]) <= |fp.data|
    modifies fp
    ensures var (u, n) := UnpackVarint(fp.data[old(fp.pos)..]);
      v == u && fp.pos == old(fp.pos) + n
  {
    ghost var buf := fp.data[fp.pos..];
    UnpackIsLE(buf);
    var first := fp.Fread(1);
    assert first[0] == buf[0];
    var n := VarintSize(first[0]);
    if n == 1 {
      v := first[0];
    } else {
      v := BtcUint(fp, n - 1);
      assert fp.data[old(fp.pos) + 1..fp.pos] == buf[1..n];
    }
  }

  // ---------- reading scripts ----------

  method CpSigHexToStr(sigStr: array<char>, sigBuf: seq<byte>)
    requires sigStr.Length == 2 * |sigBuf| + 1
    modifies sigStr
    ensures sigStr[..2 * |sigBuf|] == ToHex(sigBuf) && sigStr[2 * |sigBuf|] == '\0'
  {
    hide ToHex;
    var i := 0;
    while i < |sigBuf|
      invariant 0 <= i <= |sigBuf| && sigStr[..2 * i] == ToHex(sigBuf)[..2 * i]
    {
      HexPair(sigBuf, i);
      sigStr[i * 2] := HexDigit(sigBuf[i] / 16);
      sigStr[i * 2 + 1] := HexDigit(sigBuf[i] % 16);
      assert sigStr[..2 * (i + 1)] == ToHex(sigBuf)[..2 * i] + [sigStr[2 * i], sigStr[2 * i + 1]];
      i := i + 1;
    }
    assert ToHex(sigBuf)[..2 * i] == ToHex(sigBuf);
    sigStr[|sigBuf| * 2] := '\0';
    assert sigStr[..2 * i] == ToHex(sigBuf);
  }

  lemma HexPair(s: seq<byte>, i: nat)
    requires i < |s|
    ensures ToHex(s)[..2 * (i + 1)] == ToHex(s)[..2 * i] + [HexDigit(s[i] / 16), HexDigit(s[i] % 16)]
  {
    var x := ToHex(s);
    hide ToHex;
    assert x[2 * i] == HexDigit(s[i] / 16) && x[2 * i + 1] == HexDigit(s[i] % 16);
  }

  /** The next `n` bytes as text. */
  method ReadHex(fp: File, n: nat) returns (hex: string)
    requires fp.pos + n <= |fp.data|
    modifies fp
    ensures fp.pos == old(fp.pos) + n && hex == ToHex(fp.data[old(fp.pos)..fp.pos])
  {
    var b := fp.Fread(n);
    var str := new char[2 * n + 1];
    CpSigHexToStr(str, b);
    hex := str[..2 * n];
  }

  lemma ScanUnfolds(s: seq<byte>, i: nat, len: nat)
    requires Scannable(s, i, len)
    ensures i < |s| && Next(s, i) <= |s| && |Scan(s, i, len)| >= 1
    ensures Next(s, i) < len ==> (
      Scannable(s, Next(s, i), len)
      && Scan(s, i, len) == [TokenAt(s, i)] + Scan(s, Next(s, i), len)
      && ScanEnd(s, i, len) == ScanEnd(s, Next(s, i), len))
    ensures Next(s, i) >= len ==> Scan(s, i, len) == [TokenAt(s, i)] && ScanEnd(s, i, len) == Next(s, i)
  {
  }

  /** One turn of the loop: an opcode and, for a push, its bytes. */
  method ReadToken(fp: File, ghost s: seq<byte>, ghost start: nat, i: nat) returns (t: Token, i': nat)
    requires fp.pos == start + i && start <= |fp.data| && s == fp.data[start..]
    requires i < |s| && Next(s, i) <= |s|
    modifies fp
    ensures t == TokenAt(s, i) && i' == Next(s, i) && fp.pos == start + i'
  {
    hide ToHex, BTC_SC_OPCODES;
    var b := fp.Fread(1);
    var opcode := b[0];
    i' := i + 1;
    if IsScNaConst(opcode) {
      var hex := ReadHex(fp, opcode);
      assert fp.data[start + i'..start + i' + opcode] == s[i'..i' + opcode];
      t := Data(hex);
      i' := i' + opcode;
    } else {
      t := TrOpcodeToName(opcode);
    }
  }

  /** The do-while loop over the opcodes; the entries go to an array of 100. */
  method BtcParsedScPbk(fp: File, len: nat) returns (tokens: seq<Token>)
    requires fp.pos <= |fp.data| && Scannable(fp.data[fp.pos..], 0, len)
    requires |Scan(fp.data[fp.pos..], 0, len)| <= PBK_STACK_SIZE
    modifies fp
    ensures tokens == Scan(fp.data[old(fp.pos)..], 0, len)
    ensures fp.pos == old(fp.pos) + ScanEnd(fp.data[old(fp.pos)..], 0, len)
  {
    hide TokenAt, Next, Scan, ScanEnd, Scannable;
    ScanUnfolds(fp.data[fp.pos..], 0, len);
    ghost var start, s := fp.pos, fp.data[fp.pos..];
    ghost var all, end := Scan(s, 0, len), ScanEnd(s, 0, len);
    var stack := new Token[PBK_STACK_SIZE](_ => NoFound);
    var t, i := ReadToken(fp, s, start, 0);
    stack[0] := t;
    var n := 1;
    assert stack[..1] == [t];
    while i < len
      invariant 1 <= n <= PBK_STACK_SIZE && fp.pos == start + i
      invariant i < len ==> Scannable(s, i, len) && |Scan(s, i, len)| >= 1
      invariant i < len ==> all == stack[..n] + Scan(s, i, len) && end == ScanEnd(s, i, len)
      invariant i >= len ==> all == stack[..n] && end == i
    {
      ScanUnfolds(s, i, len);
      ghost var front := stack[..n];
      t, i := ReadToken(fp, s, start, i);
      stack[n] := t;
      n := n + 1;
      assert stack[..n] == front + [t];
    }
    tokens := stack[..n];
  }

  // ---------- reading outputs ----------

  datatype TxOutRead = TxOutRead(value: nat, len: nat, scPbk: string, parsed: seq<Token>)

  /** The length read at offset p, and where its script starts. */
  function ScriptAt(data: seq<byte>, p: nat): (r: (nat, nat))
    requires p + 8 < |data| && p + 8 + VarintSize(data[p + 8]) <= |data|
    ensures r.1 <= |data|
  {
    var (len, n) := UnpackVarint(data[p + 8..]);
    (len, p + 8 + n)
  }

  /** What the reader looks at for one output lies in the file, and the entries fit. */
  predicate InFile(data: seq<byte>, p: nat) {
    p + 8 < |data| && p + 8 + VarintSize(data[p + 8]) <= |data| &&
    var (len, start) := ScriptAt(data, p);
    && start + len <= |data| && Scannable(data[start..], 0, len)
    && |Scan(data[start..], 0, len)| <= PBK_STACK_SIZE
  }

  /** The output read at offset p, from whatever bytes are there. */
  function ReadOne(data: seq<byte>, p: nat): TxOutRead
    requires InFile(data, p)
  {
    var (len, start) := ScriptAt(data, p);
    TxOutRead(FromLE(data[p..p + 8]), len, ToHex(data[start..start + len]), Scan(data[start..], 0, len))
  }

  /** Where reading it leaves the cursor. */
  function OneEnd(data: seq<byte>, p: nat): (e: nat)
    requires InFile(data, p)
    ensures e <= |data|
  {
    var (len, start) := ScriptAt(data, p);
    start + ScanEnd(data[start..], 0, len)
  }

  predicate AllInFile(data: seq<byte>, p: nat, count: nat)
    decreases count
  {
    count == 0 || (InFile(data, p) && AllInFile(data, OneEnd(data, p), count - 1))
  }

  function ReadAll(data: seq<byte>, p: nat, count: nat): (list: seq<TxOutRead>)
    requires AllInFile(data, p, count)
    ensures |list| == count
    decreases count
  {
    hide InFile, ReadOne, OneEnd;
    if count == 0 then [] else [ReadOne(data, p)] + ReadAll(data, OneEnd(data, p), count - 1)
  }

  function AllEnd(data: seq<byte>, p: nat, count: nat): nat
    requires AllInFile(data, p, count)
    decreases count
  {
    hide InFile, ReadOne, OneEnd;
    if count == 0 then p else AllEnd(data, OneEnd(data, p), count - 1)
  }

  /** One output: its script is read as text, the cursor goes back over it, and it is read
      again as tokens. */
  method ReadTxOut(fp: File) returns (r: TxOutRead)
    requires InFile(fp.data, fp.pos)
    modifies fp
    ensures r == ReadOne(fp.data, old(fp.pos)) && fp.pos == OneEnd(fp.data, old(fp.pos))
  {
    hide FromLE, ToHex, UnpackVarint, Scan, ScanEnd, Scannable;
    var value := BtcUint(fp, 8);
    var len := BtcVarint(fp);
    var scPbk := ReadHex(fp, len);
    fp.Fseek(-(len as int));
    var parsed := BtcParsedScPbk(fp, len);
    r := TxOutRead(value, len, scPbk, parsed);
  }

  method ReadTxOutList(fp: File, count: nat) returns (list: seq<TxOutRead>)
    requires AllInFile(fp.data, fp.pos, count)
    modifies fp
    ensures list == ReadAll(fp.data, old(fp.pos), count) && fp.pos == AllEnd(fp.data, old(fp.pos), count)
  {
    hide InFile, ReadOne, OneEnd;
    list := [];
    for i := 0 to count
      invariant AllInFile(fp.data, fp.pos, count - i)
      invariant ReadAll(fp.data, old(fp.pos), count) == list + ReadAll(fp.data, fp.pos, count - i)
      invariant AllEnd(fp.data, old(fp.pos), count) == AllEnd(fp.data, fp.pos, count - i)
    {
      var r := ReadTxOut(fp);
      list := list + [r];
    }
  }

  // ---------- reading back what was serialised ----------

  lemma OutputSlices(t: TxOut, rest: seq<byte>, data: seq<byte>, p: nat)
    requires ValidOut(t) && p <= |data| && data[p..] == SeriTxOut(t) + rest
    ensures var v := |PackVarint(|t.sc|)|;
      && p + 8 + v + |t.sc| <= |data| && |SeriTxOut(t)| == 8 + v + |t.sc|
      && data[p..p + 8] == LE(8, t.value)
      && data[p + 8..] == PackVarint(|t.sc|) + (t.sc + rest)
      && data[p + 8 + v..] == t.sc + rest
  {
    hide LE, PackVarint;
    var a, v := LE(8, t.value), PackVarint(|t.sc|);
    assert data[p..] == a + (v + (t.sc + rest));
    assert data[p..p + 8] == data[p..][..8] && data[p + 8..] == data[p..][8..];
    assert data[p + 8 + |v|..] == data[p + 8..][|v|..];
  }

  /** Where the script of a serialised output is found. */
  lemma ScriptFound(t: TxOut, rest: seq<byte>, data: seq<byte>, p: nat)
    requires ValidOut(t) && p <= |data| && data[p..] == SeriTxOut(t) + rest
    ensures p + 8 < |data| && p + 8 + VarintSize(data[p + 8]) <= |data|
    ensures ScriptAt(data, p) == (|t.sc|, p + |SeriTxOut(t)| - |t.sc|)
    ensures var start := p + |SeriTxOut(t)| - |t.sc|;
      start + |t.sc| <= |data| && data[start..] == t.sc + rest && FromLE(data[p..p + 8]) == t.value
  {
    hide LE, PackVarint, FromLE, UnpackVarint, SeriTxOut;
    Pow256Values();
    OutputSlices(t, rest, data, p);
    FromLEofLESmall(8, t.value);
    VarintRoundTrip(|t.sc|, t.sc + rest);
    assert data[p + 8] == data[p + 8..][0];
  }

  /** Value, length and text of a serialised output always come back. The cursor is left just
      past it if and only if its script is taken, further on otherwise. */
  lemma OneReadBack(t: TxOut, rest: seq<byte>, data: seq<byte>, p: nat)
    requires ValidOut(t) && p <= |data| && data[p..] == SeriTxOut(t) + rest && InFile(data, p)
    ensures var r := ReadOne(data, p); r.value == t.value && r.len == |t.sc| && r.scPbk == ToHex(t.sc)
    ensures Exact(t.sc) ==> ReadOne(data, p).parsed == Tokenise(t.sc, 0)
    ensures OneEnd(data, p) >= p + |SeriTxOut(t)|
    ensures OneEnd(data, p) == p + |SeriTxOut(t)| <==> Exact(t.sc)
  {
    hide FromLE, ToHex, UnpackVarint, SeriTxOut, Scan, ScanEnd, Scannable, ScriptAt, Exact;
    ScriptFound(t, rest, data, p);
    var start := p + |SeriTxOut(t)| - |t.sc|;
    assert (t.sc + rest)[..|t.sc|] == t.sc;
    assert data[start..start + |t.sc|] == data[start..][..|t.sc|];
    ScanEndsIff(data[start..], |t.sc|);
  }

  /** An encoding is never shorter than the one that is written. */
  lemma ShortestIsWritten(buf: seq<byte>)
    requires |buf| >= 1 && |buf| >= VarintSize(buf[0])
    ensures var (v, n) := UnpackVarint(buf); |PackVarint(v)| <= n
  {
    UnpackIsLE(buf);
    var n := VarintSize(buf[0]);
    if n > 1 {
      LEofFromLE(buf[1..n]);
      Pow256Values();
    }
  }

  /** Bytes a serialised output with a script of this length takes. */
  function OutSize(len: nat): nat {
    8 + |PackVarint(len)| + len
  }

  lemma OneEndBeyond(data: seq<byte>, p: nat)
    requires InFile(data, p)
    ensures OneEnd(data, p) >= p + OutSize(ReadOne(data, p).len)
  {
    hide PackVarint, UnpackVarint, FromLE, ToHex, Scan;
    ShortestIsWritten(data[p + 8..]);
  }

  /** Reading lists with the right lengths takes at least their bytes, wherever it starts. */
  lemma {:induction false} AllEndBeyond(outs: seq<TxOut>, data: seq<byte>, p: nat)
    requires AllInFile(data, p, |outs|) && LensBack(outs, ReadAll(data, p, |outs|))
    ensures AllEnd(data, p, |outs|) >= p + |SeriTxOutList(outs)|
    decreases |outs|
  {
    hide InFile, ReadOne, OneEnd, LensBack, PackVarint, SeriTxOut, OutSize;
    if outs != [] {
      var e := OneEnd(data, p);
      var list := ReadAll(data, p, |outs|);
      assert list == [ReadOne(data, p)] + ReadAll(data, e, |outs| - 1);
      OneEndBeyond(data, p);
      ListShift(outs, list);
      AllEndBeyond(outs[1..], data, e);
      OutSizeIs(outs[0]);
    }
  }

  lemma OutSizeIs(t: TxOut)
    ensures |SeriTxOut(t)| == OutSize(|t.sc|)
  {
  }

  predicate LensBack(outs: seq<TxOut>, list: seq<TxOutRead>) {
    |outs| == |list| && forall i :: 0 <= i < |outs| ==> list[i].len == |outs[i].sc|
  }

  /** An output with its script as text and as tokens. */
  function Expected(t: TxOut): TxOutRead
    requires Exact(t.sc)
  {
    TxOutRead(t.value, |t.sc|, ToHex(t.sc), Tokenise(t.sc, 0))
  }

  predicate AllExact(outs: seq<TxOut>) {
    forall i :: 0 <= i < |outs| ==> Exact(outs[i].sc)
  }

  /** For any list of outputs that was serialised: the right lengths come back and the cursor
      is just past the list if and only if every script is taken. */
  lemma {:induction false} ListReadBackIff(outs: seq<TxOut>, trailer: seq<byte>, data: seq<byte>, p: nat)
    requires ValidOuts(outs) && p <= |data| && data[p..] == SeriTxOutList(outs) + trailer
    requires AllInFile(data, p, |outs|)
    ensures AllExact(outs) <==>
      LensBack(outs, ReadAll(data, p, |outs|)) && AllEnd(data, p, |outs|) == p + |SeriTxOutList(outs)|
    decreases |outs|
  {
    hide SeriTxOut, SeriTxOutList, ValidOuts, InFile, ReadOne, OneEnd, Exact, LensBack, AllExact;
    if outs == [] {
      NoneWrong();
    } else {
      SeriStep(outs);
      var t, e := outs[0], OneEnd(data, p);
      var rest := SeriTxOutList(outs[1..]) + trailer;
      Assoc(SeriTxOut(t), SeriTxOutList(outs[1..]), trailer);
      OneReadBack(t, rest, data, p);
      var list, tail := ReadAll(data, p, |outs|), ReadAll(data, e, |outs| - 1);
      assert list == [ReadOne(data, p)] + tail;
      ListShift(outs, list);
      if Exact(t.sc) {
        assert data[e..] == data[p..][|SeriTxOut(t)|..] == rest;
        ListReadBackIff(outs[1..], trailer, data, e);
      } else if LensBack(outs[1..], tail) {
        AllEndBeyond(outs[1..], data, e);
      }
    }
  }

  lemma NoneWrong()
    ensures AllExact([]) && LensBack([], []) && SeriTxOutList([]) == []
  {
  }

  lemma SeriStep(outs: seq<TxOut>)
    requires outs != []
    ensures SeriTxOutList(outs) == SeriTxOut(outs[0]) + SeriTxOutList(outs[1..])
    ensures ValidOuts(outs) ==> ValidOut(outs[0]) && ValidOuts(outs[1..])
  {
  }

  lemma ListShift(outs: seq<TxOut>, list: seq<TxOutRead>)
    requires |outs| == |list| >= 1
    ensures AllExact(outs) <==> Exact(outs[0].sc) && AllExact(outs[1..])
    ensures LensBack(outs, list) <==> list[0].len == |outs[0].sc| && LensBack(outs[1..], list[1..])
  {
    hide Exact;
    assert forall i :: 0 < i < |outs| ==> outs[i] == outs[1..][i - 1] && list[i] == list[1..][i - 1];
  }

  /** And then everything comes back: values, lengths, texts and tokens. */
  lemma {:induction false} ListReadBack(outs: seq<TxOut>, trailer: seq<byte>, data: seq<byte>, p: nat)
    requires ValidOuts(outs) && p <= |data| && data[p..] == SeriTxOutList(outs) + trailer
    requires AllExact(outs)
    requires forall i :: 0 <= i < |outs| ==> |Tokenise(outs[i].sc, 0)| <= 100
    ensures AllInFile(data, p, |outs|) && AllEnd(data, p, |outs|) == p + |SeriTxOutList(outs)|
    ensures forall i :: 0 <= i < |outs| ==> ReadAll(data, p, |outs|)[i] == Expected(outs[i])
    decreases |outs|
  {
    hide SeriTxOut, InFile, ReadOne, OneEnd, Exact, Tokenise, ToHex;
    if outs != [] {
      var t := outs[0];
      var rest := SeriTxOutList(outs[1..]) + trailer;
      Assoc(SeriTxOut(t), SeriTxOutList(outs[1..]), trailer);
      ExactInFile(t, rest, data, p);
      OneReadBack(t, rest, data, p);
      var e := OneEnd(data, p);
      assert data[e..] == data[p..][|SeriTxOut(t)|..] == rest;
      assert forall i :: 0 <= i < |outs[1..]| ==> outs[1..][i] == outs[i + 1];
      ListReadBack(outs[1..], trailer, data, e);
      ExpectedOf(t, ReadOne(data, p));
      assert ReadAll(data, p, |outs|) == [ReadOne(data, p)] + ReadAll(data, e, |outs| - 1);
    }
  }

  /** A concrete case: an output with an empty script, followed by one byte of something else.
      It takes 9 bytes, and the cursor ends at 10. */
  lemma EmptyScriptMisplaces(v: nat)
    requires v < TWO64
    ensures var t := TxOut(v, []); var data := SeriTxOut(t) + [0xac];
      |SeriTxOut(t)| == 9 && InFile(data, 0) && OneEnd(data, 0) == 10
  {
    var t := TxOut(v, []);
    var b: seq<byte> := [0xac];
    var data := SeriTxOut(t) + b;
    hide SeriTxOut, ScriptAt, FromLE, BTC_SC_OPCODES, PackVarint, UnpackVarint, LE;
    TxOutBytes(t);
    assert data[0..] == data;
    ScriptFound(t, b, data, 0);
    assert data[9..] == [] + b == b;
    assert Next(b, 0) == 1;
  }

  lemma ExpectedOf(t: TxOut, r: TxOutRead)
    requires Exact(t.sc) && r.value == t.value && r.len == |t.sc|
    requires r.scPbk == ToHex(t.sc) && r.parsed == Tokenise(t.sc, 0)
    ensures r == Expected(t)
  {
  }

  lemma ExactInFile(t: TxOut, rest: seq<byte>, data: seq<byte>, p: nat)
    requires ValidOut(t) && p <= |data| && data[p..] == SeriTxOut(t) + rest
    requires Exact(t.sc) && |Tokenise(t.sc, 0)| <= PBK_STACK_SIZE
    ensures InFile(data, p)
  {
    hide SeriTxOut, ScriptAt, Tokenise, FromLE;
    ScriptFound(t, rest, data, p);
    assert (t.sc + rest)[..|t.sc|] == t.sc;
    ExactIsScannable(t.sc + rest, 0, |t.sc|);
    ScanExact(t.sc + rest, 0, |t.sc|);
  }
}
