/** Protocol messages: packing and unpacking in btc_message.c, receiving in kyk_socket.c. */
module Message {
  import opened Bytes
  import opened KykUtils
  import opened BeejPack

  const PL_BUF_SIZE: nat := 1024
  const HEADER_LEN: nat := 24

  type Cmd = s: seq<byte> | |s| == 12 witness seq(12, _ => 0)
  type Checksum = s: seq<byte> | |s| == 4 witness seq(4, _ => 0)

  datatype Msg = Msg(magic: nat, cmd: Cmd, checksum: Checksum, payload: seq<byte>)

  /** The message fits the 1024-byte bodies it is packed into and received in. */
  predicate Valid(m: Msg) {
    m.magic < TWO32 && HEADER_LEN + |m.payload| <= PL_BUF_SIZE
  }

  function MsgBytes(m: Msg): seq<byte> {
    LE(4, m.magic) + m.cmd + LE(4, |m.payload|) + m.checksum + m.payload
  }

  /** The payload length a received header announces. */
  function PldLen(b: seq<byte>): nat
    requires |b| >= 20
  {
    FromLE(b[16..20])
  }

  /** The message at the front of a body that holds all of it. */
  function UnpackMsg(b: seq<byte>): Msg
    requires |b| >= HEADER_LEN && |b| >= HEADER_LEN + PldLen(b)
  {
    Msg(FromLE(b[..4]), b[4..16], b[20..24], b[24..24 + PldLen(b)])
  }

  /** The bytes in front of the payload. */
  lemma MsgBytesAre(m: Msg)
    ensures var g, n := m.magic, |m.payload|;
      MsgBytes(m) == [g % 256, g / 0x100 % 256, g / 0x1_0000 % 256, g / 0x100_0000 % 256] + m.cmd
        + [n % 256, n / 0x100 % 256, n / 0x1_0000 % 256, n / 0x100_0000 % 256] + m.checksum + m.payload
  {
    hide LE;
    LEBytes4(m.magic);
    LEBytes4(|m.payload|);
  }

  lemma MsgSlices(m: Msg, rest: seq<byte>)
    ensures var b := MsgBytes(m) + rest;
      && |MsgBytes(m)| == 24 + |m.payload|
      && b[..4] == LE(4, m.magic) && b[4..16] == m.cmd && b[16..20] == LE(4, |m.payload|)
      && b[20..24] == m.checksum && b[24..24 + |m.payload|] == m.payload
  {
    hide LE;
  }

  /** Unpacking recovers the message, whatever follows it in the body. */
  lemma UnpackOfPack(m: Msg, rest: seq<byte>)
    requires Valid(m)
    ensures var b := MsgBytes(m) + rest;
      |b| >= HEADER_LEN && PldLen(b) == |m.payload| && |b| >= HEADER_LEN + PldLen(b) && UnpackMsg(b) == m
  {
    hide LE, FromLE, MsgBytes;
    MsgSlices(m, rest);
    Pow256Values();
    FromLEofLESmall(4, m.magic);
    FromLEofLESmall(4, |m.payload|);
  }

  method PackBtcMessage(body: array<byte>, m: Msg) returns (len: nat)
    requires Valid(m) && body.Length == PL_BUF_SIZE
    modifies body
    ensures len == |MsgBytes(m)| && body[..] == Splice(old(body[..]), 0, MsgBytes(m))
  {
    hide Splice, LE;
    ghost var was := body[..];
    var p := 0;
    var size := PackL(body, p, m.magic);
    p := p + size;
    ghost var done := LE(4, m.magic);

    Memcpy(body, p, m.cmd);
    p := p + 12;
    SpliceSplice(was, 0, done, m.cmd);
    done := done + m.cmd;

    size := PackL(body, p, |m.payload|);
    p := p + size;
    SpliceSplice(was, 0, done, LE(4, |m.payload|));
    done := done + LE(4, |m.payload|);

    Memcpy(body, p, m.checksum);
    p := p + 4;
    SpliceSplice(was, 0, done, m.checksum);
    done := done + m.checksum;

    Memcpy(body, p, m.payload);
    p := p + |m.payload|;
    SpliceSplice(was, 0, done, m.payload);
    len := p;
  }

  method UnpackRespBuf(body: seq<byte>) returns (m: Msg)
    requires |body| >= HEADER_LEN && |body| >= HEADER_LEN + PldLen(body) && PldLen(body) <= PL_BUF_SIZE
    ensures m == UnpackMsg(body)
  {
    var bptr := 0;
    var magic := UnpackL(body[bptr..]);
    assert body[0..][..4] == body[..4];
    bptr := bptr + 4;
    var cmd := body[bptr..bptr + 12];
    bptr := bptr + 12;
    var len := UnpackL(body[bptr..]);
    assert body[16..][..4] == body[16..20];
    bptr := bptr + 4;
    var checksum := body[bptr..bptr + 4];
    bptr := bptr + 4;
    var buf := new byte[PL_BUF_SIZE];
    Memcpy(buf, 0, body[bptr..bptr + len]);
    assert buf[..len] == body[bptr..bptr + len];
    m := Msg(magic, cmd, checksum, buf[..len]);
  }

  // ---------- receiving ----------

  /** A connected socket: what the network has ready for each call of recv, a piece at a time;
      an empty piece makes a call return 0, and when no piece is left calls fail. */
  class Socket {
    var ready: seq<seq<byte>>

    constructor (ready: seq<seq<byte>>)
      ensures this.ready == ready
    {
      this.ready := ready;
    }

    /** `recv` with room for n bytes: what does not fit stays ready. */
    method Recv(n: nat) returns (i: int, chunk: seq<byte>)
      modifies this
      ensures i == -1 <==> old(ready) == []
      ensures i == -1 ==> ready == [] && chunk == []
      ensures i != -1 ==> i == |chunk| <= n
      ensures i != -1 ==> Chop(old(ready), n) == [chunk] + Chop(ready, n) || n == 0
      ensures i != -1 && n >= 1 ==> Weight(ready) < Weight(old(ready))
    {
      if ready == [] {
        return -1, [];
      }
      var first := ready[0];
      if |first| <= n {
        chunk, ready := first, ready[1..];
      } else {
        chunk, ready := first[..n], [first[n..]] + ready[1..];
        assert ready[1..] == old(ready)[1..];
      }
      i := |chunk|;
    }
  }

  function Weight(pieces: seq<seq<byte>>): nat {
    if pieces == [] then 0 else |pieces[0]| + 1 + Weight(pieces[1..])
  }

  /** The chunks that calls of recv with room for n bytes deliver. */
  function Chop(pieces: seq<seq<byte>>, n: nat): seq<seq<byte>>
    decreases Weight(pieces)
  {
    if pieces == [] || n == 0 then []
    else if |pieces[0]| <= n then [pieces[0]] + Chop(pieces[1..], n)
    else
      var left := [pieces[0][n..]] + pieces[1..];
      assert left[1..] == pieces[1..];
      [pieces[0][..n]] + Chop(left, n)
  }

  /** However small the room, no byte is lost or reordered. */
  lemma {:induction false} JoinChop(pieces: seq<seq<byte>>, n: nat)
    requires n >= 1
    ensures Join(Chop(pieces, n)) == Join(pieces)
    decreases Weight(pieces)
  {
    if pieces != [] {
      var first := pieces[0];
      if |first| <= n {
        JoinChop(pieces[1..], n);
      } else {
        var left := [first[n..]] + pieces[1..];
        assert left[1..] == pieces[1..];
        JoinChop(left, n);
        Assoc(first[..n], first[n..], Join(pieces[1..]));
        assert first[..n] + first[n..] == first;
      }
    }
  }

  /** The bytes received are a whole message by their own announcement. */
  predicate Enough(b: seq<byte>) {
    |b| >= HEADER_LEN + (if |b| >= 20 then PldLen(b) else 0)
  }

  /** All bytes taken, and whether they were enough before the connection broke. */
  datatype Received = Received(bytes: seq<byte>, ok: bool)

  /** Chunks are taken one by one until they are enough; recv fails after the last. */
  function Receive(chunks: seq<seq<byte>>, got: seq<byte>): Received {
    if chunks == [] then Received(got, false)
    else
      var b := got + chunks[0];
      if Enough(b) then Received(b, true) else Receive(chunks[1..], b)
  }

  function Join(chunks: seq<seq<byte>>): seq<byte> {
    if chunks == [] then [] else chunks[0] + Join(chunks[1..])
  }

  /** On the bytes of a message, enough is exactly its length. */
  lemma EnoughIff(m: Msg, rest: seq<byte>, b: seq<byte>)
    requires Valid(m) && b <= MsgBytes(m) + rest
    ensures |MsgBytes(m)| == 24 + |m.payload| && (Enough(b) <==> |b| >= |MsgBytes(m)|)
  {
    hide MsgBytes, FromLE;
    UnpackOfPack(m, rest);
    MsgSlices(m, rest);
    if |b| >= 20 {
      assert b[16..20] == (MsgBytes(m) + rest)[16..20];
    }
  }

  /** What is received of a stream that starts with a message, in any chunks: it ends at the
      first chunk boundary at or past the end of the message, or fails if there is none. */
  lemma {:induction false} ReceiveFirstBoundary(m: Msg, rest: seq<byte>, chunks: seq<seq<byte>>, got: seq<byte>)
    returns (k: nat)
    requires Valid(m) && got + Join(chunks) <= MsgBytes(m) + rest && |got| < |MsgBytes(m)|
    ensures k <= |chunks| && Receive(chunks, got).bytes == got + Join(chunks[..k])
    ensures Receive(chunks, got).ok <==> |got + Join(chunks)| >= |MsgBytes(m)|
    ensures if Receive(chunks, got).ok
      then k >= 1 && |got + Join(chunks[..k - 1])| < |MsgBytes(m)| <= |got + Join(chunks[..k])|
      else k == |chunks|
    decreases |chunks|
  {
    hide MsgBytes, Enough;
    if chunks == [] {
      k := 0;
      assert got + Join(chunks[..0]) == got;
    } else {
      var b := got + chunks[0];
      Assoc(got, chunks[0], Join(chunks[1..]));
      assert b <= MsgBytes(m) + rest;
      EnoughIff(m, rest, b);
      if Enough(b) {
        k := 1;
        assert chunks[..1][1..] == [] && chunks[..0] == [] && Join(chunks[..1]) == chunks[0] + [];
      } else {
        var j := ReceiveFirstBoundary(m, rest, chunks[1..], b);
        k := j + 1;
        JoinMore(got, chunks, j);
        if j >= 1 {
          JoinMore(got, chunks, j - 1);
        }
      }
    }
  }

  lemma JoinMore(got: seq<byte>, chunks: seq<seq<byte>>, j: nat)
    requires chunks != [] && j < |chunks|
    ensures got + chunks[0] + Join(chunks[1..][..j]) == got + Join(chunks[..j + 1])
  {
    assert chunks[..j + 1][1..] == chunks[1..][..j];
    Assoc(got, chunks[0], Join(chunks[1..][..j]));
  }

  /** Framing does not depend on chunking: a message alone in the stream is received whole,
      with its length, and unpacks to what was packed. */
  lemma AnyChunking(m: Msg, chunks: seq<seq<byte>>)
    requires Valid(m) && Join(chunks) == MsgBytes(m)
    ensures Receive(chunks, []) == Received(MsgBytes(m), true)
    ensures var b := MsgBytes(m); |b| >= HEADER_LEN && PldLen(b) == |m.payload| && UnpackMsg(b) == m
  {
    hide MsgBytes;
    MsgSlices(m, []);
    UnpackOfPack(m, []);
    assert MsgBytes(m) + [] == MsgBytes(m) && [] + Join(chunks) == Join(chunks);
    var k := ReceiveFirstBoundary(m, [], chunks, []);
    JoinSplit(chunks, k);
    assert |Join(chunks[k..])| == 0;
    assert [] + Join(chunks[..k]) == Join(chunks[..k]) + Join(chunks[k..]);
  }

  lemma {:induction false} JoinSplit(chunks: seq<seq<byte>>, k: nat)
    requires k <= |chunks|
    ensures Join(chunks) == Join(chunks[..k]) + Join(chunks[k..])
  {
    if k == 0 {
      assert chunks[..0] == [] && chunks[0..] == chunks;
    } else {
      JoinSplit(chunks[1..], k - 1);
      assert chunks[..k][1..] == chunks[1..][..k - 1] && chunks[1..][k - 1..] == chunks[k..];
    }
  }

  /** With more behind the message, the bytes taken still unpack to it. */
  lemma MessageFirst(m: Msg, rest: seq<byte>, chunks: seq<seq<byte>>)
    requires Valid(m) && Join(chunks) == MsgBytes(m) + rest
    ensures var r := Receive(chunks, []);
      r.ok && |r.bytes| >= HEADER_LEN && PldLen(r.bytes) == |m.payload|
      && |r.bytes| >= HEADER_LEN + PldLen(r.bytes) && UnpackMsg(r.bytes) == m
  {
    hide MsgBytes, UnpackMsg, PldLen, Receive, Join, Chop;
    MsgSlices(m, rest);
    assert [] + Join(chunks) == Join(chunks);
    var k := ReceiveFirstBoundary(m, rest, chunks, []);
    JoinSplit(chunks, k);
    var b, n := Receive(chunks, []).bytes, |MsgBytes(m)|;
    assert b == [] + Join(chunks[..k]) == Join(chunks[..k]);
    assert b == (MsgBytes(m) + rest)[..|b|] == MsgBytes(m) + b[n..];
    UnpackOfPack(m, b[n..]);
  }

  /** The receive loop: the number of bytes taken and the announced payload length, or -1 when
      recv fails first. */
  method KykRecvBtcMsg(sock: Socket, body: array<byte>, bufLen: nat) returns (ret: int, pldLen: nat)
    requires bufLen >= 1 && |Receive(Chop(sock.ready, bufLen), []).bytes| <= body.Length
    modifies sock, body
    ensures var r := Receive(Chop(old(sock.ready), bufLen), []);
      && (ret == if r.ok then |r.bytes| else -1)
      && body[..] == Splice(old(body[..]), 0, r.bytes)
      && (r.ok ==> Enough(r.bytes) && |r.bytes| >= HEADER_LEN && pldLen == PldLen(r.bytes))
  {
    hide Splice, FromLE, Chop, Weight;
    var recvSize, pldSize, msgSize, pldFlag := 0, 0, 24, 1;
    ghost var was, got := body[..], [];
    ghost var all := Receive(Chop(sock.ready, bufLen), []);
    SpliceEmpty(was, 0);
    while true
      invariant recvSize == |got| <= |was| && body[..] == Splice(was, 0, got)
      invariant all == Receive(Chop(sock.ready, bufLen), got)
      invariant pldFlag == 1 ==> pldSize == 0 && recvSize < 20
      invariant pldFlag != 1 ==> recvSize >= 20 && pldSize == PldLen(got)
      invariant recvSize < pldSize + msgSize
      decreases Weight(sock.ready)
    {
      ghost var before, chunks := got, Chop(sock.ready, bufLen);
      NothingChopped(bufLen);
      var i, chunk := sock.Recv(bufLen);
      if i == -1 {
        break;
      }
      got := got + chunk;
      assert chunks[0] == chunk && chunks[1..] == Chop(sock.ready, bufLen);
      ReceiveGrows(Chop(sock.ready, bufLen), got);
      Memcpy(body, recvSize, chunk);
      SpliceSplice(was, 0, before, chunk);
      recvSize := recvSize + i;
      if recvSize >= 20 && pldFlag == 1 {
        SpliceKeeps(was, got);
        pldSize := ReadPldLen(body[..recvSize], 16);
        pldFlag := 0;
      } else if pldFlag != 1 {
        assert got[16..20] == before[16..20];
      }
      if recvSize >= pldSize + msgSize {
        break;
      }
    }
    if recvSize < pldSize + msgSize {
      ret := -1;
    } else {
      ret := recvSize;
    }
    pldLen := pldSize;
  }

  lemma NothingChopped(n: nat)
    ensures Chop([], n) == []
  {
  }

  /** The whole way: a packed message, delivered by the network in any pieces and taken with
      any room, fills the body with itself and unpacks to what was packed. */
  lemma AnyDelivery(m: Msg, pieces: seq<seq<byte>>, bufLen: nat)
    requires m.magic < 0x1_0000_0000 && |m.payload| <= 1000
    requires Join(pieces) == MsgBytes(m) && bufLen >= 1
    ensures Receive(Chop(pieces, bufLen), []) == Received(MsgBytes(m), true)
    ensures var b := MsgBytes(m); |b| >= HEADER_LEN && PldLen(b) == |m.payload| && UnpackMsg(b) == m
  {
    JoinChop(pieces, bufLen);
    AnyChunking(m, Chop(pieces, bufLen));
  }

  /** No byte taken is given back. */
  lemma {:induction false} ReceiveGrows(chunks: seq<seq<byte>>, got: seq<byte>)
    ensures |Receive(chunks, got).bytes| >= |got|
    decreases |chunks|
  {
    if chunks != [] {
      ReceiveGrows(chunks[1..], got + chunks[0]);
    }
  }

  lemma SpliceKeeps(was: seq<byte>, x: seq<byte>)
    requires |x| <= |was|
    ensures Splice(was, 0, x)[..|x|] == x
  {
  }

  method ReadPldLen(buf: seq<byte>, inx: nat) returns (len: nat)
    requires inx + 4 <= |buf|
    ensures len == FromLE(buf[inx..inx + 4])
  {
    len := UnpackL(buf[inx..]);
    assert buf[inx..][..4] == buf[inx..inx + 4];
  }
}
