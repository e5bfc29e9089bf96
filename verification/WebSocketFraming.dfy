/** extmod/modwebsocket.c: the resumable frame reader and the writer, as functions on values.
    Sections 5.2 and 5.3 of RFC 6455 define the frames and the masking. */
module WebSocketFraming {

  type Byte = b: int | 0 <= b < 256

  const FRAME_CONT: Byte := 0
  const FRAME_TXT: Byte := 1
  const FRAME_CLOSE: Byte := 8
  const BLOCKING_WRITE: Byte := 0x80

  // ---------- bits ----------

  /** The opcode: the low four bits. */
  function Opcode(b: Byte): Byte {
    b % 16
  }

  /** The FIN bit of the first byte, the mask bit of the second. */
  predicate HighBit(b: Byte) {
    b >= 0x80
  }

  /** The short length of a frame. */
  function Low7(b: Byte): Byte {
    b % 0x80
  }

  /** The low n bits of the exclusive or. */
  function XorBits(a: nat, b: nat, n: nat): (r: nat)
  {
    if n == 0 then 0 else (if a % 2 == b % 2 then 0 else 1) + 2 * XorBits(a / 2, b / 2, n - 1)
  }

  function Xor(a: Byte, b: Byte): Byte {
    XorRange(a, b, 8);
    XorBits(a, b, 8)
  }

  function Pow2(n: nat): nat {
    if n == 0 then 1 else 2 * Pow2(n - 1)
  }

  lemma {:induction false} XorRange(a: nat, b: nat, n: nat)
    ensures XorBits(a, b, n) < Pow2(n)
    ensures Pow2(8) == 256
  {
    if n > 0 {
      XorRange(a / 2, b / 2, n - 1);
    }
  }

  // ---------- the socket ----------

  /** What one call of the socket's read can do: deliver at most that many bytes, or fail. */
  datatype Chunk = Avail(n: nat) | Failure(errno: int)

  /** The bytes still to come, how the coming calls of read split them, and what was written. When the
      schedule is used up, read returns 0. */
  datatype Net = Net(bytes: seq<Byte>, schedule: seq<Chunk>, sent: seq<Byte>)

  const EAGAIN := 11

  /** What websocket_read returns: a byte count with the bytes, 0, MP_STREAM_ERROR with an errno; or one of
      its assertions failed. */
  datatype Outcome = Data(bytes: seq<Byte>) | Eof | Error(errno: int) | AssertionFailed

  function Min(a: nat, b: nat): nat {
    if a <= b then a else b
  }

  function NetRead(net: Net, size: nat): (r: (Outcome, Net))
    ensures r.0.Data? ==> 0 < |r.0.bytes| <= size && net.bytes == r.0.bytes + r.1.bytes
    ensures !r.0.Data? ==> r.1.bytes == net.bytes
    ensures !r.0.AssertionFailed? && r.1.sent == net.sent
  {
    if net.schedule == [] then
      (Eof, net)
    else
      var rest := net.(schedule := net.schedule[1..]);
      match net.schedule[0]
      case Failure(errno) => (Error(errno), rest)
      case Avail(n) =>
        var m := Min(n, Min(size, |net.bytes|));
        if m == 0 then (Eof, rest) else (Data(net.bytes[..m]), rest.(bytes := net.bytes[m..]))
  }

  // ---------- the reader ----------

  datatype Mode = FrameHeader | FrameOpt | Payload | Control

  /** The fields of mp_obj_websocket_t. */
  datatype Reader = Reader(
    msgSz: nat,
    mask: seq<Byte>,
    state: Mode,
    toRecv: nat,
    maskPos: nat,
    bufPos: nat,
    buf: seq<Byte>,
    opts: Byte,
    wsFlags: Byte,
    lastFlags: Byte)
  {
    /** While a header is being received there is something left to receive, and it fits into buf. */
    predicate Valid() {
      && |mask| == 4 && |buf| == 6 && maskPos < 256 && bufPos + toRecv <= 6
      && (state.FrameHeader? ==> toRecv > 0 && bufPos + toRecv == 2)
      && (state.FrameOpt? ==> toRecv > 0 && (bufPos + toRecv == 2 || bufPos + toRecv == 4 || bufPos + toRecv == 6))
      && (state.Payload? || state.Control? ==> toRecv == 0)
    }
  }

  datatype Socket = Socket(r: Reader, net: Net)

  datatype Progress = Go(s: Socket) | Return(outcome: Outcome, s: Socket)

  /** Lines 83-94: receive what is missing of a header. */
  function Receive(s: Socket): (p: Progress)
    requires s.r.Valid()
    ensures p.Go? && s.r.toRecv != 0 ==> |p.s.net.bytes| < |s.net.bytes|
    ensures p.Go? ==> p.s.r == s.r.(buf := p.s.r.buf, bufPos := s.r.bufPos + s.r.toRecv, toRecv := 0) && |p.s.r.buf| == 6
    ensures p.Return? ==> p.s.r.Valid()
    ensures |p.s.net.bytes| <= |s.net.bytes|
  {
    if s.r.toRecv == 0 then
      Go(s)
    else
      var (got, net) := NetRead(s.net, s.r.toRecv);
      if !got.Data? then
        Return(got, Socket(s.r, net))
      else
        var n, at := |got.bytes|, s.r.bufPos;
        var r := s.r.(buf := s.r.buf[..at] + got.bytes + s.r.buf[at + n..], bufPos := at + n, toRecv := s.r.toRecv - n);
        if r.toRecv != 0 then Return(Error(EAGAIN), Socket(r, net)) else Go(Socket(r, net))
  }

  predicate IsControl(flags: Byte) {
    Opcode(flags) >= FRAME_CLOSE
  }

  /** Lines 97-146: the two header bytes are in buf. */
  function HeaderRead(r: Reader): (q: Reader)
    requires |r.buf| == 6
    ensures r.maskPos < 256 ==> q.Valid()
  {
    var sz: nat := Low7(r.buf[1]);
    var toRecv := (if sz == 126 then 2 else 0) + (if HighBit(r.buf[1]) then 4 else 0);
    var flags := if Opcode(r.buf[0]) == FRAME_CONT
                 then Opcode(r.wsFlags) + (r.buf[0] - Opcode(r.buf[0])) else r.buf[0];
    r.(lastFlags := r.buf[0], wsFlags := flags, mask := [0, 0, 0, 0],
       bufPos := 0, toRecv := toRecv, msgSz := sz,
       state := if toRecv != 0 then FrameOpt else if IsControl(r.buf[0]) then Control else Payload)
  }

  predicate HeaderAccepted(r: Reader)
    requires |r.buf| == 6
  {
    HighBit(r.buf[0]) && Low7(r.buf[1]) != 127
  }

  /** Lines 148-164: the optional header fields are in buf. */
  function OptRead(r: Reader): (q: Reader)
    requires |r.buf| == 6 && |r.mask| == 4 && r.maskPos < 256 && r.toRecv == 0
    requires r.bufPos == 2 || r.bufPos == 4 || r.bufPos == 6
    ensures q.Valid()
  {
    r.(msgSz := if r.bufPos % 4 == 2 then r.buf[0] * 256 + r.buf[1] else r.msgSz,
       mask := if r.bufPos >= 4 then r.buf[r.bufPos - 4..r.bufPos] else r.mask,
       bufPos := 0,
       state := if IsControl(r.lastFlags) then Control else Payload)
  }

  /** The bytes of `data` with the mask applied from position `pos` of the mask on. */
  function Masked(data: seq<Byte>, mask: seq<Byte>, pos: nat): (r: seq<Byte>)
    requires |mask| == 4
    ensures |r| == |data|
  {
    seq(|data|, i requires 0 <= i < |data| => Xor(data[i], mask[(pos + i) % 4]))
  }

  /** Lines 188-193: ready for the next frame. */
  function FrameDone(r: Reader): (q: Reader)
    requires |r.buf| == 6 && |r.mask| == 4
    ensures q.Valid()
  {
    r.(state := FrameHeader, toRecv := 2, maskPos := 0, bufPos := 0)
  }

  /** The end of a frame, `out` being what this call has read of it. */
  function EndFrame(s: Socket, out: seq<Byte>): (p: Progress)
    requires s.r.Valid() && !s.r.state.FrameHeader? && !s.r.state.FrameOpt?
    ensures p.s.r == FrameDone(s.r) && p.s.net.bytes == s.net.bytes
  {
    var t := Socket(FrameDone(s.r), s.net);
    if s.r.state.Control? then
      if Opcode(s.r.lastFlags) == FRAME_CLOSE then
        Return(Eof, t.(net := t.net.(sent := t.net.sent + WriteBytes(t.r.opts, CLOSE_RESP))))
      else
        Go(t)
    else if out != [] then
      Return(Data(out), t)
    else
      Go(t)
  }

  /** Lines 180-212: `got` has been read. */
  function PieceRead(s: Socket, got: seq<Byte>): (p: Progress)
    requires s.r.Valid() && !s.r.state.FrameHeader? && !s.r.state.FrameOpt?
    requires 0 < |got| <= s.r.msgSz
    ensures p.s.r.Valid() && p.s.net.bytes == s.net.bytes
    ensures p.Go? ==> p.s.r.state.FrameHeader?
  {
    var n := |got|;
    var out := Masked(got, s.r.mask, s.r.maskPos);
    var r := s.r.(maskPos := (s.r.maskPos + n) % 256, msgSz := s.r.msgSz - n);
    if r.msgSz == 0 then EndFrame(Socket(r, s.net), out) else Return(Data(out), Socket(r, s.net))
  }

  /** Lines 166-215: payload of a data or control frame. */
  function PayloadRead(s: Socket, size: nat): (p: Progress)
    requires s.r.Valid() && !s.r.state.FrameHeader? && !s.r.state.FrameOpt?
    ensures p.s.r.Valid() && |p.s.net.bytes| <= |s.net.bytes|
    ensures p.Go? ==> p.s.r.state.FrameHeader?
  {
    if s.r.msgSz == 0 then
      EndFrame(s, [])
    else
      var (got, net) := NetRead(s.net, Min(size, s.r.msgSz));
      if !got.Data? then
        Return(got, Socket(s.r, net))
      else
        PieceRead(Socket(s.r, net), got.bytes)
  }

  /** websocket_read: lines 82-218, one round of the loop per call. */
  function Read(s: Socket, size: nat): (o: (Outcome, Socket))
    requires s.r.Valid()
    ensures o.1.r.Valid() || o.0.AssertionFailed?
    decreases |s.net.bytes|, if s.r.toRecv == 0 then 1 else 0
  {
    match Receive(s)
    case Return(outcome, t) => (outcome, t)
    case Go(t) =>
      match s.r.state
      case FrameHeader =>
        if HeaderAccepted(t.r) then Read(t.(r := HeaderRead(t.r)), size) else (AssertionFailed, t)
      case FrameOpt =>
        Read(t.(r := OptRead(t.r)), size)
      case _ =>
        match PayloadRead(t, size)
        case Return(outcome, u) => (outcome, u)
        case Go(u) => Read(u, size)
  }

  // ---------- the writer ----------

  const CLOSE_RESP: seq<Byte> := [0x88, 0]

  /** websocket_write: the bytes that go to the socket. */
  function WriteBytes(opts: Byte, payload: seq<Byte>): seq<Byte>
    requires |payload| < 0x10000
  {
    var first := 0x80 + Opcode(opts);
    var header := if |payload| < 126 then [first, |payload|]
                  else [first, 126, |payload| / 256, |payload| % 256];
    header + payload
  }

  /** make_new: the reader before the first byte. */
  function NewReader(blockingWrite: bool, buf: seq<Byte>): (r: Reader)
    requires |buf| == 6
    ensures r.Valid()
  {
    Reader(0, [0, 0, 0, 0], FrameHeader, 2, 0, 0, buf, FRAME_TXT + (if blockingWrite then BLOCKING_WRITE else 0), 0, 0)
  }
}
