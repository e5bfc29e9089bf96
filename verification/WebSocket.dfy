/** extmod/modwebsocket.c: the websocket object, whose fields are updated across the calls. */
module WebSocket {
  import opened WebSocketFraming

  /** The underlying stream. */
  class Stream {
    var net: Net

    constructor (bytes: seq<Byte>, schedule: seq<Chunk>)
      ensures net == Net(bytes, schedule, [])
    {
      net := Net(bytes, schedule, []);
    }

    /** stream_p->read: up to `size` bytes go to dest[at..]. */
    method ReadInto(dest: array<Byte>, at: nat, size: nat) returns (outcome: Outcome)
      requires at + size <= dest.Length
      modifies this, dest
      ensures (outcome, net) == NetRead(old(net), size)
      ensures outcome.Data? ==> dest[..] == old(dest[..])[..at] + outcome.bytes + old(dest[..])[at + |outcome.bytes|..]
      ensures !outcome.Data? ==> dest[..] == old(dest[..])
    {
      ghost var was := dest[..];
      var (got, rest) := NetRead(net, size);
      outcome, net := got, rest;
      if outcome.Data? {
        var i := 0;
        while i < |outcome.bytes|
          invariant 0 <= i <= |outcome.bytes| && net == rest
          invariant dest[..] == was[..at] + outcome.bytes[..i] + was[at + i..]
        {
          dest[at + i] := outcome.bytes[i];
          i := i + 1;
        }
      }
    }

    /** mp_stream_write_exactly */
    method WriteExactly(bytes: seq<Byte>)
      modifies this
      ensures net == old(net).(sent := old(net).sent + bytes)
    {
      net := net.(sent := net.sent + bytes);
    }
  }

  /** The result of the stream method: a byte count, MP_STREAM_ERROR, or a failed assertion. */
  datatype Result = Count(n: nat) | StreamError(errno: int) | AssertFailed

  function ResultOf(outcome: Outcome): Result {
    match outcome
    case Data(bytes) => Count(|bytes|)
    case Eof => Count(0)
    case Error(errno) => StreamError(errno)
    case AssertionFailed => AssertFailed
  }

  class WebSocketObject {
    const sock: Stream
    var msgSz: nat
    const mask: array<Byte>
    var state: Mode
    var toRecv: nat
    var maskPos: nat
    var bufPos: nat
    const buf: array<Byte>
    const opts: Byte
    var wsFlags: Byte
    var lastFlags: Byte

    ghost predicate Shape()
    {
      mask.Length == 4 && buf.Length == 6 && mask != buf
    }

    ghost function Reader(): WebSocketFraming.Reader
      reads this, mask, buf
    {
      WebSocketFraming.Reader(msgSz, mask[..], state, toRecv, maskPos, bufPos, buf[..], opts, wsFlags, lastFlags)
    }

    ghost function Sock(): Socket
      reads this, mask, buf, sock
    {
      Socket(Reader(), sock.net)
    }

    constructor (sock: Stream, blockingWrite: bool)
      ensures Shape() && this.sock == sock && fresh(mask) && fresh(buf)
      ensures Reader() == NewReader(blockingWrite, buf[..])
    {
      this.sock := sock;
      mask := new Byte[4](i => 0);
      buf := new Byte[6](i => 0);
      msgSz, state, toRecv, maskPos, bufPos := 0, FrameHeader, 2, 0, 0;
      opts := FRAME_TXT + (if blockingWrite then BLOCKING_WRITE else 0);
      wsFlags, lastFlags := 0, 0;
    }

    /** Lines 83-94. `stop` tells that the call returns. */
    method ReceiveHeader() returns (stop: bool, outcome: Outcome)
      requires Shape() && Reader().Valid()
      modifies this, buf, sock
      ensures unchanged(mask)
      ensures Receive(old(Sock())) == if stop then Return(outcome, Sock()) else Go(Sock())
    {
      stop, outcome := false, Eof;
      if toRecv != 0 {
        outcome := sock.ReadInto(buf, bufPos, toRecv);
        if !outcome.Data? {
          return true, outcome;
        }
        bufPos := bufPos + |outcome.bytes|;
        toRecv := toRecv - |outcome.bytes|;
        if toRecv != 0 {
          return true, Error(EAGAIN);
        }
      }
    }

    /** Lines 105-145, after the assertions. */
    method TakeHeader()
      requires Shape()
      modifies this, mask
      ensures unchanged(buf)
      ensures Reader() == HeaderRead(old(Reader()))
    {
      var frameType := buf[0];
      lastFlags := frameType;
      frameType := Opcode(frameType);
      if Opcode(buf[0]) == FRAME_CONT {
        wsFlags := Opcode(wsFlags) + (buf[0] - Opcode(buf[0]));
      } else {
        wsFlags := buf[0];
      }
      mask[0], mask[1], mask[2], mask[3] := 0, 0, 0, 0;
      assert mask[..] == [0, 0, 0, 0];
      var recv := 0;
      var sz := Low7(buf[1]);
      if sz == 126 {
        recv := recv + 2;
      }
      if HighBit(buf[1]) {
        recv := recv + 4;
      }
      bufPos := 0;
      toRecv := recv;
      msgSz := sz;
      if recv != 0 {
        state := FrameOpt;
      } else if frameType >= FRAME_CLOSE {
        state := Control;
      } else {
        state := Payload;
      }
    }

    /** Lines 148-163. */
    method TakeOpt()
      requires Shape() && maskPos < 256 && toRecv == 0
      requires bufPos == 2 || bufPos == 4 || bufPos == 6
      modifies this, mask
      ensures unchanged(buf)
      ensures Reader() == OptRead(old(Reader()))
    {
      if bufPos % 4 == 2 {
        var high: int, low: int := buf[0], buf[1];
        msgSz := high * 256 + low;
      }
      if bufPos >= 4 {
        var at := bufPos - 4;
        mask[0], mask[1], mask[2], mask[3] := buf[at], buf[at + 1], buf[at + 2], buf[at + 3];
        assert mask[..] == buf[at..bufPos];
      }
      bufPos := 0;
      if Opcode(lastFlags) >= FRAME_CLOSE {
        state := Control;
      } else {
        state := Payload;
      }
    }

    /** Lines 180-183: the first n bytes are unmasked in place. */
    method Unmask(dest: array<Byte>, n: nat)
      requires Shape() && n <= dest.Length && dest != mask && dest != buf && maskPos < 256
      modifies this`maskPos, dest
      ensures dest[..n] == Masked(old(dest[..n]), mask[..], old(maskPos)) && dest[n..] == old(dest[n..])
      ensures maskPos == (old(maskPos) + n) % 256
    {
      ghost var was, key, pos := dest[..], mask[..], maskPos;
      var i := 0;
      while i < n
        invariant 0 <= i <= n && maskPos == (pos + i) % 256 && mask[..] == key
        invariant forall j | 0 <= j < i :: dest[j] == Xor(was[j], key[(pos + j) % 4])
        invariant forall j | i <= j < dest.Length :: dest[j] == was[j]
      {
        StepInPhase(pos, i);
        dest[i] := Xor(dest[i], mask[maskPos % 4]);
        maskPos := (maskPos + 1) % 256;
        i := i + 1;
      }
    }

    static lemma StepInPhase(pos: nat, i: nat)
      ensures (pos + i) % 256 % 4 == (pos + i) % 4
      ensures ((pos + i) % 256 + 1) % 256 == (pos + i + 1) % 256
    {
    }

    /** Lines 188-214: the end of a frame; n bytes of it are in dest. */
    method FinishFrame(ghost out: seq<Byte>, n: nat) returns (stop: bool, ghost outcome: Outcome)
      requires Shape() && Reader().Valid() && !state.FrameHeader? && !state.FrameOpt? && n == |out|
      modifies this, sock
      ensures EndFrame(old(Sock()), out) == if stop then Return(outcome, Sock()) else Go(Sock())
      ensures stop ==> ResultOf(outcome) == Count(if old(state).Control? then 0 else n)
    {
      outcome := Eof;
      var lastState := state;
      state := FrameHeader;
      toRecv := 2;
      maskPos := 0;
      bufPos := 0;
      if lastState == Control {
        var frameType := Opcode(lastFlags);
        if frameType == FRAME_CLOSE {
          sock.WriteExactly(WriteBytes(opts, CLOSE_RESP));
          return true, Eof;
        }
        return false, Eof;
      }
      if n != 0 {
        return true, Data(out);
      }
      return false, Eof;
    }

    /** Lines 166-215. */
    method PayloadRound(dest: array<Byte>, size: nat) returns (stop: bool, ghost outcome: Outcome, r: Result)
      requires Shape() && Reader().Valid() && !state.FrameHeader? && !state.FrameOpt?
      requires size <= dest.Length && dest != mask && dest != buf
      modifies this, sock, dest
      ensures PayloadRead(old(Sock()), size) == if stop then Return(outcome, Sock()) else Go(Sock())
      ensures stop ==> r == ResultOf(outcome)
      ensures stop && outcome.Data? ==> |outcome.bytes| <= dest.Length && dest[..|outcome.bytes|] == outcome.bytes
    {
      r := Count(0);
      if msgSz == 0 {
        stop, outcome := FinishFrame([], 0);
        return;
      }
      var sz := Min(size, msgSz);
      var got := sock.ReadInto(dest, 0, sz);
      if !got.Data? {
        return true, got, ResultOf(got);
      }
      var outSz := |got.bytes|;
      assert dest[..outSz] == got.bytes;
      Unmask(dest, outSz);
      ghost var out := dest[..outSz];
      msgSz := msgSz - outSz;
      if msgSz == 0 {
        var control := state == Control;
        stop, outcome := FinishFrame(out, outSz);
        r := Count(if control then 0 else outSz);
        return;
      }
      return true, Data(out), Count(outSz);
    }

    /** websocket_read: up to `size` bytes go to dest. */
    method Read(dest: array<Byte>, size: nat) returns (r: Result, ghost outcome: Outcome)
      requires Shape() && Reader().Valid()
      requires size <= dest.Length && dest != mask && dest != buf
      modifies this, mask, buf, sock, dest
      ensures (outcome, Sock()) == WebSocketFraming.Read(old(Sock()), size)
      ensures r == ResultOf(outcome)
      ensures outcome.Data? ==> |outcome.bytes| <= dest.Length && dest[..|outcome.bytes|] == outcome.bytes
    {
      ghost var goal := WebSocketFraming.Read(Sock(), size);
      while true
        invariant Reader().Valid() && WebSocketFraming.Read(Sock(), size) == goal
        decreases |sock.net.bytes|, if toRecv == 0 then 1 else 0
      {
        var stop, got := ReceiveHeader();
        if stop {
          return ResultOf(got), got;
        }
        if state == FrameHeader {
          if !(HighBit(buf[0]) && Low7(buf[1]) != 127) {
            return AssertFailed, AssertionFailed;
          }
          TakeHeader();
        } else if state == FrameOpt {
          TakeOpt();
        } else {
          stop, outcome, r := PayloadRound(dest, size);
          if stop {
            return;
          }
        }
      }
    }

    /** websocket_write; setting the socket to blocking mode is not modelled. */
    method Write(message: seq<Byte>) returns (outSz: nat)
      requires |message| < 0x10000
      modifies sock
      ensures sock.net == old(sock.net).(sent := old(sock.net).sent + WriteBytes(opts, message)) && outSz == |message|
    {
      var header := [0x80 + Opcode(opts)];
      if |message| < 126 {
        header := header + [|message|];
      } else {
        header := header + [126, |message| / 256, |message| % 256];
      }
      sock.WriteExactly(header);
      sock.WriteExactly(message);
      assert old(sock.net.sent) + header + message == old(sock.net.sent) + (header + message);
      outSz := |message|;
    }
  }
}
