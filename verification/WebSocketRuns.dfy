/** What the reader of extmod/modwebsocket.c hands to its caller, over whole runs: the data payloads of the
    frames, whatever the sizes of the socket's short reads and of the caller's buffers. */
module WebSocketRuns {
  import opened WebSocketFraming

  // ---------- frames (section 5.2 of RFC 6455) ----------

  /** A frame: its first byte, the masking key if the mask bit is set, the payload, and whether its length
      is in the 16-bit field. */
  datatype Frame = Frame(first: Byte, masked: bool, key: seq<Byte>, long: bool, payload: seq<Byte>)

  predicate IsControlFrame(f: Frame) {
    IsControl(f.first)
  }

  /** FIN is set; the length fits its encoding. */
  ghost predicate ValidFrame(f: Frame) {
    && HighBit(f.first)
    && |f.key| == 4
    && (if f.long then |f.payload| < 0x10000 else |f.payload| < 126)
  }

  function LengthCode(f: Frame): nat {
    if f.long then 126 else |f.payload|
  }

  function SecondByte(f: Frame): Byte
    requires LengthCode(f) < 127
  {
    (if f.masked then 0x80 else 0) + LengthCode(f)
  }

  function OptBytes(f: Frame): seq<Byte>
    requires |f.payload| < 0x10000
  {
    (if f.long then [|f.payload| / 256, |f.payload| % 256] else [])
    + (if f.masked then f.key else [])
  }

  function Key(f: Frame): (k: seq<Byte>)
    requires |f.key| == 4
    ensures |k| == 4
  {
    if f.masked then f.key else [0, 0, 0, 0]
  }

  function Body(f: Frame): (b: seq<Byte>)
    requires |f.key| == 4
    ensures |b| == |f.payload|
  {
    Masked(f.payload, Key(f), 0)
  }

  /** The frame f, and `rest` behind it. */
  ghost function EncodeBefore(f: Frame, rest: seq<Byte>): seq<Byte>
    requires ValidFrame(f)
  {
    [f.first, SecondByte(f)] + (OptBytes(f) + (Body(f) + rest))
  }

  ghost predicate ValidFrames(fs: seq<Frame>) {
    forall i | 0 <= i < |fs| :: ValidFrame(fs[i])
  }

  ghost function EncodeAll(fs: seq<Frame>): seq<Byte>
    requires ValidFrames(fs)
  {
    if fs == [] then [] else EncodeBefore(fs[0], EncodeAll(fs[1..]))
  }

  /** The bytes that the frames carry for the caller: the payloads of the data frames. */
  function DataOf(fs: seq<Frame>): seq<Byte> {
    if fs == [] then [] else (if IsControlFrame(fs[0]) then [] else fs[0].payload) + DataOf(fs[1..])
  }

  /** The code drops the payload of a control frame only as far as one read takes it, so at most one byte of
      it is safe from every split. */
  ghost predicate SmallControls(fs: seq<Frame>) {
    forall i | 0 <= i < |fs| && IsControlFrame(fs[i]) :: |fs[i].payload| <= 1
  }

  // ---------- bytes ----------

  /** Masking twice with the same key is the identity (section 5.3). */
  lemma UnmaskSlice(data: seq<Byte>, key: seq<Byte>, at: nat, n: nat, pos: nat)
    requires |key| == 4 && at + n <= |data| && pos == at % 256
    ensures Masked(Masked(data, key, 0)[at..at + n], key, pos) == data[at..at + n]
  {
    var once := Masked(data, key, 0)[at..at + n];
    var twice := Masked(once, key, pos);
    forall i | 0 <= i < n ensures twice[i] == data[at + i] {
      PhaseKept(at, i, pos);
      XorTwice(data[at + i], key[(at + i) % 4]);
    }
  }

  /** The byte-wide mask position stays in phase when it wraps. */
  lemma PhaseKept(at: nat, i: nat, pos: nat)
    requires pos == at % 256
    ensures (pos + i) % 4 == (at + i) % 4
  {
    var q := 64 * (at / 256);
    assert at + i == 4 * q + (pos + i);
    FourTimes(q, pos + i);
  }

  lemma FourTimes(q: nat, r: nat)
    ensures (4 * q + r) % 4 == r % 4
  {
  }

  lemma XorTwice(a: Byte, k: Byte)
    ensures Xor(Xor(a, k), k) == a
  {
    XorBitsTwice(a, k, 8);
  }

  lemma {:induction false} XorBitsTwice(a: nat, k: nat, n: nat)
    requires a < Pow2(n)
    ensures XorBits(XorBits(a, k, n), k, n) == a
  {
    if n > 0 {
      XorBitsTwice(a / 2, k / 2, n - 1);
      var x := XorBits(a, k, n);
      assert x / 2 == XorBits(a / 2, k / 2, n - 1) && x % 2 == if a % 2 == k % 2 then 0 else 1;
      assert XorBits(x, k, n) == (if x % 2 == k % 2 then 0 else 1) + 2 * (a / 2);
    }
  }

  // ---------- where the reader is ----------

  /** The reader has `bufPos` bytes of a header in buf; with the coming bytes they are `stream`. */
  ghost predicate Buffered(s: Socket, stream: seq<Byte>) {
    |s.r.buf| == 6 && s.r.bufPos <= 6 && s.r.buf[..s.r.bufPos] + s.net.bytes == stream
  }

  /** The header of f has been read but for its optional fields. */
  ghost predicate AtOpt(r: Reader, f: Frame)
    requires ValidFrame(f)
  {
    && r.state.FrameOpt? && r.maskPos == 0 && r.lastFlags == f.first
    && r.msgSz == LengthCode(f) && r.mask == [0, 0, 0, 0]
    && r.bufPos + r.toRecv == |OptBytes(f)|
  }

  /** The header of f and k bytes of its payload have been read. */
  ghost predicate AtBody(r: Reader, f: Frame, k: nat)
    requires ValidFrame(f)
  {
    && (if IsControlFrame(f) then r.state.Control? else r.state.Payload?)
    && k <= |f.payload| && r.msgSz == |f.payload| - k && (k > 0 ==> r.msgSz > 0)
    && r.maskPos == k % 256 && r.lastFlags == f.first && r.mask == Key(f)
  }

  /** The reader and the coming bytes stand at byte k of the payload of the first of the frames `fs`; k is 0
      while its header has not been read to the end. */
  ghost predicate At(s: Socket, fs: seq<Frame>, k: nat) {
    && s.r.Valid() && ValidFrames(fs)
    && (s.r.state.FrameHeader? ==> k == 0 && s.r.maskPos == 0 && Buffered(s, EncodeAll(fs)))
    && (s.r.state.FrameOpt? ==>
          fs != [] && k == 0 && AtOpt(s.r, fs[0]) && Buffered(s, OptBytes(fs[0]) + (Body(fs[0]) + EncodeAll(fs[1..]))))
    && (s.r.state.Payload? || s.r.state.Control? ==>
          fs != [] && AtBody(s.r, fs[0], k) && s.net.bytes == Body(fs[0])[k..] + EncodeAll(fs[1..]))
  }

  /** What the caller has still to get. */
  function Rest(fs: seq<Frame>, k: nat): seq<Byte>
  {
    if fs == [] then []
    else (if IsControlFrame(fs[0]) || k > |fs[0].payload| then [] else fs[0].payload[k..]) + DataOf(fs[1..])
  }

  lemma RestOfAll(fs: seq<Frame>)
    ensures Rest(fs, 0) == DataOf(fs)
  {
    if fs != [] {
      assert fs[0].payload[0..] == fs[0].payload;
    }
  }

  // ---------- one round of the loop ----------

  /** Receiving into buf keeps the stream, and every field but buf, bufPos and toRecv. */
  lemma ReceiveKeepsStream(s: Socket, stream: seq<Byte>)
    requires s.r.Valid() && Buffered(s, stream)
    ensures Buffered(Receive(s).s, stream)
    ensures var q := Receive(s).s.r;
            q == s.r.(buf := q.buf, bufPos := q.bufPos, toRecv := q.toRecv) && q.bufPos + q.toRecv == s.r.bufPos + s.r.toRecv
    ensures Receive(s).Return? ==> !Receive(s).outcome.Data? && !Receive(s).outcome.AssertionFailed?
  {
    if s.r.toRecv != 0 {
      var (got, net) := NetRead(s.net, s.r.toRecv);
      if got.Data? {
        StoreKeepsStream(s.r.buf, s.r.bufPos, got.bytes, net.bytes);
      }
    }
  }

  lemma StoreKeepsStream(buf: seq<Byte>, at: nat, got: seq<Byte>, rest: seq<Byte>)
    requires at + |got| <= |buf|
    ensures var stored := buf[..at] + got + buf[at + |got|..];
            |stored| == |buf| && stored[..at + |got|] + rest == buf[..at] + (got + rest)
  {
    var stored := buf[..at] + got + buf[at + |got|..];
    assert stored[..at + |got|] == buf[..at] + got;
  }

  lemma SplitAt(a: seq<Byte>, rest: seq<Byte>, b: seq<Byte>, tail: seq<Byte>)
    requires |a| == |b| && a + rest == b + tail
    ensures a == b && rest == tail
  {
    assert (a + rest)[..|a|] == a && (a + rest)[|a|..] == rest;
    assert (b + tail)[..|b|] == b && (b + tail)[|b|..] == tail;
  }

  /** The two header bytes are understood. */
  lemma HeaderDecoded(r: Reader, f: Frame)
    requires ValidFrame(f) && |r.buf| == 6 && r.maskPos == 0
    requires r.buf[0] == f.first && r.buf[1] == SecondByte(f)
    ensures HeaderAccepted(r)
    ensures var q := HeaderRead(r);
            && q.bufPos == 0
            && (if OptBytes(f) == [] then AtBody(q, f, 0) else AtOpt(q, f))
  {
  }

  lemma OptFields(f: Frame, opt: seq<Byte>)
    requires ValidFrame(f) && opt == OptBytes(f)
    ensures |opt| == (if f.long then 2 else 0) + (if f.masked then 4 else 0)
    ensures f.long ==> opt[0] == |f.payload| / 256 && opt[1] == |f.payload| % 256
    ensures f.masked ==> opt[|opt| - 4..] == f.key
  {
  }

  /** The extended length and the masking key are understood. */
  lemma OptDecoded(r: Reader, f: Frame)
    requires ValidFrame(f) && |r.buf| == 6 && AtOpt(r, f)
    requires r.toRecv == 0 && OptBytes(f) != [] && r.buf[..r.bufPos] == OptBytes(f)
    ensures AtBody(OptRead(r), f, 0)
  {
    var n := r.bufPos;
    OptFields(f, r.buf[..n]);
    if f.long {
      assert r.buf[0] == r.buf[..n][0] && r.buf[1] == r.buf[..n][1];
    }
    if f.masked {
      assert r.buf[n - 4..n] == r.buf[..n][n - 4..];
    }
  }

  ghost function AfterHeader(fs: seq<Frame>): seq<Byte>
    requires ValidFrames(fs) && fs != []
  {
    OptBytes(fs[0]) + (Body(fs[0]) + EncodeAll(fs[1..]))
  }

  lemma HeaderStream(two: seq<Byte>, bytes: seq<Byte>, fs: seq<Frame>)
    requires ValidFrames(fs) && |two| == 2 && two + bytes == EncodeAll(fs)
    ensures fs != [] && two[0] == fs[0].first && two[1] == SecondByte(fs[0]) && bytes == AfterHeader(fs)
  {
    assert fs != [];
    assert EncodeAll(fs) == [fs[0].first, SecondByte(fs[0])] + AfterHeader(fs);
    SplitAt(two, bytes, [fs[0].first, SecondByte(fs[0])], AfterHeader(fs));
  }

  /** After the two header bytes. */
  lemma HeaderAt(s: Socket, fs: seq<Frame>)
    requires At(s, fs, 0) && s.r.state.FrameHeader? && Receive(s).Go?
    ensures var t := Receive(s).s;
            fs != [] && HeaderAccepted(t.r) && At(t.(r := HeaderRead(t.r)), fs, 0)
  {
    ReceiveKeepsStream(s, EncodeAll(fs));
    var t := Receive(s).s;
    HeaderStream(t.r.buf[..2], t.net.bytes, fs);
    HeaderDecoded(t.r, fs[0]);
    var q := HeaderRead(t.r);
    if OptBytes(fs[0]) == [] {
      assert t.net.bytes == Body(fs[0])[0..] + EncodeAll(fs[1..]);
    } else {
      assert q.buf[..0] + t.net.bytes == AfterHeader(fs);
    }
  }

  /** After the extended length and the masking key. */
  lemma OptAt(s: Socket, fs: seq<Frame>)
    requires At(s, fs, 0) && s.r.state.FrameOpt? && Receive(s).Go?
    ensures var t := Receive(s).s; At(t.(r := OptRead(t.r)), fs, 0)
  {
    var f := fs[0];
    var opt, tail := OptBytes(f), Body(f) + EncodeAll(fs[1..]);
    ReceiveKeepsStream(s, opt + tail);
    var t := Receive(s).s;
    SplitAt(t.r.buf[..t.r.bufPos], t.net.bytes, opt, tail);
    OptDecoded(t.r, f);
    assert tail == Body(f)[0..] + EncodeAll(fs[1..]);
  }

  // ---------- the payload ----------

  lemma BodySlice(f: Frame, k: nat, got: seq<Byte>, bytes: seq<Byte>, rest: seq<Byte>)
    requires ValidFrame(f) && k + |got| <= |f.payload| && got + bytes == Body(f)[k..] + rest
    ensures Masked(got, Key(f), k % 256) == f.payload[k..k + |got|]
    ensures bytes == Body(f)[k + |got|..] + rest
  {
    var n, body := |got|, Body(f);
    assert body[k..] + rest == body[k..k + n] + (body[k + n..] + rest);
    SplitAt(got, bytes, body[k..k + n], body[k + n..] + rest);
    UnmaskSlice(f.payload, Key(f), k, n, k % 256);
  }

  /** A frame that has been read to its end: the reader stands before the next one. */
  lemma DoneAt(s: Socket, fs: seq<Frame>)
    requires s.r.Valid() && ValidFrames(fs) && fs != [] && s.net.bytes == EncodeAll(fs[1..])
    ensures At(Socket(FrameDone(s.r), s.net), fs[1..], 0)
  {
    assert FrameDone(s.r).buf[..0] + s.net.bytes == EncodeAll(fs[1..]);
  }

  /** What one call of PayloadRead delivers, and where it leaves the reader: at byte k' of fs'. */
  ghost predicate PayloadStep(p: Progress, fs: seq<Frame>, k: nat, fs': seq<Frame>, k': nat) {
    && At(p.s, fs', k') && SmallControls(fs')
    && Delivers(if p.Return? then p.outcome else Eof, fs, k, fs', k')
  }

  ghost predicate Delivers(outcome: Outcome, fs: seq<Frame>, k: nat, fs': seq<Frame>, k': nat) {
    match outcome
    case Data(bytes) => bytes != [] && Rest(fs, k) == bytes + Rest(fs', k')
    case AssertionFailed => false
    case _ => Rest(fs, k) == Rest(fs', k')
  }

  lemma EndFrameAt(s: Socket, out: seq<Byte>, fs: seq<Frame>, k: nat)
    requires s.r.Valid() && ValidFrames(fs) && fs != [] && SmallControls(fs)
    requires if IsControlFrame(fs[0]) then s.r.state.Control? else s.r.state.Payload?
    requires k <= |fs[0].payload| && s.r.lastFlags == fs[0].first
    requires out == fs[0].payload[k..] && s.net.bytes == EncodeAll(fs[1..])
    ensures PayloadStep(EndFrame(s, out), fs, k, fs[1..], 0)
  {
    DoneAt(s, fs);
    RestOfAll(fs[1..]);
  }

  lemma SliceSplit(p: seq<Byte>, k: nat, n: nat, rest: seq<Byte>)
    requires k + n <= |p|
    ensures p[k..] + rest == p[k..k + n] + (p[k + n..] + rest)
  {
  }

  lemma MiddlePieceRest(fs: seq<Frame>, k: nat, n: nat)
    requires fs != [] && !IsControlFrame(fs[0]) && k + n <= |fs[0].payload|
    ensures Rest(fs, k) == fs[0].payload[k..k + n] + Rest(fs, k + n)
  {
    SliceSplit(fs[0].payload, k, n, DataOf(fs[1..]));
  }

  lemma MoreOfBody(r: Reader, f: Frame, k: nat, n: nat)
    requires r.Valid() && ValidFrame(f) && AtBody(r, f, k) && n < r.msgSz
    ensures AtBody(r.(maskPos := (r.maskPos + n) % 256, msgSz := r.msgSz - n), f, k + n)
  {
    PhaseAdd(k, n);
  }

  lemma BodyIsAt(s: Socket, fs: seq<Frame>, k: nat)
    requires s.r.Valid() && ValidFrames(fs) && fs != [] && AtBody(s.r, fs[0], k)
    requires s.net.bytes == Body(fs[0])[k..] + EncodeAll(fs[1..])
    ensures At(s, fs, k)
  {
  }

  /** A piece of a data payload that does not end it. */
  lemma MiddlePieceAt(s: Socket, got: seq<Byte>, fs: seq<Frame>, k: nat)
    requires s.r.Valid() && ValidFrames(fs) && fs != [] && SmallControls(fs) && AtBody(s.r, fs[0], k)
    requires 0 < |got| < s.r.msgSz && got + s.net.bytes == Body(fs[0])[k..] + EncodeAll(fs[1..])
    ensures PayloadStep(PieceRead(s, got), fs, k, fs, k + |got|)
  {
    var n := |got|;
    BodySlice(fs[0], k, got, s.net.bytes, EncodeAll(fs[1..]));
    MoreOfBody(s.r, fs[0], k, n);
    BodyIsAt(PieceRead(s, got).s, fs, k + n);
    MiddlePieceRest(fs, k, n);
  }

  /** The piece that ends a payload. */
  lemma LastPieceAt(s: Socket, got: seq<Byte>, fs: seq<Frame>, k: nat)
    requires s.r.Valid() && ValidFrames(fs) && fs != [] && SmallControls(fs) && AtBody(s.r, fs[0], k)
    requires 0 < |got| == s.r.msgSz && got + s.net.bytes == Body(fs[0])[k..] + EncodeAll(fs[1..])
    ensures PayloadStep(PieceRead(s, got), fs, k, fs[1..], 0)
  {
    LastSlice(fs[0], k, got, s.net.bytes, EncodeAll(fs[1..]));
    var out := Masked(got, s.r.mask, s.r.maskPos);
    var t := Socket(s.r.(maskPos := (s.r.maskPos + |got|) % 256, msgSz := 0), s.net);
    assert PieceRead(s, got) == EndFrame(t, out);
    EndFrameAt(t, out, fs, k);
  }

  lemma LastSlice(f: Frame, k: nat, got: seq<Byte>, bytes: seq<Byte>, next: seq<Byte>)
    requires ValidFrame(f) && k + |got| == |f.payload| && got + bytes == Body(f)[k..] + next
    ensures Masked(got, Key(f), k % 256) == f.payload[k..] && bytes == next
  {
    BodySlice(f, k, got, bytes, next);
    assert Body(f)[|f.payload|..] + next == next;
  }

  /** A frame without payload. */
  lemma NoPayloadAt(s: Socket, fs: seq<Frame>, k: nat)
    requires s.r.Valid() && ValidFrames(fs) && fs != [] && SmallControls(fs) && AtBody(s.r, fs[0], k)
    requires s.r.msgSz == 0 && s.net.bytes == Body(fs[0])[k..] + EncodeAll(fs[1..])
    ensures PayloadStep(EndFrame(s, []), fs, k, fs[1..], 0)
  {
    assert Body(fs[0])[k..] + EncodeAll(fs[1..]) == EncodeAll(fs[1..]);
    EndFrameAt(s, [], fs, k);
  }

  /** One call of PayloadRead; the claim has a name so that it is proved as a whole. */
  lemma PayloadAt(s: Socket, size: nat, fs: seq<Frame>, k: nat) returns (fs': seq<Frame>, k': nat)
    requires At(s, fs, k) && (s.r.state.Payload? || s.r.state.Control?) && SmallControls(fs)
    ensures var step := PayloadStep(PayloadRead(s, size), fs, k, fs', k'); step
  {
    if s.r.msgSz == 0 {
      NoPayloadFrom(s, fs, k);
      return fs[1..], 0;
    }
    var (got, net) := NetRead(s.net, Min(size, s.r.msgSz));
    if !got.Data? {
      NothingReadAt(s, got, net, fs, k);
      return fs, k;
    }
    if |got.bytes| == s.r.msgSz {
      LastPieceFrom(s, got.bytes, net, fs, k);
      return fs[1..], 0;
    }
    MiddlePieceFrom(s, got.bytes, net, fs, k);
    return fs, k + |got.bytes|;
  }

  lemma NoPayloadFrom(s: Socket, fs: seq<Frame>, k: nat)
    requires At(s, fs, k) && (s.r.state.Payload? || s.r.state.Control?) && SmallControls(fs) && s.r.msgSz == 0
    ensures fs != [] && PayloadStep(EndFrame(s, []), fs, k, fs[1..], 0)
  {
    NoPayloadAt(s, fs, k);
  }

  lemma LastPieceFrom(s: Socket, got: seq<Byte>, net: Net, fs: seq<Frame>, k: nat)
    requires At(s, fs, k) && (s.r.state.Payload? || s.r.state.Control?) && SmallControls(fs)
    requires 0 < |got| == s.r.msgSz && s.net.bytes == got + net.bytes
    ensures fs != [] && PayloadStep(PieceRead(Socket(s.r, net), got), fs, k, fs[1..], 0)
  {
    LastPieceAt(Socket(s.r, net), got, fs, k);
  }

  lemma MiddlePieceFrom(s: Socket, got: seq<Byte>, net: Net, fs: seq<Frame>, k: nat)
    requires At(s, fs, k) && (s.r.state.Payload? || s.r.state.Control?) && SmallControls(fs)
    requires 0 < |got| < s.r.msgSz && s.net.bytes == got + net.bytes
    ensures PayloadStep(PieceRead(Socket(s.r, net), got), fs, k, fs, k + |got|)
  {
    MiddlePieceAt(Socket(s.r, net), got, fs, k);
  }

  /** The socket delivers nothing. */
  lemma NothingReadAt(s: Socket, got: Outcome, net: Net, fs: seq<Frame>, k: nat)
    requires At(s, fs, k) && (s.r.state.Payload? || s.r.state.Control?) && SmallControls(fs)
    requires net.bytes == s.net.bytes && !got.Data? && !got.AssertionFailed?
    ensures PayloadStep(Return(got, Socket(s.r, net)), fs, k, fs, k)
  {
  }

  lemma PhaseAdd(k: nat, n: nat)
    ensures (k % 256 + n) % 256 == (k + n) % 256
  {
  }

  // ---------- one call of websocket_read ----------

  /** One call, from any point of any stream of frames: it delivers the next bytes of the data payloads, at
      least one, or nothing is lost; and it leaves the reader at a point of the stream again. */
  lemma ReadAt(s: Socket, size: nat, fs: seq<Frame>, k: nat) returns (fs': seq<Frame>, k': nat)
    requires At(s, fs, k) && SmallControls(fs)
    ensures var (outcome, t) := Read(s, size);
            At(t, fs', k') && SmallControls(fs') && Delivers(outcome, fs, k, fs', k')
    decreases |s.net.bytes|, if s.r.toRecv == 0 then 1 else 0
  {
    var p := Receive(s);
    if p.Return? {
      StoppedAt(s, fs, k);
      return fs, k;
    }
    if s.r.state.FrameHeader? {
      HeaderAt(s, fs);
      fs', k' := ReadAt(p.s.(r := HeaderRead(p.s.r)), size, fs, k);
    } else if s.r.state.FrameOpt? {
      OptAt(s, fs);
      fs', k' := ReadAt(p.s.(r := OptRead(p.s.r)), size, fs, k);
    } else {
      fs', k' := PayloadAt(s, size, fs, k);
      var q := PayloadRead(s, size);
      if q.Go? {
        var fs1, k1 := fs', k';
        fs', k' := ReadAt(q.s, size, fs1, k1);
      }
    }
  }

  /** A call that stops inside a header can be resumed. */
  lemma StoppedAt(s: Socket, fs: seq<Frame>, k: nat)
    requires At(s, fs, k) && Receive(s).Return?
    ensures At(Receive(s).s, fs, k) && Delivers(Receive(s).outcome, fs, k, fs, k)
  {
    if s.r.state.FrameHeader? {
      ReceiveKeepsStream(s, EncodeAll(fs));
    } else if s.r.state.FrameOpt? {
      ReceiveKeepsStream(s, AfterHeader(fs));
    }
  }

  // ---------- runs ----------

  /** The calls of a run, one buffer size each, and all bytes they deliver. A failed assertion ends the run. */
  function ReadAll(s: Socket, sizes: seq<nat>): (r: (seq<Byte>, Socket))
    requires s.r.Valid()
    decreases |sizes|
  {
    if sizes == [] then ([], s)
    else
      var (outcome, t) := Read(s, sizes[0]);
      if outcome.AssertionFailed? then ([], t)
      else
        var (more, u) := ReadAll(t, sizes[1..]);
        (Delivered(outcome) + more, u)
  }

  function Delivered(outcome: Outcome): seq<Byte> {
    if outcome.Data? then outcome.bytes else []
  }

  lemma DeliveredThen(outcome: Outcome, more: seq<Byte>, fs: seq<Frame>, k: nat, fs1: seq<Frame>, k1: nat, rest: seq<Byte>)
    requires Delivers(outcome, fs, k, fs1, k1) && Rest(fs1, k1) == more + rest
    ensures Rest(fs, k) == (Delivered(outcome) + more) + rest
  {
    assert (Delivered(outcome) + more) + rest == Delivered(outcome) + (more + rest);
  }

  lemma {:induction false} ReadAllAt(s: Socket, sizes: seq<nat>, fs: seq<Frame>, k: nat)
    returns (fs': seq<Frame>, k': nat)
    requires At(s, fs, k) && SmallControls(fs)
    ensures var (got, t) := ReadAll(s, sizes);
            At(t, fs', k') && Rest(fs, k) == got + Rest(fs', k')
    decreases |sizes|
  {
    if sizes == [] {
      return fs, k;
    }
    var (outcome, t) := Read(s, sizes[0]);
    var fs1, k1 := ReadAt(s, sizes[0], fs, k);
    fs', k' := ReadAllAt(t, sizes[1..], fs1, k1);
    DeliveredThen(outcome, ReadAll(t, sizes[1..]).0, fs, k, fs1, k1, Rest(fs', k'));
  }

  /** When the socket has no more bytes, nothing is left to deliver. */
  lemma NothingLeft(s: Socket, fs: seq<Frame>, k: nat)
    requires At(s, fs, k) && s.net.bytes == []
    ensures Rest(fs, k) == []
  {
    var buffered := s.r.buf[..s.r.bufPos] + s.net.bytes;
    assert |buffered| == s.r.bufPos;
    EncodeAllNotEmpty(fs);
    if s.r.state.Payload? || s.r.state.Control? {
      EncodeAllNotEmpty(fs[1..]);
    }
  }

  lemma EncodeAllNotEmpty(fs: seq<Frame>)
    requires ValidFrames(fs)
    ensures fs == [] || |EncodeAll(fs)| >= 2
  {
  }

  /** The reader's main property. For every sequence of frames, every way the socket splits their bytes and
      every sequence of caller's buffers: what the calls deliver is a prefix of the concatenated, unmasked
      data payloads, and all of it once the socket's bytes are used up. Calls may stop inside headers and
      payloads and are resumed. Control frames in between, of at most one payload byte, deliver nothing. */
  lemma ReadsDeliverPayloads(fs: seq<Frame>, schedule: seq<Chunk>, sizes: seq<nat>, blocking: bool, buf: seq<Byte>)
    requires ValidFrames(fs) && SmallControls(fs) && |buf| == 6
    ensures var (got, t) := ReadAll(Socket(NewReader(blocking, buf), Net(EncodeAll(fs), schedule, [])), sizes);
            got <= DataOf(fs) && (t.net.bytes == [] ==> got == DataOf(fs))
  {
    var s := Socket(NewReader(blocking, buf), Net(EncodeAll(fs), schedule, []));
    assert s.r.buf[..0] + s.net.bytes == EncodeAll(fs);
    RestOfAll(fs);
    var fs', k' := ReadAllAt(s, sizes, fs, 0);
    var (got, t) := ReadAll(s, sizes);
    if t.net.bytes == [] {
      NothingLeft(t, fs', k');
    }
  }

  // ---------- progress ----------

  /** The socket delivers at least one byte at each of the coming reads, as long as it has some. */
  predicate Flows(net: Net) {
    |net.schedule| >= |net.bytes| && forall i | 0 <= i < |net.schedule| :: net.schedule[i].Avail? && net.schedule[i].n >= 1
  }

  /** A call never stops at the end of a payload without finishing the frame. */
  predicate InFrame(r: Reader) {
    r.state.Payload? || r.state.Control? ==> r.msgSz > 0
  }

  lemma NetReadFlows(net: Net, size: nat)
    requires Flows(net) && size >= 1
    ensures Flows(NetRead(net, size).1)
    ensures net.bytes != [] ==> NetRead(net, size).0.Data? && |NetRead(net, size).1.bytes| < |net.bytes|
    ensures net.bytes == [] ==> NetRead(net, size).0 == Eof
  {
  }

  lemma ReceiveFlows(s: Socket)
    requires s.r.Valid() && Flows(s.net)
    ensures Flows(Receive(s).s.net)
    ensures s.r.toRecv != 0 && s.net.bytes != [] ==> |Receive(s).s.net.bytes| < |s.net.bytes|
    ensures Receive(s).Return? && (s.r.state.FrameHeader? || s.r.state.FrameOpt?) ==> InFrame(Receive(s).s.r)
  {
    if s.r.toRecv != 0 {
      NetReadFlows(s.net, s.r.toRecv);
    }
  }

  lemma PayloadReadFlows(s: Socket, size: nat)
    requires s.r.Valid() && !s.r.state.FrameHeader? && !s.r.state.FrameOpt? && Flows(s.net) && size >= 1
    ensures Flows(PayloadRead(s, size).s.net) && InFrame(PayloadRead(s, size).s.r)
    ensures s.r.msgSz > 0 && s.net.bytes != [] ==> |PayloadRead(s, size).s.net.bytes| < |s.net.bytes|
  {
    if s.r.msgSz > 0 {
      NetReadFlows(s.net, Min(size, s.r.msgSz));
    }
  }

  /** One call: it takes at least one byte while there are some. */
  lemma {:induction false} ReadFlows(s: Socket, size: nat)
    requires s.r.Valid() && Flows(s.net) && size >= 1
    ensures var (outcome, t) := Read(s, size);
            && |t.net.bytes| <= |s.net.bytes|
            && (InFrame(s.r) && s.net.bytes != [] ==> |t.net.bytes| < |s.net.bytes|)
            && (!outcome.AssertionFailed? ==> Flows(t.net) && InFrame(t.r))
    decreases |s.net.bytes|, if s.r.toRecv == 0 then 1 else 0
  {
    ReceiveFlows(s);
    var p := Receive(s);
    if p.Go? {
      if s.r.state.FrameHeader? {
        if HeaderAccepted(p.s.r) {
          ReadFlows(p.s.(r := HeaderRead(p.s.r)), size);
        }
      } else if s.r.state.FrameOpt? {
        ReadFlows(p.s.(r := OptRead(p.s.r)), size);
      } else {
        PayloadReadFlows(p.s, size);
        var q := PayloadRead(p.s, size);
        if q.Go? {
          ReadFlows(q.s, size);
        }
      }
    }
  }

  lemma {:induction false} ReadAllFlows(s: Socket, sizes: seq<nat>, fs: seq<Frame>, k: nat)
    requires At(s, fs, k) && SmallControls(fs) && Flows(s.net) && InFrame(s.r)
    requires |sizes| >= |s.net.bytes| && forall i | 0 <= i < |sizes| :: sizes[i] >= 1
    ensures ReadAll(s, sizes).1.net.bytes == []
    decreases |sizes|
  {
    if sizes != [] {
      ReadFlows(s, sizes[0]);
      var fs1, k1 := ReadAt(s, sizes[0], fs, k);
      ReadAllFlows(Read(s, sizes[0]).1, sizes[1..], fs1, k1);
    }
  }

  /** So with a socket that goes on delivering, as many calls as there are bytes deliver everything. */
  lemma ReadsDeliverEverything(fs: seq<Frame>, schedule: seq<Chunk>, sizes: seq<nat>, blocking: bool, buf: seq<Byte>)
    requires ValidFrames(fs) && SmallControls(fs) && |buf| == 6
    requires |schedule| >= |EncodeAll(fs)| && forall i | 0 <= i < |schedule| :: schedule[i].Avail? && schedule[i].n >= 1
    requires |sizes| >= |EncodeAll(fs)| && forall i | 0 <= i < |sizes| :: sizes[i] >= 1
    ensures ReadAll(Socket(NewReader(blocking, buf), Net(EncodeAll(fs), schedule, [])), sizes).0 == DataOf(fs)
  {
    var s := Socket(NewReader(blocking, buf), Net(EncodeAll(fs), schedule, []));
    assert s.r.buf[..0] + s.net.bytes == EncodeAll(fs);
    ReadAllFlows(s, sizes, fs, 0);
    ReadsDeliverPayloads(fs, schedule, sizes, blocking, buf);
  }

  // ---------- control payloads ----------

  function Start(bytes: seq<Byte>, schedule: seq<Chunk>, blocking: bool, buf: seq<Byte>): Socket
    requires |buf| == 6
  {
    Socket(NewReader(blocking, buf), Net(bytes, schedule, []))
  }

  /** Nothing of the control frame f reaches the caller, however it is split. */
  ghost predicate Invisible(f: Frame, blocking: bool, buf: seq<Byte>)
    requires ValidFrame(f) && |buf| == 6
  {
    forall schedule, sizes :: ReadAll(Start(EncodeAll([f]), schedule, blocking, buf), sizes).0 == []
  }

  /** A split that lets a control payload of two bytes or more through: the header in one read, its optional
      fields in one, then one byte at a time. */
  function LeakingSplit(f: Frame): seq<Chunk>
    requires |f.payload| < 0x10000
  {
    [Avail(2)] + (if OptBytes(f) == [] then [] else [Avail(|OptBytes(f)|)]) + [Avail(1)]
  }

  /** A control frame is invisible exactly when it carries at most one byte: the code drops only the last
      piece of a control payload and returns the others as data. */
  lemma InvisibleIffSmall(f: Frame, blocking: bool, buf: seq<Byte>)
    requires ValidFrame(f) && IsControlFrame(f) && |buf| == 6
    ensures Invisible(f, blocking, buf) <==> |f.payload| <= 1
  {
    if |f.payload| <= 1 {
      forall schedule, sizes
        ensures ReadAll(Start(EncodeAll([f]), schedule, blocking, buf), sizes).0 == []
      {
        ReadsDeliverPayloads([f], schedule, sizes, blocking, buf);
        assert DataOf([f]) == DataOf([f][1..]) == [];
      }
    } else {
      ControlPayloadLeaks(f, blocking, buf);
      assert ReadAll(Start(EncodeAll([f]), LeakingSplit(f), blocking, buf), [1]).0 != [];
    }
  }

  lemma ControlPayloadLeaks(f: Frame, blocking: bool, buf: seq<Byte>)
    requires ValidFrame(f) && IsControlFrame(f) && |buf| == 6 && |f.payload| >= 2
    ensures ReadAll(Start(EncodeAll([f]), LeakingSplit(f), blocking, buf), [1]).0 == [f.payload[0]]
  {
    var fs, s := [f], Start(EncodeAll([f]), LeakingSplit(f), blocking, buf);
    var tail := (if OptBytes(f) == [] then [] else [Avail(|OptBytes(f)|)]) + [Avail(1)];
    assert s.r.buf[..0] + s.net.bytes == EncodeAll(fs);
    assert s.net.schedule == [Avail(2)] + tail;
    EncodeAllNotEmpty(fs);
    HeaderRound(s, fs, tail, 1);
    var s1 := Receive(s).s.(r := HeaderRead(Receive(s).s.r));
    AfterHeaderLeaks(s1, fs, tail);
    ReadAllOne(s, 1);
  }

  lemma ReadAllOne(s: Socket, size: nat)
    requires s.r.Valid()
    ensures Read(s, size).0.Data? ==> ReadAll(s, [size]).0 == Read(s, size).0.bytes
  {
    var (outcome, t) := Read(s, size);
    if outcome.Data? {
      assert ReadAll(t, []) == ([], t) && [size][1..] == [];
      assert outcome.bytes + [] == outcome.bytes;
    }
  }

  /** A header that arrives in one read. */
  lemma ReceiveWhole(s: Socket, rest: seq<Chunk>)
    requires s.r.Valid() && 0 < s.r.toRecv <= |s.net.bytes| && s.net.schedule == [Avail(s.r.toRecv)] + rest
    ensures Receive(s).Go? && Receive(s).s.net.schedule == rest
  {
  }

  lemma HeaderRound(s: Socket, fs: seq<Frame>, rest: seq<Chunk>, size: nat)
    requires At(s, fs, 0) && s.r.state.FrameHeader? && s.r.toRecv <= |s.net.bytes|
    requires s.net.schedule == [Avail(s.r.toRecv)] + rest
    ensures Receive(s).Go?
    ensures var s1 := Receive(s).s.(r := HeaderRead(Receive(s).s.r));
            fs != [] && At(s1, fs, 0) && s1.net.schedule == rest && Read(s, size) == Read(s1, size)
            && s1.r.bufPos == 0 && (s1.r.state.FrameOpt? <==> OptBytes(fs[0]) != [])
  {
    ReceiveWhole(s, rest);
    HeaderAt(s, fs);
  }

  lemma AfterHeaderLeaks(s: Socket, fs: seq<Frame>, rest: seq<Chunk>)
    requires |fs| == 1 && At(s, fs, 0) && IsControlFrame(fs[0]) && |fs[0].payload| >= 2 && !s.r.state.FrameHeader?
    requires s.r.bufPos == 0 && (s.r.state.FrameOpt? <==> OptBytes(fs[0]) != [])
    requires s.net.schedule == (if OptBytes(fs[0]) == [] then [] else [Avail(|OptBytes(fs[0])|)]) + [Avail(1)]
    ensures Read(s, 1).0 == Data([fs[0].payload[0]])
  {
    if s.r.state.FrameOpt? {
      assert s.r.buf[..0] + s.net.bytes == s.net.bytes;
      ReceiveWhole(s, [Avail(1)]);
      OptAt(s, fs);
      var s1 := Receive(s).s.(r := OptRead(Receive(s).s.r));
      FirstByteLeaks(s1, fs);
    } else {
      assert s.net.schedule == [Avail(1)];
      FirstByteLeaks(s, fs);
    }
  }

  lemma FirstByteLeaks(s: Socket, fs: seq<Frame>)
    requires At(s, fs, 0) && s.r.state.Control? && |fs[0].payload| >= 2
    requires s.net.schedule == [Avail(1)]
    ensures Read(s, 1).0 == Data([fs[0].payload[0]])
  {
    var f := fs[0];
    var (got, net) := NetRead(s.net, 1);
    assert got == Data(s.net.bytes[..1]);
    BodySlice(f, 0, got.bytes, net.bytes, EncodeAll(fs[1..]));
    assert f.payload[0..1] == [f.payload[0]];
  }

  // ---------- the writer ----------

  /** The frame that websocket_write makes of a message: unmasked, with the shorter length encoding. */
  function WrittenFrame(opts: Byte, message: seq<Byte>): Frame {
    Frame(0x80 + Opcode(opts), false, [0, 0, 0, 0], |message| >= 126, message)
  }

  function WrittenFrames(opts: Byte, messages: seq<seq<Byte>>): (fs: seq<Frame>)
    ensures |fs| == |messages|
  {
    seq(|messages|, i requires 0 <= i < |messages| => WrittenFrame(opts, messages[i]))
  }

  ghost predicate Writable(messages: seq<seq<Byte>>) {
    forall i | 0 <= i < |messages| :: |messages[i]| < 0x10000
  }

  /** The bytes on the socket after writing the messages one by one. */
  function WriteAll(opts: Byte, messages: seq<seq<Byte>>): seq<Byte>
    requires forall i | 0 <= i < |messages| :: |messages[i]| < 0x10000
  {
    if messages == [] then [] else WriteBytes(opts, messages[0]) + WriteAll(opts, messages[1..])
  }

  function Concat(messages: seq<seq<Byte>>): seq<Byte> {
    if messages == [] then [] else messages[0] + Concat(messages[1..])
  }

  lemma {:induction false} XorZero(a: nat, n: nat)
    requires a < Pow2(n)
    ensures XorBits(a, 0, n) == a
  {
    if n > 0 {
      XorZero(a / 2, n - 1);
    }
  }

  lemma WriteIsFrame(opts: Byte, message: seq<Byte>, rest: seq<Byte>)
    requires |message| < 0x10000
    ensures ValidFrame(WrittenFrame(opts, message))
    ensures WriteBytes(opts, message) + rest == EncodeBefore(WrittenFrame(opts, message), rest)
  {
    var f := WrittenFrame(opts, message);
    var body := Body(f);
    forall i | 0 <= i < |message| ensures body[i] == message[i] {
      assert Pow2(8) == 256 by { XorRange(0, 0, 8); }
      XorZero(message[i], 8);
    }
    assert body == message;
    WriteShape(f.first, message, rest);
  }

  lemma WriteShape(first: Byte, message: seq<Byte>, rest: seq<Byte>)
    requires |message| < 0x10000
    ensures |message| < 126 ==>
              ([first, |message|] + message) + rest == [first, |message|] + (([] + []) + (message + rest))
    ensures |message| >= 126 ==>
              ([first, 126, |message| / 256, |message| % 256] + message) + rest
              == [first, 126] + (([|message| / 256, |message| % 256] + []) + (message + rest))
  {
  }

  lemma {:induction false} WriteAllIsFrames(opts: Byte, messages: seq<seq<Byte>>)
    requires Writable(messages) && !IsControl(0x80 + Opcode(opts))
    ensures var fs := WrittenFrames(opts, messages);
            && ValidFrames(fs) && SmallControls(fs)
            && WriteAll(opts, messages) == EncodeAll(fs)
            && DataOf(fs) == Concat(messages)
    decreases |messages|
  {
    var fs := WrittenFrames(opts, messages);
    if messages == [] {
    } else {
      WriteAllIsFrames(opts, messages[1..]);
      assert fs[1..] == WrittenFrames(opts, messages[1..]);
      WriteIsFrame(opts, messages[0], WriteAll(opts, messages[1..]));
    }
  }

  /** Round trip: what websocket_write puts on a socket, the reader at the other end gives back unchanged,
      for messages of any length below 65536, on both sides of the change of the length encoding at 126
      bytes, under every split. */
  lemma RoundTrip(opts: Byte, messages: seq<seq<Byte>>, schedule: seq<Chunk>, sizes: seq<nat>, blocking: bool, buf: seq<Byte>)
    requires Writable(messages) && !IsControl(0x80 + Opcode(opts)) && |buf| == 6
    ensures var (got, t) := ReadAll(Start(WriteAll(opts, messages), schedule, blocking, buf), sizes);
            got <= Concat(messages) && (t.net.bytes == [] ==> got == Concat(messages))
  {
    WriteAllIsFrames(opts, messages);
    ReadsDeliverPayloads(WrittenFrames(opts, messages), schedule, sizes, blocking, buf);
  }

  // ---------- the answer to a close frame ----------

  /** The end of a close frame: the call returns 0, and the answer goes to the socket as the payload of one more frame of
      the kind that the application writes. */
  lemma CloseReplyIsPayload(s: Socket, out: seq<Byte>)
    requires s.r.Valid() && s.r.state.Control? && Opcode(s.r.lastFlags) == FRAME_CLOSE
    ensures ValidFrame(WrittenFrame(s.r.opts, CLOSE_RESP)) && ValidFrames([WrittenFrame(s.r.opts, CLOSE_RESP)])
    ensures var p := EndFrame(s, out);
            && p.Return? && p.outcome == Eof
            && p.s.net.sent == s.net.sent + EncodeAll([WrittenFrame(s.r.opts, CLOSE_RESP)])
  {
    var f := WrittenFrame(s.r.opts, CLOSE_RESP);
    WriteIsFrame(s.r.opts, CLOSE_RESP, []);
    assert WriteBytes(s.r.opts, CLOSE_RESP) + [] == WriteBytes(s.r.opts, CLOSE_RESP);
    assert [f][1..] == [] && EncodeAll([f]) == EncodeBefore(f, []);
  }

  /** So it is a close frame, which section 5.5.1 wants, exactly if the application writes close frames; an object that
      is new writes text frames. */
  lemma CloseReplyIsCloseIff(s: Socket)
    ensures Opcode(WrittenFrame(s.r.opts, CLOSE_RESP).first) == FRAME_CLOSE <==> Opcode(s.r.opts) == FRAME_CLOSE
    ensures forall blocking, buf: seq<Byte> | |buf| == 6 ::
              Opcode(WrittenFrame(NewReader(blocking, buf).opts, CLOSE_RESP).first) == FRAME_TXT
  {
  }
}
