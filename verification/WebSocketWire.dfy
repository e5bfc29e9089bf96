/** extmod/modwebsocket.c: the bytes on the wire, said with the numbers and bits of sections 5.2 to 5.7 of RFC 6455. */
module WebSocketWire {
  import opened WebSocketFraming
  import opened WebSocketRuns

  // ---------- masking ----------

  /** Bit k of a number. */
  function Bit(n: nat, k: nat): nat {
    if k == 0 then n % 2 else Bit(n / 2, k - 1)
  }

  lemma {:induction false} XorBitsBit(a: nat, b: nat, n: nat, k: nat)
    requires k < n
    ensures Bit(XorBits(a, b, n), k) == (Bit(a, k) + Bit(b, k)) % 2
  {
    var low := if a % 2 == b % 2 then 0 else 1;
    var x := XorBits(a / 2, b / 2, n - 1);
    assert (low + 2 * x) / 2 == x && (low + 2 * x) % 2 == low;
    if k > 0 {
      XorBitsBit(a / 2, b / 2, n - 1, k - 1);
    }
  }

  /** Each bit of the exclusive or of two bytes is the sum of their bits modulo 2. */
  lemma XorBit(a: Byte, b: Byte, k: nat)
    requires k < 8
    ensures Bit(Xor(a, b), k) == (Bit(a, k) + Bit(b, k)) % 2
  {
    XorBitsBit(a, b, 8, k);
  }

  /** Section 5.3: byte i of the data goes with byte (pos + i) mod 4 of the key, bit by bit. */
  lemma MaskedBit(data: seq<Byte>, key: seq<Byte>, pos: nat, i: nat, k: nat)
    requires |key| == 4 && i < |data| && k < 8
    ensures |Masked(data, key, pos)| == |data|
    ensures Bit(Masked(data, key, pos)[i], k) == (Bit(data[i], k) + Bit(key[(pos + i) % 4], k)) % 2
  {
    XorBit(data[i], key[(pos + i) % 4], k);
  }

  /** The payload on the wire: masked from its first byte on, or as it is. */
  lemma BodyBit(f: Frame, i: nat, k: nat)
    requires |f.key| == 4 && i < |f.payload| && k < 8
    ensures |Body(f)| == |f.payload|
    ensures f.masked ==> Bit(Body(f)[i], k) == (Bit(f.payload[i], k) + Bit(f.key[i % 4], k)) % 2
    ensures !f.masked ==> Body(f)[i] == f.payload[i]
  {
    MaskedBit(f.payload, Key(f), 0, i, k);
    if !f.masked {
      assert Pow2(8) == 256 by { XorRange(0, 0, 8); }
      XorZero(f.payload[i], 8);
    }
  }

  // ---------- the fields of a header ----------

  /** A byte as a high and a low part. */
  lemma HeaderFields(high: nat, low: nat)
    ensures high < 16 && low < 16 ==>
              && Opcode(16 * high + low) == low
              && (IsControl(16 * high + low) <==> low >= 8)
              && (HighBit(16 * high + low) <==> high >= 8)
    ensures high < 2 && low < 128 ==>
              Low7(128 * high + low) == low && (HighBit(128 * high + low) <==> high == 1)
  {
  }

  /** Where the payload begins. */
  function BodyAt(f: Frame): nat {
    (if f.long then 4 else 2) + (if f.masked then 4 else 0)
  }

  lemma FrameParts(f: Frame, rest: seq<Byte>)
    requires ValidFrame(f)
    ensures var e := EncodeBefore(f, rest);
            && |OptBytes(f)| == BodyAt(f) - 2 && |e| == BodyAt(f) + |f.payload| + |rest|
            && e[0] == f.first && e[1] == SecondByte(f) && e[2..BodyAt(f)] == OptBytes(f)
            && e[BodyAt(f)..] == Body(f) + rest
  {
    OptFields(f, OptBytes(f));
    var head, tail := [f.first, SecondByte(f)] + OptBytes(f), Body(f) + rest;
    assert EncodeBefore(f, rest) == head + tail;
  }

  /** The bytes of a frame in their order. Lengths have their high byte first. */
  lemma FrameLayout(f: Frame, rest: seq<Byte>)
    requires ValidFrame(f)
    ensures var e, at := EncodeBefore(f, rest), if f.long then 4 else 2;
            var body := if f.masked then at + 4 else at;
            && |e| == body + |f.payload| + |rest|
            && e[0] == f.first && e[0] >= 128
            && (e[1] >= 128 <==> f.masked)
            && e[1] % 128 == (if f.long then 126 else |f.payload|)
            && (f.long ==> e[2] as int * 256 + e[3] == |f.payload|)
            && (f.masked ==> e[at..at + 4] == f.key)
            && e[body..] == Body(f) + rest
  {
    FrameParts(f, rest);
    OptFields(f, OptBytes(f));
    var e, opt := EncodeBefore(f, rest), OptBytes(f);
    if f.masked {
      assert e[2..BodyAt(f)][|opt| - 4..] == e[BodyAt(f) - 4..BodyAt(f)];
    }
    if f.long {
      assert e[2] == e[2..BodyAt(f)][0] && e[3] == e[2..BodyAt(f)][1];
    }
  }

  /** What the writer puts out: FIN and the opcode of the application, no mask, the length in one or in two bytes, and
      the message as it is. */
  lemma WriteLayout(opts: Byte, message: seq<Byte>)
    requires |message| < 0x10000
    ensures var w, head := WriteBytes(opts, message), if |message| < 126 then 2 else 4;
            && |w| == head + |message| && w[head..] == message
            && w[0] == 128 + opts % 16
            && w[1] == (if |message| < 126 then |message| else 126)
            && (|message| >= 126 ==> w[2] as int * 256 + w[3] == |message|)
  {
  }

  // ---------- the examples of section 5.7 ----------

  const HELLO: seq<Byte> := [0x48, 0x65, 0x6c, 0x6c, 0x6f]

  /** A new object writes text frames, and has bit 7 of its options set for blocking writes. */
  lemma NewReaderOptions(blocking: bool, buf: seq<Byte>)
    requires |buf| == 6
    ensures NewReader(blocking, buf).opts == 1 + if blocking then 128 else 0
  {
  }

  /** An unmasked text message. */
  lemma UnmaskedHello(blocking: bool, buf: seq<Byte>)
    requires |buf| == 6
    ensures WriteBytes(NewReader(blocking, buf).opts, HELLO) == [0x81, 0x05, 0x48, 0x65, 0x6c, 0x6c, 0x6f]
    ensures HELLO == Concat([HELLO])
  {
    assert Concat([HELLO][1..]) == [];
  }

  const MASKED_HELLO := Frame(0x81, true, [0x37, 0xfa, 0x21, 0x3d], false, HELLO)

  function Differ(p: nat, q: nat): nat {
    if p == q then 0 else 1
  }

  lemma XorDouble(a: nat, p: nat, b: nat, q: nat, n: nat)
    requires p < 2 && q < 2
    ensures XorBits(2 * a + p, 2 * b + q, n + 1) == Differ(p, q) + 2 * XorBits(a, b, n)
  {
  }

  /** The exclusive or with its lowest four bits taken apart. */
  lemma XorLow(a: nat, a3: nat, a2: nat, a1: nat, a0: nat, b: nat, b3: nat, b2: nat, b1: nat, b0: nat, n: nat)
    requires a3 < 2 && a2 < 2 && a1 < 2 && a0 < 2 && b3 < 2 && b2 < 2 && b1 < 2 && b0 < 2
    ensures XorBits(16 * a + 8 * a3 + 4 * a2 + 2 * a1 + a0, 16 * b + 8 * b3 + 4 * b2 + 2 * b1 + b0, n + 4)
         == 16 * XorBits(a, b, n) + 8 * Differ(a3, b3) + 4 * Differ(a2, b2) + 2 * Differ(a1, b1) + Differ(a0, b0)
  {
    XorDouble(a, a3, b, b3, n);
    XorDouble(2 * a + a3, a2, 2 * b + b3, b2, n + 1);
    XorDouble(4 * a + 2 * a3 + a2, a1, 4 * b + 2 * b3 + b2, b1, n + 2);
    XorDouble(8 * a + 4 * a3 + 2 * a2 + a1, a0, 8 * b + 4 * b3 + 2 * b2 + b1, b0, n + 3);
  }

  /** Two bytes whose halves have these bits. */
  lemma XorHalves(x: Byte, a: nat, a3: nat, a2: nat, a1: nat, a0: nat, y: Byte, b: nat, b3: nat, b2: nat, b1: nat, b0: nat)
    requires a3 < 2 && a2 < 2 && a1 < 2 && a0 < 2 && b3 < 2 && b2 < 2 && b1 < 2 && b0 < 2
    requires x == 16 * a + 8 * a3 + 4 * a2 + 2 * a1 + a0 && y == 16 * b + 8 * b3 + 4 * b2 + 2 * b1 + b0
    ensures Xor(x, y) == 16 * XorBits(a, b, 4) + 8 * Differ(a3, b3) + 4 * Differ(a2, b2) + 2 * Differ(a1, b1) + Differ(a0, b0)
  {
    XorLow(a, a3, a2, a1, a0, b, b3, b2, b1, b0, 4);
  }

  lemma XorHalf(a: nat, a3: nat, a2: nat, a1: nat, a0: nat, b: nat, b3: nat, b2: nat, b1: nat, b0: nat)
    requires a3 < 2 && a2 < 2 && a1 < 2 && a0 < 2 && b3 < 2 && b2 < 2 && b1 < 2 && b0 < 2
    requires a == 8 * a3 + 4 * a2 + 2 * a1 + a0 && b == 8 * b3 + 4 * b2 + 2 * b1 + b0
    ensures XorBits(a, b, 4) == 8 * Differ(a3, b3) + 4 * Differ(a2, b2) + 2 * Differ(a1, b1) + Differ(a0, b0)
  {
    XorLow(0, a3, a2, a1, a0, 0, b3, b2, b1, b0, 0);
  }

  lemma HelloXor(x: seq<Byte>, y: seq<Byte>)
    requires x == [0x48, 0x65, 0x6c, 0x6f] && y == [0x37, 0xfa, 0x21, 0x3d]
    ensures Xor(x[0], y[0]) == 0x7f && Xor(x[1], y[1]) == 0x9f && Xor(x[2], y[2]) == 0x4d
    ensures Xor(x[2], y[3]) == 0x51 && Xor(x[3], y[0]) == 0x58
  {
    XorHalf(4, 0, 1, 0, 0, 3, 0, 0, 1, 1);
    XorHalves(x[0], 4, 1, 0, 0, 0, y[0], 3, 0, 1, 1, 1);
    XorHalf(6, 0, 1, 1, 0, 15, 1, 1, 1, 1);
    XorHalves(x[1], 6, 0, 1, 0, 1, y[1], 15, 1, 0, 1, 0);
    XorHalf(6, 0, 1, 1, 0, 2, 0, 0, 1, 0);
    XorHalves(x[2], 6, 1, 1, 0, 0, y[2], 2, 0, 0, 0, 1);
    XorHalf(6, 0, 1, 1, 0, 3, 0, 0, 1, 1);
    XorHalves(x[2], 6, 1, 1, 0, 0, y[3], 3, 1, 1, 0, 1);
    XorHalves(x[3], 6, 1, 1, 1, 1, y[0], 3, 0, 1, 1, 1);
  }

  lemma MaskedHello()
    ensures ValidFrame(MASKED_HELLO)
    ensures EncodeBefore(MASKED_HELLO, []) == [0x81, 0x85, 0x37, 0xfa, 0x21, 0x3d, 0x7f, 0x9f, 0x4d, 0x51, 0x58]
  {
    HelloBody();
    OptFields(MASKED_HELLO, OptBytes(MASKED_HELLO));
    assert OptBytes(MASKED_HELLO) == MASKED_HELLO.key;
  }

  lemma HelloBody()
    ensures Body(MASKED_HELLO) == [0x7f, 0x9f, 0x4d, 0x51, 0x58]
  {
    var x, key := [HELLO[0], HELLO[1], HELLO[2], HELLO[4]], MASKED_HELLO.key;
    HelloXor(x, key);
    var body := Body(MASKED_HELLO);
    assert body[0] == Xor(x[0], key[0]) && body[1] == Xor(x[1], key[1]) && body[2] == Xor(x[2], key[2]);
    assert body[3] == Xor(x[2], key[3]) && body[4] == Xor(x[3], key[0]);
  }

  /** A message of 256 bytes. */
  lemma LongHeader(opts: Byte, message: seq<Byte>)
    requires Opcode(opts) == 2 && |message| == 256
    ensures WriteBytes(opts, message) == [0x82, 0x7E, 0x01, 0x00] + message
  {
  }

  // ---------- what the reader makes of a header ----------

  /** A header without FIN or with a length of eight bytes stops the reader by an assertion. */
  lemma HeaderRefused(s: Socket, size: nat)
    requires s.r.Valid() && s.r.state.FrameHeader? && Receive(s).Go?
    requires var b := Receive(s).s.r.buf; b[0] < 128 || b[1] % 128 == 127
    ensures Read(s, size).0 == AssertionFailed
  {
  }

  /** The kind of message: a continuation frame keeps the one of the frame before, every other frame sets it. */
  lemma MessageKind(r: Reader)
    requires |r.buf| == 6
    ensures HeaderRead(r).wsFlags % 16 == (if r.buf[0] % 16 == 0 then r.wsFlags % 16 else r.buf[0] % 16)
    ensures HeaderRead(r).wsFlags / 16 == r.buf[0] / 16
  {
    var f: int := r.buf[0];
    assert f % 16 == 0 ==> (r.wsFlags % 16 + f) / 16 == f / 16 && (r.wsFlags % 16 + f) % 16 == r.wsFlags % 16;
  }

  /** One call of the socket's read for a header: it may be enough, too little, or nothing. */
  lemma HeaderReceived(s: Socket)
    requires s.r.Valid() && s.r.toRecv != 0
    ensures s.net.schedule == [] ==> Receive(s) == Return(Eof, s)
    ensures s.net.schedule != [] && s.net.schedule[0].Failure? ==>
              Receive(s).Return? && Receive(s).outcome == Error(s.net.schedule[0].errno) && Receive(s).s.r == s.r
    ensures s.net.schedule != [] && s.net.schedule[0].Avail? ==>
              var n := Min(s.net.schedule[0].n, |s.net.bytes|);
              if n == 0 then Receive(s).Return? && Receive(s).outcome == Eof && Receive(s).s.r == s.r
              else if n < s.r.toRecv then
                && Receive(s).Return? && Receive(s).outcome == Error(11)
                && Receive(s).s.r.toRecv == s.r.toRecv - n && Receive(s).s.net.bytes == s.net.bytes[n..]
              else Receive(s).Go? && Receive(s).s.net.bytes == s.net.bytes[s.r.toRecv..]
  {
  }

  // ---------- control frames ----------

  /** The end of a close frame is answered with these bytes; at the end of any other control frame, nothing is sent
      and the reader goes on. */
  lemma ControlFrameEnds(s: Socket, out: seq<Byte>)
    requires s.r.Valid() && s.r.state.Control?
    ensures var p := EndFrame(s, out);
            if s.r.lastFlags % 16 == 8 then
              p.Return? && p.outcome == Eof && p.s.net.sent == s.net.sent + [128 + s.r.opts % 16, 2, 0x88, 0]
            else p.Go? && p.s.net == s.net
  {
  }

  // ---------- the end of the data ----------

  /** Unless it has answered a close frame, a read reports the end of the data only when the socket does. */
  lemma {:induction false} EndIsEnd(s: Socket, size: nat)
    requires s.r.Valid() && size > 0 && forall i | 0 <= i < |s.net.schedule| :: s.net.schedule[i] != Avail(0)
    ensures var (outcome, t) := Read(s, size);
            && s.net.sent <= t.net.sent
            && (outcome == Eof && t.net.sent == s.net.sent ==> t.net.bytes == [] || t.net.schedule == [])
    decreases |s.net.bytes|, if s.r.toRecv == 0 then 1 else 0
  {
    var p := Receive(s);
    ReceiveEnd(s);
    if p.Go? {
      match s.r.state {
        case FrameHeader => if HeaderAccepted(p.s.r) { EndIsEnd(p.s.(r := HeaderRead(p.s.r)), size); }
        case FrameOpt => EndIsEnd(p.s.(r := OptRead(p.s.r)), size);
        case _ =>
          PayloadEnd(p.s, size);
          var q := PayloadRead(p.s, size);
          if q.Go? { EndIsEnd(q.s, size); }
      }
    }
  }

  lemma ReceiveEnd(s: Socket)
    requires s.r.Valid() && forall i | 0 <= i < |s.net.schedule| :: s.net.schedule[i] != Avail(0)
    ensures var p := Receive(s);
            && p.s.net.sent == s.net.sent
            && (forall i | 0 <= i < |p.s.net.schedule| :: p.s.net.schedule[i] != Avail(0))
            && (p.Return? && p.outcome == Eof ==> p.s.net.bytes == [] || p.s.net.schedule == [])
  {
  }

  lemma PayloadEnd(s: Socket, size: nat)
    requires s.r.Valid() && !s.r.state.FrameHeader? && !s.r.state.FrameOpt? && size > 0
    requires forall i | 0 <= i < |s.net.schedule| :: s.net.schedule[i] != Avail(0)
    ensures var p := PayloadRead(s, size);
            && s.net.sent <= p.s.net.sent
            && (forall i | 0 <= i < |p.s.net.schedule| :: p.s.net.schedule[i] != Avail(0))
            && (p.Go? ==> p.s.net.sent == s.net.sent)
            && (p.Return? && p.outcome == Eof && p.s.net.sent == s.net.sent ==> p.s.net.bytes == [] || p.s.net.schedule == [])
  {
  }
}
