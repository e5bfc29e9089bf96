/** extmod/machine_i2c.c: the messages and the results of writeto and readfrom, item by item. */
module I2CMessages {
  import opened I2CBus

  // ---------- the address byte ----------

  /** A 7-bit address goes into the upper seven bits, and the lowest bit is 1 exactly for a read (section 3.1.10 of
      UM10204). */
  lemma AddressByteIs(addr: nat, read: bool)
    requires addr < 128
    ensures AddressByte(addr, read) == 2 * addr + if read then 1 else 0
  {
  }

  /** A longer address loses its high bits, and is the same as another one. */
  lemma AddressIsCut(addr: nat, other: nat, read: bool)
    ensures AddressByte(addr, read) == AddressByte(other, read) <==> addr % 128 == other % 128
  {
    CutByte(addr, read);
    CutByte(other, read);
  }

  lemma CutByte(addr: nat, read: bool)
    ensures AddressByte(addr, read) == 2 * (addr % 128) + Bit(read)
  {
    var q, r := addr / 128, addr % 128;
    assert addr * 2 + Bit(read) == 256 * q + (2 * r + Bit(read));
  }

  // ---------- messages ----------

  /** Bit i of a byte, the lowest one for i = 0, is read with weight 2 to the power of i. */
  lemma ByteOfBits(b7: bool, b6: bool, b5: bool, b4: bool, b3: bool, b2: bool, b1: bool, b0: bool, slaves: Slaves, p: nat)
    requires At(slaves, p).sda == b7 && At(slaves, p + 1).sda == b6 && At(slaves, p + 2).sda == b5
    requires At(slaves, p + 3).sda == b4 && At(slaves, p + 4).sda == b3 && At(slaves, p + 5).sda == b2
    requires At(slaves, p + 6).sda == b1 && At(slaves, p + 7).sda == b0
    ensures Answer(slaves, p, 8) == Half(b7, b6, b5, b4) * 16 + Half(b3, b2, b1, b0)
  {
    AnswerFour(slaves, p, 0);
    AnswerFour(slaves, p, 4);
  }

  function Half(b3: bool, b2: bool, b1: bool, b0: bool): nat {
    (if b3 then 8 else 0) + (if b2 then 4 else 0) + (if b1 then 2 else 0) + if b0 then 1 else 0
  }

  lemma AnswerFour(slaves: Slaves, p: nat, n: nat)
    ensures Answer(slaves, p, n + 4) == 16 * Answer(slaves, p, n)
              + Half(At(slaves, p + n).sda, At(slaves, p + n + 1).sda, At(slaves, p + n + 2).sda, At(slaves, p + n + 3).sda)
  {
    assert Answer(slaves, p, n + 1) == 2 * Answer(slaves, p, n) + Bit(At(slaves, p + n).sda);
    assert Answer(slaves, p, n + 2) == 2 * Answer(slaves, p, n + 1) + Bit(At(slaves, p + n + 1).sda);
    assert Answer(slaves, p, n + 3) == 2 * Answer(slaves, p, n + 2) + Bit(At(slaves, p + n + 2).sda);
  }

  // ---------- bits on the lines ----------

  /** A clock pulse with SDA at the level b all the time that SCL is high. */
  function Pulse(m: Monitor, b: bool): Monitor {
    Observe(Observe(Observe(m, Line(false, b)), Line(true, b)), Line(false, b))
  }

  lemma PulseIs(m: Monitor, b: bool)
    requires !m.scl && m.pending.None?
    ensures var r := Pulse(m, b);
            && !r.scl && r.pending.None?
            && (m.count < 8 ==> r.data == 2 * m.data + (if b then 1 else 0) && r.count == m.count + 1 && r.log == m.log)
            && (m.count >= 8 ==> r.data == r.count == 0 && r.log == m.log + [Data(m.data, !b)])
  {
  }

  function FourPulses(m: Monitor, b3: bool, b2: bool, b1: bool, b0: bool): Monitor {
    Pulse(Pulse(Pulse(Pulse(m, b3), b2), b1), b0)
  }

  lemma FourPulsesAre(m: Monitor, b3: bool, b2: bool, b1: bool, b0: bool)
    requires !m.scl && m.pending.None? && m.count <= 4
    ensures var r := FourPulses(m, b3, b2, b1, b0);
            && !r.scl && r.pending.None?
            && r.data == 16 * m.data + Half(b3, b2, b1, b0) && r.count == m.count + 4 && r.log == m.log
  {
    PulseIs(m, b3);
    PulseIs(Pulse(m, b3), b2);
    PulseIs(Pulse(Pulse(m, b3), b2), b1);
    PulseIs(Pulse(Pulse(Pulse(m, b3), b2), b1), b0);
  }

  /** Section 3.1.5 and 3.1.6: eight pulses carry a byte, the highest bit first, and a ninth one with SDA low
      acknowledges it. */
  lemma NinePulses(m: Monitor, b7: bool, b6: bool, b5: bool, b4: bool, b3: bool, b2: bool, b1: bool, b0: bool, nack: bool)
    requires !m.scl && m.pending.None? && m.count == m.data == 0
    ensures var r := Pulse(FourPulses(FourPulses(m, b7, b6, b5, b4), b3, b2, b1, b0), nack);
            && r.count == 0
            && r.log == m.log + [Data(16 * Half(b7, b6, b5, b4) + Half(b3, b2, b1, b0), !nack)]
  {
    FourPulsesAre(m, b7, b6, b5, b4);
    var half := FourPulses(m, b7, b6, b5, b4);
    FourPulsesAre(half, b3, b2, b1, b0);
    PulseIs(FourPulses(half, b3, b2, b1, b0), nack);
  }

  /** Section 3.1.4: a fall of SDA while SCL is high is a START, and a rise a STOP. The next byte begins anew. */
  lemma ConditionsAre(m: Monitor)
    requires m.scl
    ensures var r := Observe(m, Line(true, !m.sda));
            && r.data == r.count == 0 && r.pending.None? && r.scl && r.sda == !m.sda
            && (m.count == 0 ==> r.log == m.log + [if m.sda then START else STOP])
            && (m.count != 0 ==> r.log == m.log + [PARTIAL, if m.sda then START else STOP])
  {
  }

  /** In phase p the slaves do what their p-th slot says, and nothing when there is none. */
  lemma SlotOf(slaves: Slaves, p: nat)
    ensures p < |slaves| ==> At(slaves, p) == slaves[p]
    ensures p >= |slaves| ==> At(slaves, p).sda && At(slaves, p).hold == 0
  {
  }

  lemma MessageItems(address: nat, bytes: seq<Item>, stop: bool)
    ensures var log := Message(address, bytes, stop);
            && |log| == 2 + |bytes| + (if stop then 1 else 0)
            && log[0] == START && log[1] == Data(address, true)
            && log[2..2 + |bytes|] == bytes && (stop ==> log[2 + |bytes|] == STOP)
  {
  }

  /** Of a write to a 7-bit address, a monitor sees START, twice the address, and byte for byte what was sent; STOP is the
      last item if it was wanted, and only then. */
  lemma WriteItems(slaves: Slaves, p: nat, addr: nat, src: seq<nat>, stop: bool)
    requires addr < 128
    requires forall k | p + 1 <= k < p + 9 :: At(slaves, k).sda
    requires forall j | 0 <= j < |src| ::
               src[j] < 256 && forall k | p + 10 + 9 * j <= k < p + 18 + 9 * j :: At(slaves, k).sda
    ensures var log, acks := WriteLog(slaves, p, AddressByte(addr, false), src, stop), Acks(slaves, p + 10, |src|);
            var sent := if acks < |src| then acks + 1 else acks;
            && |log| == 2 + sent + (if stop then 1 else 0)
            && log[0] == START && log[1] == Data(2 * addr, true)
            && (forall j | 0 <= j < sent :: log[2..2 + sent][j] == Data(src[j], j < acks))
            && (stop ==> log[2 + sent] == STOP)
  {
    forall j: nat | j < |src| ensures src[j] < 256 && Listens(slaves, p + 10 + 9 * j) {
      assert src[j] < 256;
    }
    WriteLogIsMessage(slaves, p, AddressByte(addr, false), src, stop);
    var acks, sent := Acks(slaves, p + 10, |src|), SentCount(slaves, p + 10, |src|);
    MessageItems(2 * addr, seq(sent, j requires 0 <= j < sent => Data(src[j], j < acks)), stop);
  }

  /** Of a read, START, twice the address and 1, and the bytes of the slave, of which the last is not acknowledged. */
  lemma ReadItems(slaves: Slaves, p: nat, addr: nat, n: nat, stop: bool)
    requires addr < 128 && forall k | p + 1 <= k < p + 9 :: At(slaves, k).sda
    requires forall j | 0 <= j < n :: At(slaves, p + 10 + 9 * j + 8).sda
    ensures var log := ReadLog(slaves, p, AddressByte(addr, true), n, stop);
            && |log| == 2 + n + (if stop then 1 else 0)
            && log[0] == START && log[1] == Data(2 * addr + 1, true)
            && (forall j | 0 <= j < n :: log[2..2 + n][j] == Data(Answer(slaves, p + 10 + 9 * j, 8), j < n - 1))
            && (stop ==> log[2 + n] == STOP)
  {
    ReadLogIsMessage(slaves, p, AddressByte(addr, true), n, stop);
    MessageItems(2 * addr + 1, seq(n, j requires 0 <= j < n => Data(Answer(slaves, p + 10 + 9 * j, 8), j < n - 1)), stop);
  }

  // ---------- results ----------

  /** No slave holds SCL for as long as the timeout in any phase that the master waits for. */
  ghost predicate NobodyIsSlow(slaves: Slaves, usTimeout: nat, scl: bool, p: nat, end: nat, stop: bool) {
    && usTimeout > 0
    && (forall k | p < k < end :: At(slaves, k).hold < usTimeout)
    && (!scl ==> At(slaves, p).hold < usTimeout)
    && (stop ==> At(slaves, end).hold < usTimeout)
  }

  /** The start of a message fails in two ways: a slave is too slow, or nobody answers. */
  ghost predicate IsTooSlowAtStart(slaves: Slaves, usTimeout: nat, scl: bool, p: nat) {
    !NobodyIsSlow(slaves, usTimeout, scl, p, p + 10, false)
  }

  /** A write gives the number of acknowledged bytes exactly if the address is acknowledged and no slave is too slow;
      -19 exactly if the address is not acknowledged, in time; and -110 in all other cases. */
  lemma WriteResultIs(slaves: Slaves, usTimeout: nat, scl: bool, p: nat, n: nat, stop: bool)
    ensures var ret, acks := WriteResult(slaves, usTimeout, scl, p, n, stop), Acks(slaves, p + 10, n);
            var end := p + 10 + 9 * if acks < n then acks + 1 else n;
            && (ret >= 0 <==> !At(slaves, p + 9).sda && NobodyIsSlow(slaves, usTimeout, scl, p, end, stop))
            && (ret >= 0 ==> ret == acks)
            && (ret == -19 <==> At(slaves, p + 9).sda && !IsTooSlowAtStart(slaves, usTimeout, scl, p))
            && (ret < 0 && ret != -19 ==> ret == -110)
  {
    var sent := SentCount(slaves, p + 10, n);
    SentInTimeIff(slaves, usTimeout, p + 10, n);
    InTimeMeans(slaves, usTimeout, scl, p, 9 * sent, stop);
    InTimeMeans(slaves, usTimeout, scl, p, 0, false);
  }

  lemma InTimeMeans(slaves: Slaves, usTimeout: nat, scl: bool, p: nat, n: nat, stop: bool)
    ensures NobodyIsSlow(slaves, usTimeout, scl, p, p + 10 + n, stop) <==>
            && LetsGo(slaves, usTimeout, scl, p) && InTime(slaves, usTimeout, p + 1, 9) && InTime(slaves, usTimeout, p + 10, n)
            && (stop ==> LetsGo(slaves, usTimeout, false, p + 10 + n))
  {
    if InTime(slaves, usTimeout, p + 1, 9) && InTime(slaves, usTimeout, p + 10, n) {
      forall k | p < k < p + 10 + n ensures At(slaves, k).hold < usTimeout {
        assert if k < p + 10 then p + 1 <= k < p + 1 + 9 else p + 10 <= k < p + 10 + n;
      }
    }
    if NobodyIsSlow(slaves, usTimeout, scl, p, p + 10 + n, stop) {
      assert InTime(slaves, usTimeout, p + 1, 9) && InTime(slaves, usTimeout, p + 10, n);
    }
  }

  /** And a read gives 0, -19 or -110 in the same way. */
  lemma ReadResultIs(slaves: Slaves, usTimeout: nat, scl: bool, p: nat, n: nat, stop: bool)
    ensures var ret := ReadResult(slaves, usTimeout, scl, p, n, stop);
            && (ret == 0 <==> !At(slaves, p + 9).sda && NobodyIsSlow(slaves, usTimeout, scl, p, p + 10 + 9 * n, stop))
            && (ret == -19 <==> At(slaves, p + 9).sda && !IsTooSlowAtStart(slaves, usTimeout, scl, p))
            && (ret != 0 && ret != -19 ==> ret == -110)
  {
    BytesInTimeIff(slaves, usTimeout, p + 10, n);
    InTimeMeans(slaves, usTimeout, scl, p, 9 * n, stop);
    InTimeMeans(slaves, usTimeout, scl, p, 0, false);
  }
}
