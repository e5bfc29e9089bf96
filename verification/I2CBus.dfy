/** The I2C bus of extmod/machine_i2c.c seen from outside: what a bus monitor reads off the SCL and SDA lines
    (sections 3.1.3 to 3.1.6 of NXP UM10204), and what a slave may do. */
module I2CBus {
  import opened Wrappers

  /** The levels of the two lines. */
  datatype Line = Line(scl: bool, sda: bool)

  /** What a monitor reports: conditions, bytes with their acknowledge bit, and a condition inside a byte. */
  datatype Item = START | STOP | Data(value: nat, ack: bool) | PARTIAL

  /** A monitor: the last levels, the bit of the clock pulse under way, and the bits of the byte under way. */
  datatype Monitor = Monitor(scl: bool, sda: bool, pending: Option<bool>, data: nat, count: nat, log: seq<Item>)

  function Bit(b: bool): nat {
    if b then 1 else 0
  }

  /** A change of SDA under high SCL. */
  function Condition(m: Monitor, item: Item): Monitor {
    m.(pending := None, data := 0, count := 0, log := m.log + (if m.count == 0 then [item] else [PARTIAL, item]))
  }

  /** The end of a clock pulse that carried a bit. */
  function TakeBit(m: Monitor, b: bool): Monitor {
    if m.count < 8 then m.(data := 2 * m.data + Bit(b), count := m.count + 1)
    else m.(data := 0, count := 0, log := m.log + [Data(m.data, !b)])
  }

  function Observe(m: Monitor, line: Line): Monitor {
    var n :=
      if m.scl && line.scl && m.sda && !line.sda then Condition(m, START)
      else if m.scl && line.scl && !m.sda && line.sda then Condition(m, STOP)
      else if !m.scl && line.scl then m.(pending := Some(line.sda))
      else if m.scl && !line.scl && m.pending.Some? then TakeBit(m, m.pending.value).(pending := None)
      else m;
    n.(scl := line.scl, sda := line.sda)
  }

  const IDLE := Monitor(true, true, None, 0, 0, [])

  /** The monitor after it has seen a whole trace, from an idle bus on. */
  function Watch(trace: seq<Line>): Monitor {
    if trace == [] then IDLE else Observe(Watch(trace[..|trace| - 1]), trace[|trace| - 1])
  }

  lemma WatchMore(trace: seq<Line>, line: Line)
    ensures Watch(trace + [line]) == Observe(Watch(trace), line)
  {
    assert (trace + [line])[..|trace|] == trace;
  }

  // ---------- nothing under high SCL escapes the monitor ----------

  /** How often SDA changes while SCL stays high. */
  function HighChanges(before: Line, trace: seq<Line>): nat {
    if trace == [] then 0
    else
      var n := |trace| - 1;
      var last := if n == 0 then before else trace[n - 1];
      HighChanges(before, trace[..n]) + Bit(last.scl && trace[n].scl && last.sda != trace[n].sda)
  }

  /** How many conditions a log has. */
  function Conditions(log: seq<Item>): nat {
    if log == [] then 0
    else Conditions(log[..|log| - 1]) + Bit(log[|log| - 1] in {START, STOP})
  }

  lemma ConditionsMore(log: seq<Item>, item: Item)
    ensures Conditions(log + [item]) == Conditions(log) + Bit(item in {START, STOP})
  {
    assert (log + [item])[..|log|] == log;
  }

  lemma ObserveCounts(m: Monitor, line: Line)
    ensures Conditions(Observe(m, line).log) == Conditions(m.log) + Bit(m.scl && line.scl && m.sda != line.sda)
  {
    var item := if m.sda then START else STOP;
    ConditionsMore(m.log, item);
    ConditionsMore(m.log, PARTIAL);
    ConditionsMore(m.log + [PARTIAL], item);
    assert m.log + [PARTIAL, item] == m.log + [PARTIAL] + [item];
    ConditionsMore(m.log, Data(m.data, m.pending == Some(false)));
  }

  /** The conditions in the log of a trace are all the changes of SDA under high SCL, each once. */
  lemma {:induction false} ConditionsAreHighChanges(trace: seq<Line>)
    ensures Conditions(Watch(trace).log) == HighChanges(Line(true, true), trace)
    ensures trace != [] ==> var l := trace[|trace| - 1]; Watch(trace).scl == l.scl && Watch(trace).sda == l.sda
  {
    if trace != [] {
      var n := |trace| - 1;
      ConditionsAreHighChanges(trace[..n]);
      ObserveCounts(Watch(trace[..n]), trace[n]);
    }
  }

  // ---------- the slave ----------

  /** What the slaves do from one fall of SCL to the next: the level at which they leave SDA, and for how many
      microseconds after the master has released SCL they still hold it. */
  datatype Slot = Slot(sda: bool, hold: nat)

  /** One slot for each low phase of SCL; after the last one the slaves are silent. */
  type Slaves = seq<Slot>

  function At(slaves: Slaves, p: nat): Slot {
    if p < |slaves| then slaves[p] else Slot(true, 0)
  }

  /** Nobody holds SCL too long in the n phases from p on: line 60 wants time left on the counter. */
  ghost predicate InTime(slaves: Slaves, usTimeout: nat, p: nat, n: nat) {
    forall k | p <= k < p + n :: At(slaves, k).hold < usTimeout
  }

  function Pow2(n: nat): nat {
    if n == 0 then 1 else 2 * Pow2(n - 1)
  }

  /** Bit i of a number. */
  function BitOf(val: nat, i: nat): bool
  {
    Shifted(val, i) % 2 == 1
  }

  /** The number without its last i bits. */
  function Shifted(val: nat, i: nat): nat {
    if i == 0 then val else Shifted(val, i - 1) / 2
  }

  /** The first n bits on the wire of a byte that the master sends from phase p on: both ends can pull SDA low. */
  function Wire(slaves: Slaves, p: nat, val: nat, n: nat): nat
    requires n <= 8
  {
    if n == 0 then 0
    else 2 * Wire(slaves, p, val, n - 1) + Bit(BitOf(val, 8 - n) && At(slaves, p + n - 1).sda)
  }

  /** The slaves leave SDA alone in the eight bits from phase p on. */
  ghost predicate Listens(slaves: Slaves, p: nat) {
    forall k | p <= k < p + 8 :: At(slaves, k).sda
  }

  /** A byte sent to slaves that listen arrives. */
  lemma WireIsValue(slaves: Slaves, p: nat, val: nat)
    requires val < 256 && Listens(slaves, p)
    ensures Wire(slaves, p, val, 8) == val
  {
    WireIsShifted(slaves, p, val, 8);
  }

  lemma {:induction false} ShiftedIsSmall(val: nat, i: nat)
    requires val < 256 && i <= 8
    ensures Shifted(val, i) < Pow2(8 - i)
  {
    if i == 0 {
      assert Pow2(8) == 256;
    } else {
      ShiftedIsSmall(val, i - 1);
    }
  }

  lemma {:induction false} WireIsShifted(slaves: Slaves, p: nat, val: nat, n: nat)
    requires val < 256 && Listens(slaves, p) && n <= 8
    ensures Wire(slaves, p, val, n) == Shifted(val, 8 - n)
  {
    if n == 0 {
      ShiftedIsSmall(val, 8);
    } else {
      WireIsShifted(slaves, p, val, n - 1);
    }
  }

  /** The first n bits that the slaves send from phase p on. */
  function Answer(slaves: Slaves, p: nat, n: nat): nat {
    if n == 0 then 0 else 2 * Answer(slaves, p, n - 1) + Bit(At(slaves, p + n - 1).sda)
  }

  /** They make up a number of n bits, the first one the highest. */
  lemma {:induction false} AnswerIsNumber(slaves: Slaves, p: nat, n: nat, i: nat)
    requires i < n
    ensures Answer(slaves, p, n) < Pow2(n) && BitOf(Answer(slaves, p, n), n - 1 - i) == At(slaves, p + i).sda
  {
    var b := Answer(slaves, p, n);
    if i < n - 1 {
      AnswerIsNumber(slaves, p, n - 1, i);
      ShiftOnce(b, n - 1 - i);
    } else {
      AnswerIsSmall(slaves, p, n);
      assert Shifted(b, 0) == b;
    }
  }

  lemma {:induction false} AnswerIsSmall(slaves: Slaves, p: nat, n: nat)
    ensures Answer(slaves, p, n) < Pow2(n)
  {
    if n > 0 {
      AnswerIsSmall(slaves, p, n - 1);
    }
  }

  lemma {:induction false} ShiftOnce(val: nat, i: nat)
    requires i > 0
    ensures Shifted(val, i) == Shifted(val / 2, i - 1)
  {
    if i > 1 {
      ShiftOnce(val, i - 1);
    } else {
      assert Shifted(val, 0) == val;
    }
  }

  // ---------- messages ----------

  /** SCL is low and slaves hold it no longer than the counter lasts, or it is high and need not be waited for. */
  predicate LetsGo(slaves: Slaves, usTimeout: nat, scl: bool, p: nat) {
    (if scl then 0 else At(slaves, p).hold) < usTimeout
  }

  /** Byte by byte from phase p on, what a monitor sees of the bytes that the master sends. */
  function Sent(slaves: Slaves, p: nat, bytes: seq<nat>): (r: seq<Item>)
    ensures |r| == |bytes|
  {
    seq(|bytes|, j requires 0 <= j < |bytes| =>
      Data(Wire(slaves, p + 9 * j, bytes[j], 8), !At(slaves, p + 9 * j + 8).sda))
  }

  /** And of n bytes that the slaves send, of which the master acknowledges all but the last. */
  function Received(slaves: Slaves, p: nat, n: nat): (r: seq<Item>)
    ensures |r| == n
  {
    seq(n, j requires 0 <= j < n =>
      Data(Answer(slaves, p + 9 * j, 8), j < n - 1 || !At(slaves, p + 9 * j + 8).sda))
  }

  /** Of n bytes from phase p on, how many are acknowledged before one is not. */
  function Acks(slaves: Slaves, p: nat, n: nat): (r: nat)
    ensures r <= n
    decreases n
  {
    if n == 0 || At(slaves, p + 8).sda then 0 else 1 + Acks(slaves, p + 9, n - 1)
  }

  /** Of n bytes from phase p on, how many are sent: up to the first that is not acknowledged. */
  function SentCount(slaves: Slaves, p: nat, n: nat): (r: nat)
    ensures r <= n
  {
    var acks := Acks(slaves, p, n);
    if acks < n then acks + 1 else n
  }

  lemma {:induction false} AcksArePrefix(slaves: Slaves, p: nat, n: nat)
    ensures forall j | 0 <= j < Acks(slaves, p, n) :: !At(slaves, p + 9 * j + 8).sda
    ensures Acks(slaves, p, n) < n ==> At(slaves, p + 9 * Acks(slaves, p, n) + 8).sda
    decreases n
  {
    if n > 0 && !At(slaves, p + 8).sda {
      AcksArePrefix(slaves, p + 9, n - 1);
      forall j | 0 <= j < Acks(slaves, p, n) ensures !At(slaves, p + 9 * j + 8).sda {
        if j > 0 {
          assert p + 9 * j + 8 == (p + 9) + 9 * (j - 1) + 8;
        }
      }
    }
  }

  /** Of a message to slaves that listen, a monitor sees the bytes themselves: the longest prefix that is
      acknowledged, and then at most one byte that is not. */
  lemma SentIsAckedPrefix(slaves: Slaves, p: nat, bytes: seq<nat>)
    requires forall j | 0 <= j < |bytes| :: bytes[j] < 256 && Listens(slaves, p + 9 * j)
    ensures var acks, sent := Acks(slaves, p, |bytes|), SentCount(slaves, p, |bytes|);
            && (sent == acks == |bytes| || sent == acks + 1 <= |bytes|)
            && forall j | 0 <= j < sent :: Sent(slaves, p, bytes[..sent])[j] == Data(bytes[j], j < acks)
  {
    var acks, sent := Acks(slaves, p, |bytes|), SentCount(slaves, p, |bytes|);
    forall j: nat | j < sent ensures Sent(slaves, p, bytes[..sent])[j] == Data(bytes[j], j < acks) {
      SentByte(slaves, p, bytes[..sent], j);
      AckAt(slaves, p, |bytes|, j);
    }
  }

  /** Of the bytes sent, those before the first that is not acknowledged are. */
  lemma AckAt(slaves: Slaves, p: nat, n: nat, j: nat)
    requires j < SentCount(slaves, p, n)
    ensures At(slaves, p + 9 * j + 8).sda == (j >= Acks(slaves, p, n))
  {
    AcksArePrefix(slaves, p, n);
  }

  lemma SentByte(slaves: Slaves, p: nat, bytes: seq<nat>, j: nat)
    requires j < |bytes| && bytes[j] < 256 && Listens(slaves, p + 9 * j)
    ensures Sent(slaves, p, bytes)[j] == Data(bytes[j], !At(slaves, p + 9 * j + 8).sda)
  {
    WireIsValue(slaves, p + 9 * j, bytes[j]);
  }

  lemma AcksStep(slaves: Slaves, p: nat, n: nat, k: nat)
    requires k < n && Acks(slaves, p, n) == k + Acks(slaves, p + 9 * k, n - k)
    ensures SentCount(slaves, p, n) >= k + 1
    ensures if At(slaves, p + 9 * k + 8).sda then Acks(slaves, p, n) == k && SentCount(slaves, p, n) == k + 1
            else Acks(slaves, p, n) == k + 1 + Acks(slaves, p + 9 * (k + 1), n - (k + 1))
  {
    assert p + 9 * k + 9 == p + 9 * (k + 1);
  }

  /** No slave is too slow in a byte sent, up to the first that is not acknowledged. */
  ghost predicate SentInTime(slaves: Slaves, usTimeout: nat, p: nat, n: nat)
    decreases n
  {
    n > 0 ==> InTime(slaves, usTimeout, p, 9) && (At(slaves, p + 8).sda || SentInTime(slaves, usTimeout, p + 9, n - 1))
  }

  lemma {:induction false} SentInTimeIff(slaves: Slaves, usTimeout: nat, p: nat, n: nat)
    ensures SentInTime(slaves, usTimeout, p, n) <==> InTime(slaves, usTimeout, p, 9 * SentCount(slaves, p, n))
    decreases n
  {
    if n > 0 {
      InTimeSplits(slaves, usTimeout, p, 9 * SentCount(slaves, p, n));
      if !At(slaves, p + 8).sda {
        SentInTimeIff(slaves, usTimeout, p + 9, n - 1);
      }
    }
  }

  ghost predicate BytesInTime(slaves: Slaves, usTimeout: nat, p: nat, n: nat)
    decreases n
  {
    n > 0 ==> InTime(slaves, usTimeout, p, 9) && BytesInTime(slaves, usTimeout, p + 9, n - 1)
  }

  lemma {:induction false} BytesInTimeIff(slaves: Slaves, usTimeout: nat, p: nat, n: nat)
    ensures BytesInTime(slaves, usTimeout, p, n) <==> InTime(slaves, usTimeout, p, 9 * n)
    decreases n
  {
    if n > 0 {
      InTimeSplits(slaves, usTimeout, p, 9 * n);
      BytesInTimeIff(slaves, usTimeout, p + 9, n - 1);
    }
  }

  lemma InTimeSplits(slaves: Slaves, usTimeout: nat, p: nat, n: nat)
    requires n >= 9
    ensures InTime(slaves, usTimeout, p, n) <==> InTime(slaves, usTimeout, p, 9) && InTime(slaves, usTimeout, p + 9, n - 9)
  {
  }

  lemma SentMore(slaves: Slaves, p: nat, bytes: seq<nat>, k: nat)
    requires k < |bytes|
    ensures Sent(slaves, p, bytes[..k + 1]) == Sent(slaves, p, bytes[..k])
              + [Data(Wire(slaves, p + 9 * k, bytes[k], 8), !At(slaves, p + 9 * k + 8).sda)]
  {
  }

  lemma ReceivedMore(slaves: Slaves, p: nat, n: nat, k: nat)
    requires k < n
    ensures Received(slaves, p, n)[..k + 1] == Received(slaves, p, n)[..k]
              + [Data(Answer(slaves, p + 9 * k, 8), k < n - 1 || !At(slaves, p + 9 * k + 8).sda)]
  {
  }

  const ETIMEDOUT := 110
  const ENODEV := 19

  /** The byte after START: seven bits of address, and 1 for a read. */
  function AddressByte(addr: nat, read: bool): (r: nat)
    ensures r < 256
  {
    (addr * 2 + Bit(read)) % 256
  }

  /** What a write of n bytes returns that starts in phase p: the number of acknowledged bytes if no slave is
      too slow in a phase that the master waits for, and an error if the address is not acknowledged. */
  ghost function WriteResult(slaves: Slaves, usTimeout: nat, scl: bool, p: nat, n: nat, stop: bool): int {
    var sent := SentCount(slaves, p + 10, n);
    if !LetsGo(slaves, usTimeout, scl, p) || !InTime(slaves, usTimeout, p + 1, 9) then -ETIMEDOUT
    else if At(slaves, p + 9).sda then -ENODEV
    else if !SentInTime(slaves, usTimeout, p + 10, n) then -ETIMEDOUT
    else if stop && !LetsGo(slaves, usTimeout, false, p + 10 + 9 * sent) then -ETIMEDOUT
    else Acks(slaves, p + 10, n)
  }

  /** A message: the address byte, acknowledged, and the bytes after it. */
  function Message(address: nat, bytes: seq<Item>, stop: bool): seq<Item> {
    [START, Data(address, true)] + bytes + if stop then [STOP] else []
  }

  /** What a monitor sees of a write that returns no error. */
  function WriteLog(slaves: Slaves, p: nat, address: nat, src: seq<nat>, stop: bool): seq<Item> {
    Message(Wire(slaves, p + 1, address, 8), Sent(slaves, p + 10, src[..SentCount(slaves, p + 10, |src|)]), stop)
  }

  /** What a read of n bytes returns that starts in phase p. */
  ghost function ReadResult(slaves: Slaves, usTimeout: nat, scl: bool, p: nat, n: nat, stop: bool): int {
    if !LetsGo(slaves, usTimeout, scl, p) || !InTime(slaves, usTimeout, p + 1, 9) then -ETIMEDOUT
    else if At(slaves, p + 9).sda then -ENODEV
    else if !BytesInTime(slaves, usTimeout, p + 10, n) then -ETIMEDOUT
    else if stop && !LetsGo(slaves, usTimeout, false, p + 10 + 9 * n) then -ETIMEDOUT
    else 0
  }

  function ReadLog(slaves: Slaves, p: nat, address: nat, n: nat, stop: bool): seq<Item> {
    Message(Wire(slaves, p + 1, address, 8), Received(slaves, p + 10, n), stop)
  }

  /** Of a write to slaves that listen, a monitor sees START, the address, the bytes up to the first that is not
      acknowledged, all but that one acknowledged, and STOP if wanted. */
  lemma WriteLogIsMessage(slaves: Slaves, p: nat, address: nat, src: seq<nat>, stop: bool)
    requires address < 256 && Listens(slaves, p + 1)
    requires forall j | 0 <= j < |src| :: src[j] < 256 && Listens(slaves, p + 10 + 9 * j)
    ensures var acks, sent := Acks(slaves, p + 10, |src|), SentCount(slaves, p + 10, |src|);
            && (sent == acks == |src| || sent == acks + 1 <= |src|)
            && WriteLog(slaves, p, address, src, stop) ==
                 Message(address, seq(sent, j requires 0 <= j < sent => Data(src[j], j < acks)), stop)
  {
    var acks, sent := Acks(slaves, p + 10, |src|), SentCount(slaves, p + 10, |src|);
    WireIsValue(slaves, p + 1, address);
    SentIsAckedPrefix(slaves, p + 10, src);
    assert Sent(slaves, p + 10, src[..sent]) == seq(sent, j requires 0 <= j < sent => Data(src[j], j < acks));
  }

  /** Of a read from a slave that leaves SDA alone in the ninth pulse, a monitor sees START, the address, the
      bytes of the slave, all but the last acknowledged, and STOP if wanted. */
  lemma ReadLogIsMessage(slaves: Slaves, p: nat, address: nat, n: nat, stop: bool)
    requires address < 256 && Listens(slaves, p + 1)
    requires forall j | 0 <= j < n :: At(slaves, p + 10 + 9 * j + 8).sda
    ensures ReadLog(slaves, p, address, n, stop) ==
              Message(address, seq(n, j requires 0 <= j < n => Data(Answer(slaves, p + 10 + 9 * j, 8), j < n - 1)), stop)
  {
    WireIsValue(slaves, p + 1, address);
    assert Received(slaves, p + 10, n) ==
           seq(n, j requires 0 <= j < n => Data(Answer(slaves, p + 10 + 9 * j, 8), j < n - 1));
  }
}
