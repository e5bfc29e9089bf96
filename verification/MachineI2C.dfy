/** extmod/machine_i2c.c: the master that drives the two lines step by step. Delays only let time pass. */
module MachineI2C {
  import opened Wrappers
  import opened I2CBus

  class SoftI2C {
    const usTimeout: nat
    const slaves: Slaves
    /** Whether the master leaves the lines high. */
    var scl: bool
    var sda: bool
    /** A slave holds SCL low although the master has released it. */
    var held: bool
    /** How often SCL has fallen. */
    var phase: nat
    /** The levels of the lines so far, and what a monitor has made of them. */
    ghost var trace: seq<Line>
    ghost var mon: Monitor

    ghost predicate Valid()
      reads this
    {
      && mon == Watch(trace)
      && mon.scl == (scl && !held) && mon.sda == (sda && At(slaves, phase).sda)
      && (held ==> scl)
    }

    /** Between two bytes, or before the first one: no bit is under way. */
    ghost predicate BetweenBytes()
      reads this
    {
      Valid() && !held && mon.pending.None? && mon.count == 0 && mon.data == 0
    }

    /** Where a message can start: the bus is idle, or SCL is low after the last message. */
    ghost predicate Ready()
      reads this
    {
      BetweenBytes() && sda
    }

    method Record()
      requires mon == Watch(trace)
      modifies this`trace, this`mon
      ensures mon == Watch(trace) == Observe(old(mon), Line(scl && !held, sda && At(slaves, phase).sda))
    {
      ghost var line := Line(scl && !held, sda && At(slaves, phase).sda);
      WatchMore(trace, line);
      trace := trace + [line];
      mon := Observe(mon, line);
    }

    /** When SCL falls, the slaves move on to their next slot. */
    method SclLow()
      requires Valid()
      modifies this`scl, this`held, this`phase, this`trace, this`mon
      ensures Valid() && !scl && !held && phase == old(phase) + Bit(old(mon.scl))
      ensures mon == (if old(mon.scl) then Observe(old(mon), Line(false, old(mon.sda))) else old(mon)).(
                sda := sda && At(slaves, phase).sda)
    {
      var falls := scl && !held;
      scl, held := false, false;
      if falls {
        Record();
        phase := phase + 1;
        Record();
      }
    }

    /** Lines 50-63: SCL is high if it was, or if the slaves let go of it before the counter ends. */
    method SclRelease() returns (ret: int)
      requires Valid() && !held
      modifies this`scl, this`held, this`trace, this`mon
      ensures Valid() && scl
      ensures ret == if LetsGo(slaves, usTimeout, old(scl), phase) then 0 else -ETIMEDOUT
      ensures ret == 0 ==> !held
      ensures held ==> mon == old(mon)
      ensures !held ==> mon == Observe(old(mon), Line(true, mon.sda)) && mon.sda == old(mon.sda)
    {
      var count := usTimeout;
      var hold := if scl then 0 else At(slaves, phase).hold;
      scl, held := true, hold > 0;
      while hold > 0 && count > 0
        invariant usTimeout - count == (if old(scl) then 0 else At(slaves, phase).hold) - hold
        invariant hold >= 0 && count >= 0
      {
        count, hold := count - 1, hold - 1;
      }
      held := hold > 0;
      if !held {
        Record();
      }
      if count == 0 {
        return -ETIMEDOUT;
      }
      return 0;
    }

    method SdaLow()
      requires Valid()
      modifies this`sda, this`trace, this`mon
      ensures Valid() && !sda
      ensures mon == Observe(old(mon), Line(scl && !held, false))
    {
      sda := false;
      Record();
    }

    method SdaRelease()
      requires Valid()
      modifies this`sda, this`trace, this`mon
      ensures Valid() && sda
      ensures mon == Observe(old(mon), Line(scl && !held, At(slaves, phase).sda))
    {
      sda := true;
      Record();
    }

    method SdaRead() returns (b: bool)
      requires Valid()
      ensures b == mon.sda
    {
      b := sda && At(slaves, phase).sda;
    }

    /** mp_hal_i2c_start */
    method Start() returns (ret: int)
      requires Valid() && !held
      modifies this
      ensures ret == if LetsGo(slaves, usTimeout, old(scl), phase) then 0 else -ETIMEDOUT
      ensures phase == old(phase)
      ensures ret == 0 ==> Valid() && !held && scl
      ensures ret == 0 && old(Ready()) && At(slaves, phase).sda ==> BetweenBytes() && mon.log == old(mon.log) + [START]
    {
      SdaRelease();
      ret := SclRelease();
      if ret != 0 {
        return;
      }
      SdaLow();
    }

    /** mp_hal_i2c_stop */
    method Stop() returns (ret: int)
      requires Valid() && !held
      modifies this
      ensures ret == if LetsGo(slaves, usTimeout, old(scl), phase) then 0 else -ETIMEDOUT
      ensures phase == old(phase)
      ensures ret == 0 ==> Valid() && !held && scl && sda
      ensures ret == 0 && old(BetweenBytes()) && At(slaves, phase).sda ==>
                BetweenBytes() && mon.log == old(mon.log) + if old(scl && sda) then [START, STOP] else [STOP]
    {
      SdaLow();
      ret := SclRelease();
      SdaRelease();
    }

    /** mp_hal_i2c_init, once the pins leave the lines high. The STOP is sent on an idle bus: a monitor sees a
        message without a byte. */
    constructor (usTimeout: nat, slaves: Slaves)
      ensures this.usTimeout == usTimeout && this.slaves == slaves
      ensures usTimeout > 0 ==> Valid() && !held && scl && sda
      ensures usTimeout > 0 && At(slaves, 0).sda ==> Ready() && mon.log == [START, STOP]
    {
      this.usTimeout, this.slaves := usTimeout, slaves;
      scl, sda, held, phase := true, true, false, 0;
      trace := [];
      mon := IDLE;
      new;
      if !At(slaves, 0).sda {
        Record();
      }
      var _ := Stop();
    }

    /** One pulse of SCL with the levels of SDA as they are. */
    method Pulse() returns (ret: int, level: bool)
      requires Valid() && !held && !scl
      modifies this`scl, this`held, this`phase, this`trace, this`mon
      ensures ret == if At(slaves, old(phase)).hold < usTimeout then 0 else -ETIMEDOUT
      ensures Valid() && (ret == 0 ==> !scl && !held && phase == old(phase) + 1 && level == old(mon.sda))
      ensures ret == 0 && old(mon).pending.None? ==>
                mon == TakeBit(old(mon), level).(sda := sda && At(slaves, phase).sda)
    {
      ret := SclRelease();
      level := SdaRead();
      if ret == 0 {
        SclLow();
      }
    }

    /** Lines 118-129: the body of the loop. */
    method SendBit(b: bool) returns (ret: int)
      requires Valid() && !held && !scl
      modifies this
      ensures ret == if At(slaves, old(phase)).hold < usTimeout then 0 else -ETIMEDOUT
      ensures ret == 0 ==> Valid() && !scl && !held && phase == old(phase) + 1
      ensures ret == 0 && old(mon).pending.None? ==>
                mon == TakeBit(old(mon), b && At(slaves, old(phase)).sda).(sda := mon.sda)
    {
      if b {
        SdaRelease();
      } else {
        SdaLow();
      }
      var level;
      ret, level := Pulse();
      if ret != 0 {
        SdaRelease();
      }
    }

    /** Lines 117-130: the loop over the bits, the highest first. */
    method SendBits(val: nat) returns (ret: int)
      requires Valid() && !held && !scl
      modifies this
      ensures var p := old(phase);
              && ret == (if InTime(slaves, usTimeout, p, 8) then 0 else -ETIMEDOUT)
              && (ret == 0 ==> Valid() && !scl && !held && phase == p + 8)
              && (ret == 0 && old(BetweenBytes()) ==>
                    mon == old(mon).(sda := mon.sda, data := Wire(slaves, p, val, 8), count := 8))
    {
      ghost var p, start, clean := phase, mon, BetweenBytes();
      var i: int := 7;
      while i >= 0
        invariant -1 <= i <= 7 && Valid() && !scl && !held && phase == p + 7 - i
        invariant InTime(slaves, usTimeout, p, 7 - i)
        invariant clean ==> mon == start.(sda := mon.sda, data := Wire(slaves, p, val, 7 - i), count := 7 - i)
      {
        ret := SendBit(BitOf(val, i));
        if ret != 0 {
          return;
        }
        i := i - 1;
      }
      ret := 0;
    }

    /** mp_hal_i2c_write_byte: 0 with an acknowledge bit, 1 without, or negative. */
    method WriteByte(val: nat) returns (ret: int)
      requires Valid() && !held && val < 256
      modifies this
      ensures var p := old(phase) + Bit(old(mon.scl));
              && (ret == -ETIMEDOUT <==> !InTime(slaves, usTimeout, p, 9))
              && (ret != -ETIMEDOUT ==>
                    ret == Bit(At(slaves, p + 8).sda) && Valid() && !scl && sda && !held && phase == p + 9)
              && (ret != -ETIMEDOUT && old(BetweenBytes()) ==>
                    BetweenBytes() && mon.log == old(mon.log) + [Data(Wire(slaves, p, val, 8), ret == 0)])
    {
      SclLow();
      ret := SendBits(val);
      if ret != 0 {
        return;
      }
      SdaRelease();
      var level;
      ret, level := Pulse();
      if ret != 0 {
        return;
      }
      ret := Bit(level);
    }

    /** Lines 154-163: the loop over the bits. */
    method ReadBits() returns (ret: int, data: nat)
      requires Valid() && !held && !scl && sda
      modifies this`scl, this`held, this`phase, this`trace, this`mon
      ensures var p := old(phase);
              && ret == (if InTime(slaves, usTimeout, p, 8) then 0 else -ETIMEDOUT)
              && (ret == 0 ==> Valid() && !scl && !held && phase == p + 8 && data == Answer(slaves, p, 8))
              && (ret == 0 && old(BetweenBytes()) ==> mon == old(mon).(sda := mon.sda, data := data, count := 8))
    {
      ghost var p, start, clean := phase, mon, BetweenBytes();
      var i: int := 7;
      data := 0;
      while i >= 0
        invariant -1 <= i <= 7 && Valid() && !scl && !held && phase == p + 7 - i
        invariant InTime(slaves, usTimeout, p, 7 - i)
        invariant data == Answer(slaves, p, 7 - i)
        invariant clean ==> mon == start.(sda := mon.sda, data := data, count := 7 - i)
      {
        var level;
        ret, level := Pulse();
        if ret != 0 {
          return;
        }
        data := 2 * data + Bit(level);
        i := i - 1;
      }
      ret := 0;
    }

    /** Lines 167-177: the ninth pulse. */
    method SendAck(nack: bool) returns (ret: int)
      requires Valid() && !held && !scl && sda
      modifies this
      ensures ret == if At(slaves, old(phase)).hold < usTimeout then 0 else -ETIMEDOUT
      ensures ret == 0 ==> Valid() && !scl && sda && !held && phase == old(phase) + 1
      ensures ret == 0 && old(mon.pending.None? && mon.count == 8) ==>
                BetweenBytes() &&
                mon.log == old(mon.log) + [Data(old(mon.data), !nack || !At(slaves, old(phase)).sda)]
    {
      if !nack {
        SdaLow();
      }
      var level;
      ret, level := Pulse();
      SdaRelease();
    }

    /** mp_hal_i2c_read_byte, into dest[k]: 0, or negative. */
    method ReadByte(dest: array<nat>, k: nat, nack: bool) returns (ret: int)
      requires Valid() && !held && sda && k < dest.Length
      modifies this, dest
      ensures forall j | 0 <= j < dest.Length && j != k :: dest[j] == old(dest[j])
      ensures var p := old(phase) + Bit(old(mon.scl));
              && ret == (if InTime(slaves, usTimeout, p, 9) then 0 else -ETIMEDOUT)
              && (ret == 0 ==>
                    Valid() && !scl && sda && !held && phase == p + 9 && dest[k] == Answer(slaves, p, 8))
              && (ret == 0 && old(BetweenBytes()) ==>
                    BetweenBytes() && mon.log == old(mon.log) + [Data(dest[k], !nack || !At(slaves, p + 8).sda)])
    {
      SclLow();
      var data;
      ret, data := ReadBits();
      if ret != 0 {
        return;
      }
      dest[k] := data;
      ret := SendAck(nack);
    }

    /** Lines 188-202 and 234-248: START and the address; a slave must answer, or STOP is sent. */
    method Address(address: nat) returns (ret: int)
      requires Valid() && !held && address < 256
      modifies this
      ensures var p := old(phase);
              && ret == (if !LetsGo(slaves, usTimeout, old(scl), p) || !InTime(slaves, usTimeout, p + 1, 9) then -ETIMEDOUT
                         else if At(slaves, p + 9).sda then -ENODEV
                         else 0)
              && (ret == 0 ==> Valid() && !held && !scl && sda && phase == p + 10)
              && (ret == 0 && old(Ready()) && At(slaves, p).sda ==>
                    BetweenBytes() && mon.log == old(mon.log) + [START, Data(Wire(slaves, p + 1, address, 8), true)])
              && (ret == -ENODEV && old(Ready()) && At(slaves, p).sda && At(slaves, p + 10).sda && LetsGo(slaves, usTimeout, false, p + 10) ==>
                    Ready() && mon.log == old(mon.log) + [START, Data(Wire(slaves, p + 1, address, 8), false), STOP])
    {
      ret := Start();
      if ret != 0 {
        return;
      }
      ret := WriteByte(address);
      if ret < 0 {
        return;
      } else if ret != 0 {
        var _ := Stop();
        return -ENODEV;
      }
    }

    /** The first k bytes of the buffer are sent and acknowledged. */
    ghost predicate Sending(src: seq<nat>, k: nat, p: nat, log: seq<Item>, clean: bool)
      reads this
    {
      && k <= |src| && Valid() && !held && !scl && sda && phase == p + 9 * k
      && SentInTime(slaves, usTimeout, p, |src|) == SentInTime(slaves, usTimeout, phase, |src| - k)
      && Acks(slaves, p, |src|) == k + Acks(slaves, phase, |src| - k)
      && (clean ==> BetweenBytes() && mon.log == log + Sent(slaves, p, src[..k]))
    }

    /** The buffer is sent as far as it is acknowledged, and one byte more. */
    ghost predicate SentBuffer(src: seq<nat>, p: nat, log: seq<Item>, clean: bool)
      reads this
    {
      var sent := SentCount(slaves, p, |src|);
      && SentInTime(slaves, usTimeout, p, |src|)
      && Valid() && !held && !scl && sda && phase == p + 9 * sent
      && (clean ==> BetweenBytes() && mon.log == log + Sent(slaves, p, src[..sent]))
    }

    /** Lines 207-214: the body of the loop. */
    method SendNext(src: seq<nat>, k: nat, ghost p: nat, ghost log: seq<Item>, ghost clean: bool) returns (ret: int)
      requires Sending(src, k, p, log, clean) && k < |src| && src[k] < 256
      modifies this
      ensures ret == 0 || ret == 1 || ret == -ETIMEDOUT
      ensures ret == 0 ==> Sending(src, k + 1, p, log, clean)
      ensures ret == 1 ==> SentBuffer(src, p, log, clean) && Acks(slaves, p, |src|) == k
      ensures ret < 0 ==> !SentInTime(slaves, usTimeout, p, |src|)
    {
      SentMore(slaves, p, src, k);
      AcksStep(slaves, p, |src|, k);
      ret := WriteByte(src[k]);
    }

    /** Lines 205-215: the loop over the buffer. */
    method SendBuffer(src: seq<nat>) returns (ret: int, numAcks: nat)
      requires Valid() && !held && !scl && sda && forall i | 0 <= i < |src| :: src[i] < 256
      modifies this
      ensures var p, sent := old(phase), SentCount(slaves, old(phase), |src|);
              && ret == (if SentInTime(slaves, usTimeout, p, |src|) then 0 else -ETIMEDOUT)
              && (ret == 0 ==> Valid() && !scl && sda && !held && phase == p + 9 * sent && numAcks == Acks(slaves, p, |src|))
              && (ret == 0 && old(BetweenBytes()) ==>
                    BetweenBytes() && mon.log == old(mon.log) + Sent(slaves, p, src[..sent]))
    {
      ghost var p, log, clean := phase, mon.log, BetweenBytes();
      numAcks := 0;
      while numAcks < |src|
        invariant Sending(src, numAcks, p, log, clean)
      {
        ret := SendNext(src, numAcks, p, log, clean);
        if ret < 0 {
          return;
        } else if ret != 0 {
          ret := 0;
          return;
        }
        numAcks := numAcks + 1;
      }
      assert src[..numAcks] == src;
      ret := 0;
    }

    /** Lines 218-223 and 259-264. */
    method Finish(stop: bool) returns (ret: int)
      requires Valid() && !held && !scl && sda
      modifies this
      ensures ret == if stop && !LetsGo(slaves, usTimeout, false, phase) then -ETIMEDOUT else 0
      ensures phase == old(phase) && (ret == 0 ==> Valid() && !held)
      ensures ret == 0 && old(BetweenBytes()) && (stop ==> At(slaves, phase).sda) ==>
                Ready() && mon.log == old(mon.log) + if stop then [STOP] else []
    {
      ret := 0;
      if stop {
        ret := Stop();
      }
    }

    /** mp_machine_soft_i2c_writeto */
    method WriteTo(addr: nat, src: seq<nat>, stop: bool) returns (ret: int)
      requires Valid() && !held && addr < 0x10000 && forall i | 0 <= i < |src| :: src[i] < 256
      modifies this
      ensures ret == WriteResult(slaves, usTimeout, old(scl), old(phase), |src|, stop)
      ensures var p, end := old(phase), old(phase) + 10 + 9 * SentCount(slaves, old(phase) + 10, |src|);
              && (ret >= 0 ==> Valid() && !held && phase == end)
              && (ret >= 0 && old(Ready()) && At(slaves, p).sda && (stop ==> At(slaves, end).sda) ==>
                    Ready() && mon.log == old(mon.log) + WriteLog(slaves, p, AddressByte(addr, false), src, stop))
      ensures var p := old(phase);
              ret == -ENODEV && old(Ready()) && At(slaves, p).sda && At(slaves, p + 10).sda && LetsGo(slaves, usTimeout, false, p + 10) ==>
                Ready() && mon.log == old(mon.log) + [START, Data(Wire(slaves, p + 1, AddressByte(addr, false), 8), false), STOP]
    {
      ret := Address(AddressByte(addr, false));
      if ret != 0 {
        return;
      }
      var numAcks;
      ret, numAcks := SendBuffer(src);
      if ret < 0 {
        return;
      }
      ret := Finish(stop);
      if ret != 0 {
        return;
      }
      return numAcks;
    }

    /** Lines 251-256: the loop over the buffer. */
    method ReceiveBuffer(dest: array<nat>) returns (ret: int)
      requires Valid() && !held && !scl && sda
      modifies this, dest
      ensures var p, n := old(phase), dest.Length;
              && ret == (if BytesInTime(slaves, usTimeout, p, n) then 0 else -ETIMEDOUT)
              && (ret == 0 ==> Valid() && !scl && sda && !held && phase == p + 9 * n)
              && (ret == 0 ==> forall j | 0 <= j < n :: dest[j] == Answer(slaves, p + 9 * j, 8))
              && (ret == 0 && old(BetweenBytes()) ==>
                    BetweenBytes() && mon.log == old(mon.log) + Received(slaves, p, n))
    {
      ghost var p, log, clean := phase, mon.log, BetweenBytes();
      var k, n := 0, dest.Length;
      while k < n
        invariant k <= n
        invariant Valid() && !held && !scl && sda && phase == p + 9 * k
        invariant BytesInTime(slaves, usTimeout, p, n) == BytesInTime(slaves, usTimeout, phase, n - k)
        invariant forall j | 0 <= j < k :: dest[j] == Answer(slaves, p + 9 * j, 8)
        invariant clean ==> BetweenBytes() && mon.log == log + Received(slaves, p, n)[..k]
      {
        ReceivedMore(slaves, p, n, k);
        ret := ReadByte(dest, k, k == n - 1);
        if ret != 0 {
          return;
        }
        k := k + 1;
      }
      ret := 0;
    }

    /** mp_machine_soft_i2c_readfrom */
    method ReadFrom(addr: nat, dest: array<nat>, stop: bool) returns (ret: int)
      requires Valid() && !held && addr < 0x10000
      modifies this, dest
      ensures ret == ReadResult(slaves, usTimeout, old(scl), old(phase), dest.Length, stop)
      ensures ret == 0 ==> forall j | 0 <= j < dest.Length :: dest[j] == Answer(slaves, old(phase) + 10 + 9 * j, 8)
      ensures var p, end := old(phase), old(phase) + 10 + 9 * dest.Length;
              && (ret == 0 ==> Valid() && !held && phase == end)
              && (ret == 0 && old(Ready()) && At(slaves, p).sda && (stop ==> At(slaves, end).sda) ==>
                    Ready() && mon.log == old(mon.log) + ReadLog(slaves, p, AddressByte(addr, true), dest.Length, stop))
      ensures var p := old(phase);
              ret == -ENODEV && old(Ready()) && At(slaves, p).sda && At(slaves, p + 10).sda && LetsGo(slaves, usTimeout, false, p + 10) ==>
                Ready() && mon.log == old(mon.log) + [START, Data(Wire(slaves, p + 1, AddressByte(addr, true), 8), false), STOP]
    {
      ret := Address(AddressByte(addr, true));
      if ret != 0 {
        return;
      }
      ret := ReceiveBuffer(dest);
      if ret != 0 {
        return;
      }
      ret := Finish(stop);
    }
  }
}
