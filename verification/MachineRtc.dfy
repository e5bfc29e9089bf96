/** esp8266/machine_rtc.c:59-127: the clock with its words in the memory that survives a deep sleep. */
module MachineRtc {
  import C = RtcClock

  const MEM_MAGIC: C.Word := 0x75507921

  class Rtc {
    /** The RTC memory. */
    var magic: C.Word
    var cal: C.Word
    var delta: C.Long
    /** rtc_last_ticks */
    var lastTicks: C.Word

    function State(): C.State
      reads this
    {
      C.State(cal, delta, lastTicks)
    }

    /** After power-up the memory holds anything. */
    constructor (magic: C.Word, cal: C.Word, delta: C.Long)
      ensures this.magic == magic && State() == C.State(cal, delta, 0)
    {
      this.magic, this.cal, this.delta, lastTicks := magic, cal, delta, 0;
    }

    /** mp_hal_rtc_init: without its mark in the memory the clock starts at zero, otherwise it goes on. */
    method Init(cali: C.Word, rtcTime: C.Word)
      modifies this
      ensures magic == MEM_MAGIC
      ensures old(magic) == MEM_MAGIC ==> State() == old(State()).(last := rtcTime)
      ensures old(magic) != MEM_MAGIC ==> State() == C.State(cali, 0, rtcTime) && C.Shows(State(), 0, rtcTime)
    {
      if magic != MEM_MAGIC {
        magic := MEM_MAGIC;
        cal := cali;
        delta := 0;
      }
      lastTicks := rtcTime;
    }

    /** pyb_rtc_set_us_since_2000 */
    method SetUsSince2000(nowus: C.Long, cali: C.Word, rtcTime: C.Word)
      modifies this`cal, this`delta, this`lastTicks
      ensures State() == C.Set(nowus, cali, rtcTime)
    {
      lastTicks := rtcTime;
      C.UsIsShifted(rtcTime, cali);
      var d := C.Wrap(nowus - rtcTime * cali / 4096);
      cal := cali;
      delta := d;
    }

    /** pyb_rtc_get_us_since_2000 */
    method GetUsSince2000(rtcTime: C.Word) returns (us: C.Long)
      modifies this`delta, this`lastTicks
      ensures (State(), us) == C.Get(old(State()), rtcTime)
    {
      if rtcTime < lastTicks {
        delta := C.Wrap(delta + cal * 0x10_0000);
      }
      lastTicks := rtcTime;
      C.UsIsShifted(rtcTime, cal);
      us := C.Wrap(rtcTime * cal / 4096 + delta);
    }

    /** rtc_prepare_deepsleep */
    method PrepareDeepsleep(sleepUs: C.Long, rtcTime: C.Word)
      modifies this`delta, this`lastTicks
      ensures State() == C.Get(old(State()), rtcTime).0.(
                delta := C.Wrap(C.Get(old(State()), rtcTime).1 + sleepUs))
    {
      var now := GetUsSince2000(rtcTime);
      delta := C.Wrap(now + sleepUs);
    }

    /** Preparing for a deep sleep, and the start after it. */
    method DeepSleep(sleepUs: C.Long, rtcTime: C.Word, cali: C.Word, wake: C.Word)
      requires magic == MEM_MAGIC
      modifies this
      ensures magic == MEM_MAGIC && State() == C.Sleep(old(State()), rtcTime, sleepUs, wake)
    {
      PrepareDeepsleep(sleepUs, rtcTime);
      Init(cali, wake);
    }
  }
}
