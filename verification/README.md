# Models and proofs for MicroPython's extmod and esp8266 algorithms

Twelve modules of MicroPython hold algorithms and state machines with a simple meaning that the code reaches by an
indirect route: a table that an interrupt replays, a parser without recursion, a heap over a comparison that is no
order, a reader that may stop anywhere, a list whose order makes the first match the longest. This project states
the meaning of each and proves that the code has it.

Each C function that changes fields, buffers or links is a method of a class here, with the same branches, loops and
constants. Its contract ties the new state to a function on values, and the lemmas about that function are the
results. `dafny verify dfyconfig.toml` checks everything.

| files | what they model |
|---|---|
| `PwmTable`, `EspPwm`, `PwmInterleaving`, `PwmStart` | the PWM driver: compiling a schedule, replaying it by interrupts, and both at once |
| `JsonGrammar`, `JsonPlain`, `JsonParser`, `JsonLexing`, `JsonRuns`, `JsonDenote`, `JsonReadings`, `ParseNum`, `UJson` | the JSON parser against the grammar of RFC 4627 |
| `Ticks`, `UTimeq`, `UTimeqRuns` | wrapping tick values and the queue of deadlines |
| `BinaryHeap`, `UHeapq` | the heap functions, for any order |
| `WebSocketFraming`, `WebSocketRuns`, `WebSocketWire`, `WebSocket` | the reader and writer of RFC 6455 frames |
| `VfsTable`, `VfsEffects`, `Vfs` | the mount table as a value and as a linked list |
| `I2CBus`, `I2CMessages`, `MachineI2C` | the bit-banged I2C master, and a monitor on its lines |
| `FramePixels`, `FrameOrder`, `FramePictures`, `FrameHalves`, `FrameLine`, `FrameBuf` | the five pixel formats, filling, scrolling and lines |
| `RtcClock`, `MachineRtc` | the clock over an overflowing counter |
| `Base64`, `Base64Table`, `UBinascii` | base 64 |
| `EtsQueues`, `EtsRuns`, `EtsEffects`, `EtsAltTask` | the event queues and the loop that serves them |
| `Wrappers` | results and options |

## Conventions

Integers are unbounded in Dafny; where the width matters in the source the wrap-around is written out (`% 0x1_0000_0000`
for 32 bits, `Int8`, `Wrap` for 64 bits). Pin masks are sets of pins. Exceptions and negative return values are results.
What the hardware, a socket or a slave does is a parameter of the model and the theorems hold for all of it: the split of
a stream is a list of read sizes and errors, the slaves on the I2C bus are a list of SDA levels and stretches, posts of
handlers and interrupts are lists of messages, and the interrupt of the PWM driver may come between any two steps of a start.
The loops of the source whose bodies are long are split into methods of their own.

## Where the code and its promises differ

For each of these the exact condition is proved, or it is so in every case.

- `extmod/modujson.c:49-51` promises the correct object for any valid JSON. It is given if and only if no number has an
  exponent with a plus sign and no string has a surrogate pair, as long as the names in each object are distinct
  (`JsonDenote.LoadsGrammarValueIff`).
- A control frame of a websocket is invisible to the caller under every split if and only if its payload has at most one
  byte (`WebSocketRuns.InvisibleIffSmall`). The answer to a close frame is the payload of a text frame
  (`WebSocketRuns.CloseReplyIsPayload`, `WebSocketRuns.CloseReplyIsCloseIff`).
- A start leaves the PWM table being replayed alone if and only if the start before it has reached the interrupt
  (`PwmInterleaving.GuardIsExact`). A start is lost if and only if a boundary falls between its test of the timer and its
  flip after a constant schedule (`PwmInterleaving.NeverLostIff`).
- The first period after a start with the timer down has the waveform of a channel if and only if the channel was high
  before and stays so for longer than the first interval, or was low and has no high time
  (`PwmStart.FirstPeriodIsRightIff`).
- The JSON parser takes more than JSON: `[1`, `[1}` and `[1]` load alike (`JsonReadings.LastBracketIsFree`), and commas and
  colons are skipped anywhere (`JsonReadings.SeparatorsAreSkipped`).
- `docs/library/framebuf.rst:128-145` has the bit orders of MONO_HLSB and MONO_HMSB exchanged: the model follows the code
  (`FrameOrder.BitOrderIsExchanged`).
- `a2b_base64` announces two bytes too many if and only if padding comes before the last character
  (`UBinascii.AnnouncedIff`).
- GS4_HMSB pixels overlap if and only if the stride is odd and equal to the width and there are two rows or more
  (`FramePixels.OddStrideOverlaps`); this is the default for an odd width (`FramePixels.DefaultStrideIsLegal`). Filling
  fails for nearly every odd stride, also where the pixels are distinct (`FrameHalves.FillWorksIff`).
- A scroll stays inside the picture if and only if its offset is at most the size of the picture or no row moves
  (`FramePixels.CanScrollIff`).
- A clock stretch is reported as a timeout if and only if it lasts at least as long as the timeout, which includes one
  after which SCL is high again (`MachineI2C.SoftI2C.SclRelease`). The STOP of the initialisation is seen as a START and
  a STOP (`MachineI2C.SoftI2C.constructor`).
- The comparison of two deadlines is right if and only if what is left of their difference after whole periods is less
  than half a period, or their ids decide (`UTimeqRuns.AgreesIff`); it is transitive if and only if the differences add up to
  less than half a period (`UTimeq.LessThanIsTransitiveIff`).
- A mount can be found if and only if no entry for another directory takes its mount point without the first character; one
  that begins with a slash is accepted only then, but a relative one may be accepted all the same
  (`VfsTable.MountIsHiddenIff`, `VfsTable.MountAcceptedIff`). A `chdir` to an absolute path that is not found fails, and
  changes the current directory all the same (`VfsTable.FailedChdirLosesCurrent`).
- The indices of an event queue stay in it if and only if it has at most 127 places (`EtsQueues.StaysInQueueIff`). The
  event that a handler is working on is overwritten if and only if its queue fills up meanwhile (`EtsQueues.HandledSlot`).

## Model

| member | source | states |
|---|---|---|
| `PwmTable.UsToTicksIsTimesFive` | `esp8266/esppwm.c:61-67` | The macro multiplies by five exactly as long as the product fits in 32 bits. |
| `PwmTable.WaveOfExact` | `esp8266/esppwm.c:134-146` | For every configuration that the driver can reach, the 32-bit arithmetic of step 1 is exact: the period is 5 * period ticks and a pin ends at 5 * floor(period * duty / 1023). |
| `PwmTable.InsertSortedSorts` | `esp8266/esppwm.c:83-107` | Step 2 sorts by time and permutes. |
| `PwmTable.CombineEffects` | `esp8266/esppwm.c:153-164` | Step 3 keeps what happens to each pin at each time. |
| `PwmTable.CombineStrict` | `esp8266/esppwm.c:153-164` | Step 3 leaves strictly increasing times. |
| `PwmTable.EdgesMeaning` | `esp8266/esppwm.c:134-164` | After step 3 the edges of the table are exactly those of the wanted waveform. |
| `PwmTable.CompilePlays` | `esp8266/esppwm.c:131-184` | For every waveform the compiled table plays it: no interval is empty, the intervals add up to the period, and no step loses a pin, also for duties of 0% and 100%. |
| `PwmTable.Waveform` | `esp8266/esppwm.c:131-184` | At tick t of a period pin i is high exactly if t < 5 * floor(period * duty / 1023), whatever was put out before; the period has 5 * period ticks. |
| `PwmTable.WaveIsPlayed` | `esp8266/esppwm.c:304-335` | Any table that plays a waveform puts each pin out as the waveform says, in every interval. |
| `PwmTable.OtherPinsUntouched` | `esp8266/esppwm.c:144-177` | Pins that are not registered keep their level. |
| `PwmTable.TickHasInterval` | `esp8266/esppwm.c:166-169` | Every tick of the period lies in an interval. |
| `PwmTable.TickHasOneInterval` | `esp8266/esppwm.c:166-184` | In a table that plays a waveform, every tick lies in exactly one. |
| `EspPwm.InsertSort` | `esp8266/esppwm.c:83-107` | The in-place sort equals insertion into a sorted sequence and touches nothing behind the first n entries. |
| `EspPwm.Combine` | `esp8266/esppwm.c:153-164` | The in-place merging loop equals step 3 on values. |
| `EspPwm.TakeDeltas` | `esp8266/esppwm.c:166-169` | The in-place loop turns the times into differences, without a 32-bit underflow. |
| `EspPwm.RemoveZero` | `esp8266/esppwm.c:174-184` | Removing a leading empty entry in place moves its pins to the last entry. |
| `EspPwm.Schedule` | `esp8266/esppwm.c:147-184` | Steps 2 to 6 in place give the table that plays the waveform. |
| `EspPwm.InterruptsPlayTable` | `esp8266/esppwm.c:304-335` | From a boundary on, the k-th interrupt starts interval k of the newest table, loads its length and puts out its pins; the next boundary comes after the last one. |
| `EspPwm.PeriodIsPlayed` | `esp8266/esppwm.c:304-335` | Whatever waveform the newest table plays, the interrupts of the next period put it out, with its lengths. |
| `EspPwm.PeriodWaveform` | `esp8266/esppwm.c:121-208` | The promise of the driver: from the first boundary after a start, the interrupts produce the waveform of the configuration in each period. |
| `EspPwm.Pwm.CompileInto` | `esp8266/esppwm.c:131-184` | The steps 1 to 6 on the arrays of the driver, for the registered channels, give the table of their configuration. |
| `EspPwm.Pwm.Finish` | `esp8266/esppwm.c:186-204` | Starting the timer if it is down, and flipping the buffer. |
| `EspPwm.Pwm.Start` | `esp8266/esppwm.c:121-208` | pwm_start compiles into the buffer that is not the newest and flips; channels, duties and the other buffer are unchanged. |
| `EspPwm.Pwm.TimerInterrupt` | `esp8266/esppwm.c:304-335` | One interrupt is one step of the player. |
| `EspPwm.Pwm.SetDuty` | `esp8266/esppwm.c:217-239` | Only the duty of the given channel changes, and is limited to 1023. |
| `EspPwm.Pwm.SetFreq` | `esp8266/esppwm.c:247-261` | The frequency is limited to 1..1000 and the period is 1000000 / frequency. |
| `EspPwm.Pwm.Add` | `esp8266/esppwm.c:368-401` | A pin that can be used always gets its channel, once and with duty 0 behind the others; -1 is returned exactly for other pins and changes nothing. |
| `EspPwm.Pwm.Delete` | `esp8266/esppwm.c:403-428` | The channel disappears with its duty and the later ones move up in order; an unknown one changes nothing. |
| `EspPwm.Pwm.Init` | `esp8266/esppwm.c:344-366` | The state after initialisation satisfies the invariants that the other functions keep. |
| `EspPwm.CompileNoChannels` | `esp8266/esppwm.c:193-197` | Without channels the table has one entry, so the timer stays down. |
| `PwmInterleaving.StepsAreStart` | `esp8266/esppwm.c:131-204` | The small steps of the interleaving model, one after the other, are pwm_start. |
| `PwmInterleaving.InvStep` | `esp8266/esppwm.c:186-204` | Every step of a guarded run keeps the invariant, writes no table that is being replayed, and a boundary picks up the last complete table. |
| `PwmInterleaving.GuardedRunsAreSafe` | `esp8266/esppwm.c:304-335` | The same for every interleaving of the interrupt with guarded starts. |
| `PwmInterleaving.OneStartPerPeriodIsSafe` | `esp8266/esppwm.c:131-204` | At most one start between two boundaries is enough. |
| `PwmInterleaving.GuardIsExact` | `esp8266/esppwm.c:131-184` | A start leaves the table being replayed alone, however its steps and the interrupt follow each other, if and only if the guard holds when it begins. |
| `PwmInterleaving.SecondStartOverwrites` | `esp8266/esppwm.c:200-204` | Two starts in one period overwrite the table being replayed. |
| `PwmInterleaving.NotLostStepIff` | `esp8266/esppwm.c:187-204` | A step endangers a start if and only if it is a boundary between the test of the timer and the flip while the schedule before was constant. |
| `PwmInterleaving.NeverLostIff` | `esp8266/esppwm.c:187-204` | In every interleaving of the interrupt with guarded starts, up to a point where no start is under way, no start is lost if and only if there is no such boundary. |
| `PwmInterleaving.BoundaryInStartLoses` | `esp8266/esppwm.c:322-326` | After such a boundary the timer is down, so that pwm_start can only return, and the start is lost. |
| `PwmInterleaving.InvAfterInit` | `esp8266/esppwm.c:360-361` | The state after pwm_init satisfies the invariants. |
| `PwmInterleaving.InterleavedPeriod` | `esp8266/esppwm.c:304-335` | In every interleaving, a period whose table plays a waveform puts it out up to the next boundary, whatever guarded starts do meanwhile. |
| `PwmInterleaving.InterleavedWaveform` | `esp8266/esppwm.c:121-208` | So a period that begins with the table of a configuration has its waveform. |
| `PwmInterleaving.LatestIsCompiled` | `esp8266/esppwm.c:186-204` | If each start publishes the table of some configuration, each period begins with one. |
| `PwmStart.ConstantStart` | `esp8266/esppwm.c:186-198` | A start with the timer down and a single entry: each channel that has a high time is high at once and each other one low, other pins keep their level, and the timer stays down. |
| `PwmStart.FirstOutput` | `esp8266/esppwm.c:186-198` | A start with the timer down and several entries: the timer runs, loaded with the first interval, and exactly the channels that end with it have gone low. |
| `PwmStart.RunningStart` | `esp8266/esppwm.c:186-204` | While the timer runs, a start changes the table that comes next and nothing that is put out. |
| `PwmStart.PublishPutsOut` | `esp8266/esppwm.c:186-198` | The same two results for the step that starts the timer, when the interrupt may come between the steps. |
| `PwmStart.FirstPeriod` | `esp8266/esppwm.c:304-335` | Interval by interval, what the first period after a start with the timer down puts out. |
| `PwmStart.FirstPeriodIsRightIff` | `esp8266/esppwm.c:186-198` | In that period a channel has its waveform at every tick if and only if it was high before and its high time is longer than the first interval, or it was low and has no high time. |
| `JsonDenote.LoadsEveryDerivation` | `extmod/modujson.c:83-274` | For every derivation of the JSON grammar and any whitespace around it: the stack machine returns its value with escapes decoded one by one, if and only if no number has an exponent with a plus sign; otherwise it fails. |
| `JsonDenote.LoadsGrammarValue` | `extmod/modujson.c:47-54` | Without such exponents and without surrogate pairs the result is the value that section 2 of RFC 4627 assigns. |
| `JsonDenote.LoadsGrammarValueIff` | `extmod/modujson.c:47-54` | For every document whose objects have distinct names: it is loaded with the value of the grammar if and only if no number has such an exponent and no string has a surrogate pair. |
| `JsonDenote.RepeatedNameHidesPair` | `extmod/modujson.c:239` | With a name given twice a later value can hide one with a pair. |
| `JsonPlain.PlainValueIff` | `extmod/modujson.c:148-157` | The same on values: decoding escape by escape keeps the value of a document if and only if no string has a pair. |
| `JsonDenote.StringLoadsIffPlain` | `extmod/modujson.c:148-159` | A string is loaded as the grammar means it if and only if it has no surrogate pair. |
| `JsonDenote.BuildDenotes` | `extmod/modujson.c:228-253` | The containers that the parser has filled in denote the value of what was read, and refer only to later ones. |
| `JsonRuns.ValueLoads` | `extmod/modujson.c:95-254` | From any state that takes a value, reading the text of a value leads to the state with the value put where it belongs. |
| `JsonRuns.PlusFails` | `extmod/modujson.c:218-219` | A plus sign where a value is expected is a ValueError. |
| `JsonGrammar.UnitsAreStringIffPlain` | `extmod/modujson.c:148-157` | Decoding escape by escape gives the string of the grammar exactly if no two escapes form a pair. |
| `JsonLexing.EscapeIsHexValue` | `extmod/modujson.c:149-156` | The byte arithmetic of the four digits gives the value of the hexadecimal number, in upper and lower case. |
| `JsonLexing.ReadStringItems` | `extmod/modujson.c:137-170` | A string is read up to its closing quote with all its escapes decoded. |
| `JsonLexing.ReadNumberAll` | `extmod/modujson.c:172-187` | A number is read to its end, and known to be decimal by its characters. |
| `UJson.JsonStream.Next` | `extmod/modujson.c:72-81` | One character of look-ahead, and the end mark behind the end. |
| `UJson.Loader.ReadLiteral` | `extmod/modujson.c:112-135` | A literal is accepted exactly if its characters follow. |
| `UJson.Loader.ReadEscape` | `extmod/modujson.c:149-156` | The loop over four digits consumes them and gives their value. |
| `UJson.Loader.ReadStringLoop` | `extmod/modujson.c:137-170` | The loop over a string equals the recursive reader; an end inside the string fails. |
| `UJson.Loader.ReadNumberLoop` | `extmod/modujson.c:172-193` | The loop over a number equals the recursive reader. |
| `ParseNum.ParseNumInteger` | `py/parsenum.c:49-133` | The text of an integer, without spaces and plus sign as the parser passes it: digits become their decimal value, behind a minus sign its opposite, and everything else is refused. |
| `ParseNum.ParseDigits` | `py/parsenum.c:78-107` | The digit loop, which begins anew with long integers when small ones overflow. |
| `ParseNum.DigitOfLetter` | `py/parsenum.c:81-94` | Letters are the digits from 10 on; other characters end the number. |
| `UJson.Loader.PutNext` | `extmod/modujson.c:228-242` | A value goes to the end of a list, or becomes a key, or is stored under the pending key. |
| `UJson.Loader.EnterNew` | `extmod/modujson.c:195-202` | Entering a container pushes the current one; as a key it fails. |
| `UJson.Loader.CloseRound` | `extmod/modujson.c:203-217` | A closing bracket pops, or ends the parse. |
| `UJson.Loader.Success` | `extmod/modujson.c:255-273` | Only whitespace may follow, and the stack must be empty. |
| `UJson.Loader.Round` | `extmod/modujson.c:95-254` | One round of the loop: the rest of the text and the new state give what the old ones gave. |
| `UJson.Loader.LoadObject` | `extmod/modujson.c:83-274` | The loop with its explicit stack equals the recursive machine. |
| `UJson.Loads` | `extmod/modujson.c:276-282` | ujson.loads of a string. |
| `JsonReadings.MinusNegates` | `py/parsenum.c:109-112` | The values of a number with and without a minus sign add up to zero. |
| `JsonReadings.IntegerLoads` | `extmod/modujson.c:172-193` | Digits load as their decimal value, and behind a minus sign as its opposite. |
| `JsonReadings.PrintedIntegerLoads` | `extmod/modujson.c:172-193` | Every integer is read back from its decimal notation. |
| `JsonReadings.ShortEscapeLoads` | `extmod/modujson.c:140-148` | Which character each of the eight two-character escapes loads as. |
| `JsonReadings.UnicodeEscapeLoads` | `extmod/modujson.c:148-158` | Four hexadecimal digits load as the UTF-8 encoding of the number that they write. |
| `JsonReadings.RawCharacterLoads` | `extmod/modujson.c:137-170` | Every other character of a string stands for itself. |
| `JsonReadings.SurrogatePair` | `extmod/modujson.c:148-157` | Which two escapes form a pair, and the number that they stand for in the grammar. |
| `JsonReadings.ClefLoads` | `extmod/modujson.c:148-158` | The example of section 2.5 of RFC 4627 loads as the two halves of the pair, three bytes each. |
| `JsonReadings.Utf8Meaning` | `py/vstr.c:150-186` | The bytes are those of section 3 of RFC 3629: ranges, length, and the number that their low bits make up. |
| `JsonReadings.Utf8IsInjective` | `py/vstr.c:150-186` | No two numbers have the same encoding. |
| `JsonReadings.LiteralsLoad` | `extmod/modujson.c:112-136` | The three literals load as None, False and True. |
| `JsonReadings.DecimalLoads` | `extmod/modujson.c:172-189` | A number with a decimal point is passed on with just its text. |
| `JsonReadings.ExponentLoads` | `extmod/modujson.c:172-189` | So is one with an exponent, unless this has a plus sign: then the text is refused. |
| `JsonReadings.ExampleLoads` | `extmod/modujson.c:83-274` | A small document with each kind of container, character by character. |
| `JsonReadings.SeparatorsAreSkipped` | `extmod/modujson.c:105-111` | Commas and colons are skipped like whitespace, in every state. |
| `JsonReadings.ArrayValue` | `extmod/modujson.c:231-232` | The value of an array lists the values of its elements in order. |
| `JsonReadings.ObjectValue` | `extmod/modujson.c:239` | The value of an object gives each name the value of the last member with that name. |
| `JsonReadings.NothingMayFollow` | `extmod/modujson.c:255-263` | A document followed by more text is loaded if and only if that is whitespace up to the end or up to a NUL. |
| `JsonReadings.LastBracketIsFree` | `extmod/modujson.c:203-217` | The last bracket of a document is not checked: the other kind of bracket or none at all gives the same result. |
| `JsonReadings.UnfinishedIsRefused` | `extmod/modujson.c:255-269` | An end of the text inside an inner container, or without any object, is an error; at the outermost container it is not. |
| `JsonReadings.ContainerAsNameIsRefused` | `extmod/modujson.c:233-238` | A container as the name of a member is refused. |
| `Ticks.TicksDiffIsCentered` | `extmod/utime_mphal.c:82-92` | ticks_diff is congruent to the difference and lies within half a period on either side. |
| `Ticks.DiffOfAdd` | `extmod/utime_mphal.c:82-100` | Adding a delta and taking the difference gives it back if and only if it lies in [-P/2, P/2). |
| `Ticks.AddOfDiff` | `extmod/utime_mphal.c:82-100` | Adding the difference of any two tick values to the start leads to the end. |
| `UTimeq.LessThanIsPositiveDiff` | `extmod/modutimeq.c:64-77` | For unequal times the comparison with its branches agrees with the sign of the branch-free ticks_diff. |
| `UTimeq.LessThanIsTransitiveIff` | `extmod/modutimeq.c:64-77` | Two comparisons in a row carry over to the third if and only if the differences add up to less than half a period. |
| `UTimeq.LessThanIsNotTransitive` | `extmod/modutimeq.c:64-77` | For every period of at least six ticks there are three times in a cycle. |
| `UTimeq.TimeQueue.HeapSiftDown` | `extmod/modutimeq.c:90-104` | The loop over the array equals the sift on sequences. |
| `UTimeq.TimeQueue.HeapSiftUp` | `extmod/modutimeq.c:106-124` | The two loops over the array equal the sift on sequences. |
| `UTimeq.TimeQueue.HeapPush` | `extmod/modutimeq.c:126-141` | Push with its id, or the error of a full queue, which changes nothing. |
| `UTimeq.TimeQueue.HeapPop` | `extmod/modutimeq.c:144-166` | Pop of the root, or the error of an empty queue or a bad list, which changes nothing. |
| `UTimeq.TimeQueue.PeekTime` | `extmod/modutimeq.c:169-177` | The time of the root, or the error of an empty queue. |
| `UTimeqRuns.LessThanIsBefore` | `extmod/modutimeq.c:64-77` | Between deadlines less than half a period apart, comparing ticks is comparing deadlines, and ids in case of a tie. |
| `UTimeqRuns.AgreesIff` | `extmod/modutimeq.c:64-77` | For any two deadlines, when the comparison of ticks tells in both directions which one is earlier: by what is left of their difference after whole periods. |
| `UTimeqRuns.AgreesOnAllIff` | `extmod/modutimeq.c:64-77` | For a queue of deadlines within one period: it does so for all of them if and only if they span less than half a period. |
| `UTimeqRuns.RootIsEarliest` | `extmod/modutimeq.c:144-177` | The root is the entry with the earliest true deadline, ties in push order. |
| `UTimeqRuns.StepRefines` | `extmod/modutimeq.c:126-177` | One call keeps the heap and its contents and answers like a queue of true deadlines. |
| `UTimeqRuns.FailuresKeepQueue` | `extmod/modutimeq.c:126-177` | A call that fails changes nothing, and with which error each one fails. |
| `UTimeqRuns.SpannedRunIff` | `extmod/modutimeq.c:64-77` | What the condition on runs says: after any number of calls no two live deadlines are half a period apart. |
| `UTimeqRuns.RunRefines` | `extmod/modutimeq.c:126-177` | The same for every run whose live deadlines span less than half a period and whose ids have not wrapped. |
| `UTimeqRuns.RunFromEmpty` | `extmod/modutimeq.c:79-177` | Every such run from the empty queue: the array is a heap, its contents are what was pushed and not popped, and the answers are those of the reference. |
| `BinaryHeap.SiftUpMakesHeap` | `extmod/moduheapq.c:58-73` | If both subtrees are heaps, sifting the item to a leaf and back up to its start makes the whole subtree a heap. |
| `BinaryHeap.HeapifyMakesHeap` | `extmod/moduheapq.c:99-105` | Bottom-up heapify makes every list a heap of the same elements. |
| `BinaryHeap.PushKeepsHeap` | `extmod/moduheapq.c:75-80` | Push keeps the heap and adds just the pushed item. |
| `BinaryHeap.PopKeepsHeap` | `extmod/moduheapq.c:83-96` | Pop takes out the least element, nothing else, and keeps the heap. |
| `BinaryHeap.RootIsLeast` | `extmod/moduheapq.c:83-96` | No element is less than the root of a heap. |
| `BinaryHeap.PopAllSorts` | `extmod/moduheapq.c:83-96` | Popping a heap until it is empty yields its elements in order. |
| `BinaryHeap.HeapSort` | `extmod/moduheapq.c:75-105` | heapify and n pops give a sorted permutation of every list. |
| `UHeapq.HeapList.HeapSiftDown` | `extmod/moduheapq.c:43-56` | The loop over the list equals the sift on sequences. |
| `UHeapq.HeapList.HeapSiftUp` | `extmod/moduheapq.c:58-73` | The loops over the list equal the sift on sequences. |
| `UHeapq.HeapList.HeapPush` | `extmod/moduheapq.c:75-80` | heappush on the list in place. |
| `UHeapq.HeapList.HeapPop` | `extmod/moduheapq.c:83-96` | heappop on the list in place; an empty list is an IndexError and stays empty. |
| `UHeapq.HeapList.HeapifyList` | `extmod/moduheapq.c:99-105` | heapify on the list in place. |
| `UHeapq.HeapSorted` | `extmod/moduheapq.c:75-105` | The three functions together sort every list. |
| `WebSocketRuns.ReadsDeliverPayloads` | `extmod/modwebsocket.c:79-219` | For every sequence of frames, every split of the stream and all sizes of the caller's buffers, the bytes delivered are the concatenated unmasked data payloads, also when reads stop inside headers. |
| `WebSocketRuns.ReadsDeliverEverything` | `extmod/modwebsocket.c:79-219` | If the socket goes on delivering, as many calls as there are bytes deliver all payloads. |
| `WebSocketRuns.ReadFlows` | `extmod/modwebsocket.c:79-219` | Each call takes at least one byte while there are some, and never stops at the end of a payload. |
| `WebSocketRuns.ReadAt` | `extmod/modwebsocket.c:79-219` | One call, from any point of any stream, delivers the next data bytes or loses nothing, and the loop ends. |
| `WebSocketRuns.ReadAllAt` | `extmod/modwebsocket.c:79-219` | The same for a sequence of calls. |
| `WebSocketRuns.PhaseKept` | `extmod/modwebsocket.c:180-183` | The byte-wide mask position stays in phase when it wraps. |
| `WebSocketRuns.InvisibleIffSmall` | `extmod/modwebsocket.c:195-212` | A control frame delivers nothing under every split if and only if its payload has at most one byte. |
| `WebSocketRuns.ControlPayloadLeaks` | `extmod/modwebsocket.c:174-212` | A split under which the first byte of a longer control payload reaches the caller as data. |
| `WebSocketRuns.CloseReplyIsPayload` | `extmod/modwebsocket.c:195-203` | The answer to a close frame goes out as the payload of one more frame of the kind that the application writes. |
| `WebSocketRuns.CloseReplyIsCloseIff` | `extmod/modwebsocket.c:198-202` | So it is a close frame if and only if the application writes close frames. |
| `WebSocketRuns.WriteAllIsFrames` | `extmod/modwebsocket.c:221-257` | What the writer puts out are frames with the messages as payloads, in both length encodings. |
| `WebSocketRuns.RoundTrip` | `extmod/modwebsocket.c:79-257` | Messages of any length below 65536 come back unchanged from the reader under every split. |
| `WebSocketRuns.XorTwice` | `extmod/modwebsocket.c:180-183` | Masking twice gives back the byte. |
| `WebSocketWire.XorBit` | `extmod/modwebsocket.c:180-183` | Each bit of the exclusive or is the sum of the two bits modulo 2. |
| `WebSocketWire.MaskedBit` | `extmod/modwebsocket.c:180-183` | Byte i of the data goes with byte (pos + i) mod 4 of the key, bit by bit (section 5.3 of RFC 6455). |
| `WebSocketWire.BodyBit` | `extmod/modwebsocket.c:180-183` | The payload of a frame on the wire, bit by bit, masked or not. |
| `WebSocketWire.FrameLayout` | `extmod/modwebsocket.c:97-163` | Where the fields of a frame are, and what number they hold; lengths with their high byte first. |
| `WebSocketWire.WriteLayout` | `extmod/modwebsocket.c:221-245` | The bytes that a message is written as. |
| `WebSocketWire.NewReaderOptions` | `extmod/modwebsocket.c:63-77` | A new object writes text frames, and blocks on writing as it was asked to. |
| `WebSocketWire.MaskedHello` | `extmod/modwebsocket.c:97-183` | The masked example of section 5.7. |
| `WebSocketWire.MessageKind` | `extmod/modwebsocket.c:109-114` | A continuation frame keeps the kind of message, every other frame sets it. |
| `WebSocketWire.HeaderRefused` | `extmod/modwebsocket.c:99-130` | A frame without FIN or with a length of eight bytes fails an assertion. |
| `WebSocketWire.HeaderReceived` | `extmod/modwebsocket.c:83-94` | What one read of the socket makes of a header that is under way: enough, EAGAIN, or the end. |
| `WebSocketWire.ControlFrameEnds` | `extmod/modwebsocket.c:195-209` | The bytes of the answer to a close frame; nothing is sent at the end of another control frame. |
| `WebSocketWire.EndIsEnd` | `extmod/modwebsocket.c:79-219` | Unless it has answered a close frame, a read reports the end of the data only when the socket does. |
| `WebSocket.WebSocketObject.ReceiveHeader` | `extmod/modwebsocket.c:83-94` | A short read of a header is remembered and resumed. |
| `WebSocket.WebSocketObject.TakeHeader` | `extmod/modwebsocket.c:97-146` | The two header bytes select the length encoding, the mask and the next state. |
| `WebSocket.WebSocketObject.TakeOpt` | `extmod/modwebsocket.c:148-163` | The extended length and the mask. |
| `WebSocket.WebSocketObject.Unmask` | `extmod/modwebsocket.c:180-183` | Unmasking in place, with the byte-wide position. |
| `WebSocket.WebSocketObject.FinishFrame` | `extmod/modwebsocket.c:186-214` | The end of a frame: data is returned, an empty or a control frame goes on, a close frame is answered. |
| `WebSocket.WebSocketObject.PayloadRound` | `extmod/modwebsocket.c:166-215` | One read of a payload. |
| `WebSocket.WebSocketObject.Read` | `extmod/modwebsocket.c:79-219` | websocket_read on its fields and buffers equals the reader on values. |
| `WebSocket.WebSocketObject.Write` | `extmod/modwebsocket.c:221-257` | websocket_write puts out header and payload. |
| `VfsTable.MountAcceptedIff` | `extmod/vfs.c:172-181` | When a mount is accepted, for every mount point: an absolute one for the root or if only root mounts take it without its slash; a relative one by what takes it as it is in the root, and elsewhere by the current file system. |
| `VfsTable.MountInOrderIff` | `extmod/vfs.c:171-195` | An accepted mount, absolute or not, keeps the order if and only if it is a root mount or only root mounts take its mount point without the first character. |
| `VfsTable.MountIsHiddenIff` | `extmod/vfs.c:171-195` | An accepted mount can be found by some absolute path if and only if the same holds. |
| `VfsTable.MountKeepsOrder` | `extmod/vfs.c:171-195` | Mounting at an absolute path keeps the order: root mounts last, and no earlier entry but a root mount matches a later mount point. |
| `VfsTable.UmountKeepsOrder` | `extmod/vfs.c:199-213` | Unmounting keeps it. |
| `VfsTable.ReachableIsOrdered` | `extmod/vfs.c:171-213` | Every table that calls of mount and umount lead to has the order. |
| `VfsTable.LookupIsLongestMatch` | `extmod/vfs.c:46-86` | In such a table the first entry that matches an absolute path has the longest mount point of all that match; a path is not found exactly if none matches. |
| `VfsTable.PathOutRebuilds` | `extmod/vfs.c:59-72` | Mount point and path_out make up the path again; an exact match gives /, a root mount the whole path. |
| `VfsTable.TakersAreNested` | `extmod/vfs.c:59-72` | Of two mount points that match a path, the shorter matches the longer. |
| `VfsTable.RelativeMountIsHidden` | `extmod/vfs.c:171-195` | A mount point without its slash for which it does not hold, and which is accepted. |
| `VfsEffects.UmountByName` | `extmod/vfs.c:207-218` | With a string, umount succeeds if and only if some mount point is that string, and removes the first such entry and nothing else. |
| `VfsEffects.UmountByObject` | `extmod/vfs.c:207-218` | With an object, the first entry that has it. |
| `VfsEffects.MountPutsIn` | `extmod/vfs.c:171-195` | A mount puts its entry in front of the root mounts and behind all others, or is refused with EPERM. |
| `VfsEffects.UmountUndoesMount` | `extmod/vfs.c:171-213` | Unmounting at the place of an accepted mount gives back the table as it was. |
| `VfsEffects.TakesIff` | `extmod/vfs.c:58-72` | An entry takes the path of its mount point and those below it, a root mount every path. |
| `VfsEffects.FileIsFound` | `extmod/vfs.c:46-72` | A file below a mount point is found there with the rest of its path, unless a longer mount point takes it. |
| `VfsEffects.MountPointIsFound` | `extmod/vfs.c:68-71` | The path of a mount point leads to the root of what is mounted there. |
| `VfsEffects.RelativeLookup` | `extmod/vfs.c:46-86` | A relative path goes unchanged to the current file system; in the root it leads where it leads with a slash. |
| `Vfs.MountTable.LookupPath` | `extmod/vfs.c:46-86` | The lookup over the linked list finds the node of the entry that the value-level lookup finds. |
| `Vfs.MountTable.Chdir` | `extmod/vfs.c:250-269` | What the lookup finds becomes current, also when it is nothing and the call fails; and which file system is called, with what path. |
| `VfsTable.FailedChdirLosesCurrent` | `extmod/vfs.c:250-269` | After a change to an absolute path that is not found no relative path leads anywhere. |
| `Vfs.MountTable.SearchPath` | `extmod/vfs.c:58-73` | The loop over the list stops at the first entry that matches. |
| `Vfs.MountTable.InUse` | `extmod/vfs.c:173-181` | The test for a mount point in use. |
| `Vfs.MountTable.Mount` | `extmod/vfs.c:133-195` | A new node is linked in before the first root mount and nowhere else, or the list stays as it is. |
| `Vfs.MountTable.LinkIn` | `extmod/vfs.c:184-193` | Insertion through a pointer to a link keeps the list linked and free of repetitions. |
| `Vfs.MountTable.SearchRoot` | `extmod/vfs.c:185-192` | The link before the first root mount. |
| `Vfs.MountTable.Umount` | `extmod/vfs.c:199-222` | The first matching node is unlinked; if it was current, the root becomes current, so the current file system is never one that is not mounted. |
| `Vfs.MountTable.Unlink` | `extmod/vfs.c:207-213` | Removal through a pointer to a link. |
| `I2CBus.ConditionsAreHighChanges` | `extmod/machine_i2c.c:77-97` | The START and STOP conditions that a monitor reports are all changes of SDA under high SCL, each once. |
| `I2CBus.WireIsValue` | `extmod/machine_i2c.c:117-130` | A byte sent while the slaves leave SDA alone is the byte on the wire. |
| `I2CBus.AnswerIsNumber` | `extmod/machine_i2c.c:154-164` | The bits of a slave make up the byte read, the first one the highest. |
| `I2CBus.AcksArePrefix` | `extmod/machine_i2c.c:205-215` | The number of acknowledges is the length of the longest acknowledged prefix. |
| `I2CBus.SentInTimeIff` | `extmod/machine_i2c.c:207-209` | A write is in time exactly if in each phase that the master waits for SCL is held for less than the timeout. |
| `I2CBus.BytesInTimeIff` | `extmod/machine_i2c.c:251-256` | The same for a read. |
| `I2CBus.WriteLogIsMessage` | `extmod/machine_i2c.c:185-226` | Of a write, a monitor sees START, the address, exactly the longest acknowledged prefix and at most one byte more, then STOP if wanted. |
| `I2CBus.ReadLogIsMessage` | `extmod/machine_i2c.c:231-267` | Of a read, a monitor sees the bytes of the slave, all but the last acknowledged by the master. |
| `I2CMessages.AddressByteIs` | `extmod/machine_i2c.c:195-241` | The address byte: twice the 7-bit address, and 1 more for a read. |
| `I2CMessages.AddressIsCut` | `extmod/machine_i2c.c:195-241` | Two addresses are the same on the wire if and only if their low seven bits are. |
| `I2CMessages.NinePulses` | `extmod/machine_i2c.c:113-144` | Eight clock pulses carry a byte, the highest bit first, and a ninth one its acknowledge, as a monitor reads them. |
| `I2CMessages.ConditionsAre` | `extmod/machine_i2c.c:77-97` | A change of SDA under high SCL is a START or a STOP, and the next byte begins anew. |
| `I2CMessages.ByteOfBits` | `extmod/machine_i2c.c:154-164` | The eight levels of SDA as the bits of a byte, with their weights. |
| `I2CMessages.WriteItems` | `extmod/machine_i2c.c:185-226` | Item by item, what a monitor sees of a write; STOP exactly if it was wanted. |
| `I2CMessages.ReadItems` | `extmod/machine_i2c.c:231-267` | And of a read. |
| `I2CMessages.WriteResultIs` | `extmod/machine_i2c.c:185-226` | When a write returns the number of acknowledges, when -19, and when -110. |
| `I2CMessages.ReadResultIs` | `extmod/machine_i2c.c:231-267` | When a read returns 0, -19 and -110. |
| `MachineI2C.SoftI2C.SclLow` | `extmod/machine_i2c.c:46-48` | The fall of SCL ends a pulse, and the slaves move on. |
| `MachineI2C.SoftI2C.SclRelease` | `extmod/machine_i2c.c:50-63` | Releasing SCL succeeds exactly if it is held for fewer polls than the timeout; a hold of just the timeout fails. |
| `MachineI2C.SoftI2C.Start` | `extmod/machine_i2c.c:77-87` | START, also as a repeated one. |
| `MachineI2C.SoftI2C.Stop` | `extmod/machine_i2c.c:89-97` | STOP. |
| `MachineI2C.SoftI2C.constructor` | `extmod/machine_i2c.c:99-107` | The initial STOP on an idle bus is seen as a START followed by a STOP. |
| `MachineI2C.SoftI2C.WriteByte` | `extmod/machine_i2c.c:113-144` | Nine pulses carry the byte and the acknowledge bit, which is the result; or a timeout, exactly if a slave holds SCL too long. |
| `MachineI2C.SoftI2C.ReadByte` | `extmod/machine_i2c.c:149-180` | Nine pulses carry the byte of the slave, stored in the buffer, and the acknowledge of the master. |
| `MachineI2C.SoftI2C.SendBits` | `extmod/machine_i2c.c:117-130` | The bits go out from the highest on. |
| `MachineI2C.SoftI2C.ReadBits` | `extmod/machine_i2c.c:154-163` | The bits come in from the highest on. |
| `MachineI2C.SoftI2C.Address` | `extmod/machine_i2c.c:188-202` | START and the address; without an acknowledge STOP is sent and the result is -ENODEV. |
| `MachineI2C.SoftI2C.SendBuffer` | `extmod/machine_i2c.c:205-215` | The loop sends up to the first byte that is not acknowledged. |
| `MachineI2C.SoftI2C.WriteTo` | `extmod/machine_i2c.c:185-226` | The exact result for every slave, and what a monitor reads off the lines. |
| `MachineI2C.SoftI2C.ReceiveBuffer` | `extmod/machine_i2c.c:251-256` | The loop fills the buffer and acknowledges all but the last byte. |
| `MachineI2C.SoftI2C.ReadFrom` | `extmod/machine_i2c.c:231-267` | The exact result, the buffer, and what a monitor reads off the lines. |
| `FramePixels.PlacesAreDistinct` | `extmod/modframebuf.c:65-153` | In a legal layout no two pixels share a place, in any format. |
| `FramePixels.IndexOfSource` | `extmod/modframebuf.c:65-157` | The index formulas of the formats and of the filling loops agree. |
| `FramePixels.OddStrideOverlaps` | `extmod/modframebuf.c:137-153` | In GS4_HMSB pixels are distinct if and only if the stride is even, wider than the picture, or there is one row only. |
| `FramePixels.DefaultStrideIsLegal` | `extmod/modframebuf.c:231-245` | Without a given stride the layout is legal except for an odd width in GS4_HMSB and for a mono width that cannot be rounded up in 16 bits. |
| `FramePixels.GetOfPut` | `extmod/modframebuf.c:65-153` | A cell gives back what was put at a place, and what it had at the others. |
| `FramePixels.PutPaints` | `extmod/modframebuf.c:65-153` | Setting a pixel changes what getpixel returns there and nowhere else. |
| `FrameHalves.FillWorksIff` | `extmod/modframebuf.c:155-184` | For every stride at least as wide as the rectangle, when the packed filling loop stores to the halves of its pixels and to no others: for an even stride, and for an odd one in four small cases. |
| `FrameOrder.VerticalPixel` | `extmod/modframebuf.c:93-101` | MVLSB: the byte and the bit of each pixel, as numbers. |
| `FrameOrder.HighBitFirst` | `extmod/modframebuf.c:65-75` | MHLSB: the leftmost pixel of a byte is bit 7. |
| `FrameOrder.LowBitFirst` | `extmod/modframebuf.c:65-75` | MHMSB: the leftmost pixel of a byte is bit 0. |
| `FrameOrder.GrayPixel` | `extmod/modframebuf.c:137-153` | GS4_HMSB: the left pixel of a byte is its high half. |
| `FrameOrder.BitOrderIsExchanged` | `docs/library/framebuf.rst:128-145` | The documented bit order of the two horizontal formats is that of the other one in the code, for every pixel. |
| `FrameOrder.ColorComesBackIff` | `extmod/modframebuf.c:65-153` | A pixel gives back the color that it was set to if and only if the format can keep it. |
| `FrameOrder.ColorIsCut` | `extmod/modframebuf.c:65-153` | Other colors lose their high bits, or become 1 in the mono formats. |
| `FrameOrder.SizeIs` | `extmod/modframebuf.c:65-133` | How many cells a picture takes in each format. |
| `FrameHalves.PointerStep` | `extmod/modframebuf.c:160-182` | Where the pointer is after a row, in the four cases of odd and even x and width. |
| `FrameHalves.FilledIsPainted` | `extmod/modframebuf.c:155-184` | With an even stride that paints the rectangle and nothing else. |
| `FramePixels.ScrollPixel` | `extmod/modframebuf.c:486-490` | In the order of the loops, the source of a pixel has not been overwritten when its turn comes. |
| `FramePixels.CanScrollIff` | `extmod/modframebuf.c:468-490` | The loops end without leaving the picture if and only if the offset is at most its size, or there are no rows to move. |
| `FramePictures.FilledPixel` | `extmod/modframebuf.c:202-216` | Pixel by pixel, a filled rectangle has the value. |
| `FramePictures.OutsidePixel` | `extmod/modframebuf.c:202-216` | Beside it nothing changes. |
| `FramePictures.MovedPixel` | `extmod/modframebuf.c:463-492` | Scrolling moves a pixel by the offset, if it stays inside the picture. |
| `FramePictures.StripPixel` | `extmod/modframebuf.c:463-492` | In the strips where nothing moves to, the old pixels stay. |
| `FramePictures.ScrolledBack` | `extmod/modframebuf.c:463-492` | Scrolling there and back restores the pixels that did not leave the picture. |
| `FramePictures.EndsAreDrawn` | `extmod/modframebuf.c:353-416` | Both ends of a line are drawn. |
| `FramePictures.PointIsDrawn` | `extmod/modframebuf.c:353-416` | And each point between them. |
| `FramePictures.OffLinePixel` | `extmod/modframebuf.c:353-416` | All other pixels stay. |
| `FrameBuf.FrameBuffer.constructor` | `extmod/modframebuf.c:217-252` | The stride of the mono formats is rounded up, in 16 bits. |
| `FrameBuf.FrameBuffer.SetPixel` | `extmod/modframebuf.c:65-145` | setpixel in each format changes one pixel. |
| `FrameBuf.FrameBuffer.GetPixel` | `extmod/modframebuf.c:71-153` | getpixel in each format. |
| `FrameBuf.FrameBuffer.MonoHorizFillRect` | `extmod/modframebuf.c:77-89` | Column by column, with a moving byte pointer, the rectangle is painted and nothing else. |
| `FrameBuf.FrameBuffer.MvlsbFillRect` | `extmod/modframebuf.c:103-113` | The same, row by row. |
| `FrameBuf.FrameBuffer.Rgb565FillRect` | `extmod/modframebuf.c:125-133` | The same, with one pointer through all rows. |
| `FrameBuf.FrameBuffer.Gs4HmsbFillRect` | `extmod/modframebuf.c:155-184` | The halves that the loop stores to, for any stride, and that no others change. |
| `FrameBuf.FrameBuffer.Gs4HmsbPaintRect` | `extmod/modframebuf.c:155-184` | In a legal layout it paints the rectangle, in all four cases of odd and even x and width. |
| `FrameBuf.FrameBuffer.FillPairs` | `extmod/modframebuf.c:164-183` | One packed row, and where the pointer ends in each case. |
| `FrameBuf.FrameBuffer.FillRect` | `extmod/modframebuf.c:202-215` | Any rectangle, also one that lies outside or has no size, paints exactly its pixels inside the picture. |
| `FrameBuf.FrameBuffer.Fill` | `extmod/modframebuf.c:263-268` | All pixels get the color. |
| `FrameBuf.FrameBuffer.Scroll` | `extmod/modframebuf.c:463-492` | In place: each pixel whose source lies inside the picture gets the old value of the source, all others stay. |
| `FrameBuf.FrameBuffer.DrawLine` | `extmod/modframebuf.c:353-416` | Exactly the points of the line inside the picture get the color. |
| `FrameBuf.FrameBuffer.MinorSteps` | `extmod/modframebuf.c:403-406` | The inner loop takes at most one step. |
| `FrameLine.WithinHalfAPixel` | `extmod/modframebuf.c:392-409` | The minor offset at step i is floor((2*dy*i + dx) / (2*dx)), within half a pixel of the ideal line. |
| `FrameLine.EndPoints` | `extmod/modframebuf.c:392-413` | The formula meets both ends of the line. |
| `FrameLine.PointsAreConnected` | `extmod/modframebuf.c:392-409` | Points that follow each other are neighbours, and each step along the major axis occurs once. |
| `FrameLine.MinorNext` | `extmod/modframebuf.c:403-408` | The sign of the error accumulator decides the next offset. |
| `RtcClock.OverflowIsExact` | `esp8266/machine_rtc.c:113-117` | An overflow of the counter is worth cal << 20 microseconds without a rounding error. |
| `RtcClock.GetReturns` | `esp8266/machine_rtc.c:101-121` | What the clock returns however late it is read: the time, less cal << 20 for each overflow missed. |
| `RtcClock.GetIsRight` | `esp8266/machine_rtc.c:101-121` | Read within 2^32 ticks, the clock is right and stays so. |
| `RtcClock.GetIsRightIff` | `esp8266/machine_rtc.c:109-120` | It is right if and only if less than 2^32 ticks have passed, while missed overflows do not add up to 2^64 microseconds. |
| `RtcClock.SetShows` | `esp8266/machine_rtc.c:89-99` | After a setting the clock shows the time set, plus the ticks since. |
| `RtcClock.SleepShows` | `esp8266/machine_rtc.c:123-127` | Over a deep sleep it goes on by the time slept. |
| `RtcClock.RunFollows` | `esp8266/machine_rtc.c:59-127` | In every run of set, get and deep sleep with less than 2^32 ticks between calls, the times returned are those of a clock that never overflows. |
| `RtcClock.ReferenceIsMonotone` | `esp8266/machine_rtc.c:101-127` | Between two settings that clock never goes back. |
| `RtcClock.ReadAfterSet` | `esp8266/machine_rtc.c:89-121` | The time set plus floor(T*cal/4096) - floor(T0*cal/4096). |
| `MachineRtc.Rtc.Init` | `esp8266/machine_rtc.c:59-79` | The clock starts at zero without its mark in the memory, and goes on otherwise. |
| `MachineRtc.Rtc.SetUsSince2000` | `esp8266/machine_rtc.c:89-99` | The setting on the words of the memory. |
| `MachineRtc.Rtc.GetUsSince2000` | `esp8266/machine_rtc.c:101-121` | The reading on the words of the memory. |
| `MachineRtc.Rtc.PrepareDeepsleep` | `esp8266/machine_rtc.c:123-127` | The time slept is added in advance. |
| `MachineRtc.Rtc.DeepSleep` | `esp8266/machine_rtc.c:59-127` | Preparation and restart together. |
| `Base64.DecodeOfEncode` | `extmod/modubinascii.c:102-204` | Decoding an encoding gives back every sequence of bytes. |
| `Base64.EncodedGroup` | `extmod/modubinascii.c:164-182` | The shifts and masks of the first pass give the six-bit parts of the 24-bit group, and padding. |
| `Base64.DecodedGroup` | `extmod/modubinascii.c:142-148` | The shifts and masks of the decoder give the eight-bit parts. |
| `Base64.EncodedIsFine` | `extmod/modubinascii.c:118-139` | The decoder accepts every encoding. |
| `Base64Table.LetterIsCharacter` | `extmod/modubinascii.c:186-198` | The characters of the alphabet in the order of Table 1 of RFC 4648. |
| `Base64Table.ValueOfCharacter` | `extmod/modubinascii.c:121-138` | The value of a character is its place in the alphabet. |
| `Base64Table.FineIffLegal` | `extmod/modubinascii.c:104-139` | A text is decoded if and only if its length is a multiple of four and it has characters of the alphabet only, but for equals signs among the last two. |
| `Base64Table.ErrorIs` | `extmod/modubinascii.c:118-139` | Which character decides about the error, and which error it is. |
| `Base64Table.ShortExamples` | `extmod/modubinascii.c:154-204` | The examples of section 10 of RFC 4648. |
| `Base64Table.LongExamples` | `extmod/modubinascii.c:154-204` | Those of two groups. |
| `UBinascii.B2aBase64` | `extmod/modubinascii.c:154-204` | The two-pass encoder equals the definition in section 4 of RFC 4648, with a newline; the length is 4*ceil(n/3)+1. |
| `UBinascii.ToValues` | `extmod/modubinascii.c:161-182` | The first pass. |
| `UBinascii.ToLetters` | `extmod/modubinascii.c:184-201` | The second pass, in place. |
| `UBinascii.A2bBase64` | `extmod/modubinascii.c:102-151` | The error of the first bad group, its last bad character first; otherwise the bytes of the text. |
| `UBinascii.ReadGroup` | `extmod/modubinascii.c:119-139` | The values of a group, or its problem. |
| `UBinascii.WriteGroup` | `extmod/modubinascii.c:142-148` | The one to three bytes of a group. |
| `UBinascii.AnnouncedIff` | `extmod/modubinascii.c:109-117` | All bytes of the result are written if and only if the text does not end with padding before its last character. |
| `UBinascii.EncodedIsAnnounced` | `extmod/modubinascii.c:109-117` | For an encoding the announced length is that of the data. |
| `UBinascii.PaddingBeforeTheEnd` | `extmod/modubinascii.c:109-149` | A text whose result has two bytes that nothing writes. |
| `EtsQueues.PostAppends` | `esp8266/ets_alt_task.c:87-101` | Posting appends to the queue that the ring stands for, and is refused exactly if it is full. |
| `EtsQueues.TakeRemoves` | `esp8266/ets_alt_task.c:137-147` | Taking removes the first event; the indices differ exactly if there is one. |
| `EtsQueues.HandledSlot` | `esp8266/ets_alt_task.c:141-149` | The event that a handler points to lasts while fewer events are posted than fill the queue; then the last of these takes its place. |
| `EtsQueues.LongQueuesBreak` | `esp8266/ets_alt_task.c:92-97` | On a new task with more than 127 places, 127 posts take i_put to 127, and the 128th, which is accepted, takes it to -128, out of the queue. |
| `EtsQueues.MovedIs` | `esp8266/ets_alt_task.c:92-147` | The moves of the indices are those of a post and of a taken event. |
| `EtsQueues.StaysInQueueIff` | `esp8266/ets_alt_task.c:15-22` | In every run of posts and loops from a new task the indices stay in the queue if and only if it has at most 127 places. |
| `EtsRuns.ServeConserves` | `esp8266/ets_alt_task.c:132-155` | In each iteration each task with events gets one, whatever handlers and interrupts post; nothing is lost. |
| `EtsRuns.RunServes` | `esp8266/ets_alt_task.c:117-156` | In every run, what was accepted is what was delivered and then what is queued, in order; and each iteration makes progress. |
| `EtsRuns.EventIsDelivered` | `esp8266/ets_alt_task.c:117-156` | An event with k others ahead is delivered by the (k+1)-th iteration, right behind these. |
| `EtsRuns.TimeIsRightIff` | `esp8266/ets_alt_task.c:112-129` | The two words are the system time if and only if less than 2^32 microseconds lie between two iterations. |
| `EtsEffects.PostGrows` | `esp8266/ets_alt_task.c:87-101` | A post to a queue with room makes it grow by exactly the event; a full queue and all other queues stay as they are. |
| `EtsEffects.RingIsPosted` | `esp8266/ets_alt_task.c:87-101` | The ring that stands for the queue holds the same events afterwards. |
| `EtsEffects.PostedIsDelivered` | `esp8266/ets_alt_task.c:78-156` | A message that is posted while there is room is delivered, right behind those ahead of it, within as many iterations. |
| `EtsEffects.PostsFill` | `esp8266/ets_alt_task.c:78-109` | After many posts a queue holds what it had and the events for it, in order, up to its capacity. |
| `EtsEffects.ServeLane` | `esp8266/ets_alt_task.c:132-155` | The exact result of an iteration for every task: in order of the tasks, at most one event each, also one that was posted earlier in the same iteration. |
| `EtsEffects.ProgressIff` | `esp8266/ets_alt_task.c:132-155` | The loop reports progress if and only if some handler has got an event. |
| `EtsEffects.HighWordWraps` | `esp8266/ets_alt_task.c:112-129` | The high word of the time is a 32-bit counter. |
| `EtsAltTask.EtsTasks.EtsTask` | `esp8266/ets_alt_task.c:62-76` | Registering a task gives it an empty queue. |
| `EtsAltTask.EtsTasks.EtsPost` | `esp8266/ets_alt_task.c:78-109` | Posting on the table of rings is posting to the queues: the ring of the task holds one event more, or its queue was full, nothing changes and the result says so. |
| `EtsAltTask.EtsTasks.PutEvent` | `esp8266/ets_alt_task.c:92-101` | The store through i_put. |
| `EtsAltTask.EtsTasks.ServeTask` | `esp8266/ets_alt_task.c:137-152` | Serving one task on its ring is taking the first event of its queue. |
| `EtsAltTask.EtsTasks.ServeAll` | `esp8266/ets_alt_task.c:132-155` | The loop over the table serves the tasks in order and tells whether there was any event. |
| `EtsAltTask.EtsTasks.LoopIter` | `esp8266/ets_alt_task.c:117-156` | One iteration; while disabled it changes nothing. |

## Left out

- PWM: pin multiplexing, the other timer registers, and the getters.
- PWM: the lock `critical` is not part of the interleavings; one task runs at a time and the interrupt does not take it.
- EspPwm.Pwm.SetDuty: duty and channel are not truncated to 16 and 8 bits.
- JSON: `dumps`, whose printer is not part of this model.
- UJson.JsonStream.Next: a read of the stream that fails, which ends the parse with an OSError, is not modelled.
- JSON: a decimal number is kept as its text, since its conversion is floating point; so texts like `1.2.3` or `1e`,
  which no derivation of the grammar contains, are not refused here.
- JSON: keys of a dict that are not strings, which the grammar does not have, are compared as values and not by Python
  equality. Of what the parser accepts beyond the grammar, only the cases in `JsonReadings` have results of their own.
- ParseNum.ParseNumInteger: base 10 only, and nothing is claimed for texts with spaces or a plus sign, which the JSON parser
  does not pass. The representation of long integers is not part of this model.
- Deadlines: `utimeq.dump` and the unary operators. Objects are opaque values.
- UTimeqRuns.RunRefines: ids that have wrapped are not covered; the counter has the width of a machine word.
- Heaps: the comparison is a strict weak order; a Python `__lt__` with effects or exceptions is not modelled.
- Websocket: fragmented messages, 64-bit lengths (both are assertions in the source), `ioctl`, and switching
  the socket to blocking mode around a write.
- WebSocket.WebSocketObject.Write: the socket takes all bytes; its errors while writing are not modelled.
- Mount table: the calls of the `mount`, `umount` and `chdir` methods of file systems, detection of a FAT file system, and
  the other functions that use a lookup. Strings have no NUL inside; mount points are not empty.
- VfsTable.ReachableIsOrdered: mount points start with a slash, see `VfsTable.RelativeMountIsHidden`.
- I2C: delays, the pin set-up, the frequency, and the functions for registers and scanning, which call the two modelled ones. After a
  timeout a slave is taken to hold SCL until the master pulls it low; nothing is claimed about the lines then.
- I2C: several masters. A slave changes SDA only when SCL has fallen.
- Frame buffers: text, blit, outlines and buffers that are too small, which the source does not check for. Coordinates do
  not overflow. `make_new` takes a format that exists. Setting and reading pixels, scrolling and lines are for legal layouts.
- FrameBuf.FrameBuffer.Scroll: offsets for which `FramePixels.CanScrollIff` shows that the loops leave the picture.
- FrameBuf.FrameBuffer.Rgb565FillRect: a cell is a 16-bit word, so the order of its two bytes is not modelled.
- Clock: alarms, user memory, and the conversion to calendar dates. Restarts without preparation lose the time since the
  last setting, as in the source.
- Base 64: `hexlify`, `unhexlify` and checksums, which would only add easy members.
- Tasks: interrupt masking (a post to a full queue returns with interrupts still locked, `esp8266/ets_alt_task.c:87-91`),
  the watchdog, the idle callback and debug output. A priority out of range, for which the source loops for ever, and
  posts to tasks that are not registered are excluded.
- EtsAltTask.EtsTasks.EtsPost: a queue of more than 127 places takes 127 posts, up to the point where
  `EtsQueues.LongQueuesBreak` takes over; handlers and interrupts post to shorter queues only.
- EtsAltTask.EtsTasks.LoopIter: handlers that call the loop again are not modelled. Queues are values in the table, so two
  tasks that share a buffer are not covered.
