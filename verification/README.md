# A verified model of arale's core

arale is a reactor-style network library. This project models the parts of it whose correctness is a
matter of arithmetic, of two data structures agreeing, or of a protocol between steps, and proves what
those parts are for. `dafny verify dfyconfig.toml` checks everything.

| file | models |
|---|---|
| `CInt.dfy` | C++ integer division, remainder and casts |
| `Date.dfy`, `UtcTime.dfy`, `TimeZone.dfy` | Julian day numbers, UTC and local times (each layer's theorems feed the next) |
| `EventLoop.dfy` | the functor queue and the wake-up protocol, as a step system over many threads |
| `TimerSet.dfy`, `TimerQueue.dfy` | the timer queue with its two ordered sets, its heap and its timerfd |
| `Bytes.dfy`, `Buffer.dfy` | network byte order and the two-index buffer |
| `TcpConnection.dfy` | sends, partial writes, write interest and the delayed half-close |
| `Codec.dfy` | length-prefixed messages over a stream |
| `HttpRequest.dfy`, `HttpContext.dfy` | the incremental HTTP request parser |
| `ChatServer.dfy` | the copy-on-write connection list shared by threads |
| `IdleWheel.dfy` | the timing wheel that expires idle connections |
| `Connector.dfy` | the connecting socket and its retries |
| `PollPoller.dfy` | the poll index with swap-remove |
| `LogStream.dfy` | integer printing into a fixed buffer |

Two shapes are used. Where the source updates an object, a class does the same and its methods are
proved against specification functions; the properties are lemmas about those functions and about whole
runs (`states`, `actions`) of the steps they define. Where several threads interleave, the lock-protected
pieces of code are the steps of a state machine. What the kernel answers (bytes written, readiness, clock
readings, errors) is a parameter of each step. Asserts of the source are theorems where the code itself
establishes them (`TimerQueue.AssertsHold`, `ChatServer.WriterIsAlone`), preconditions of methods, results
(`ok == false` or `asserted == false` where an assert would end the program), or guards that end a run:
all of them in Connector, and those of `connectionEstablished`, `handleClose`, `startRead` and `stopRead` in
TcpConnection.

## Where the code and its surroundings disagree

Some lines do not do what the asserts or callers around them need. Where a line has two readings (the first
four below), operations take a `Form = AsWritten | Intended`: the line as it is written, with an exact
statement of when it goes wrong and an input that shows it, and the line that is needed. The others are
modelled as they are written, unless it says otherwise.

- `arale/net/Buffer.h:249`: the guard does not look at the room in front of the data, so the assert at line
  176 can fail: on a fresh buffer exactly for 1025 to 1032 bytes. Needed: writable + prependable bytes >=
  length + 8. The chat codec inherits this (`SendMessage`), and so does `readFd`: 1025 to 1032 bytes that arrive
  on a fresh input buffer end the program (`Buffer.FreshReadMisses`). It also lets compaction copy over data still to
  move, which `std::copy` does not allow (`Buffer.OverlappingMove`), though only for appends that do not fit either.
- `arale/net/Channel.h:44`: `disableWrite` keeps the write bit and clears the read bit. With that mask a
  connection that ever buffered a remainder is never half-closed (`TcpConnection.WrongMaskNeverHalfCloses`), and one
  that drains its buffer once stops reading, so that it no longer sees the peer close, until somebody calls
  `startRead` (`TcpConnection.DrainedStopsReading`).
- `arale/net/TcpConnection.cc:238`: after a partial direct write the remainder is appended from the start of
  the data instead of from `data + nwrote`. The stream is conserved exactly when no send on the way had a
  partial direct write of data that does not repeat itself.
- `arale/net/http/HttpContext.cc:55`: the search for `?` starts at the second space, so a query stays in the
  path, and a `?` in the version part hands an inverted range to `setQuery` (`HttpContext.CrashingStream`).
- `arale/net/EventLoop.cc:149`: a functor that the loop thread posts before it calls `loop` is not announced,
  and the loop sleeps over it. An entry into the loop is safe exactly when the queue is empty or announced
  (`EventLoop.EntrySleepsExactly`).
- `arale/net/Connector.cc:181`: `restart` while a socket is connecting loses that socket.
- `arale/net/TimerQueue.cc:139`: user code can fail this assert by cancelling a timer of the running batch, or one
  that is gone, twice within that batch (`TimerQueue.CancelAssertFailsExactly`). No theorem depends on it: runs
  go on behind a failed one.
- `arale/net/TimerQueue.cc:129` reads through an erased iterator; modelled only as deleting the cancelled timer.
  `isHandlingTimeout_` (`arale/net/TimerQueue.h:58`) is never initialised; modelled as starting false.
- The calendar formulas hold from 1 March -4800 on and not before; `tm_yday` is right from year -4799 on.
  `fromLocalTime` undoes a first pass exactly when the clock went back by one hour from daylight saving time.
- `arale/net/PollPoller.cc:91`: a disabled channel's structure stays ignored when events are enabled again
  (`PollPoller.EnabledButIgnored`).
- `arale/examples/asio/chat/Codec.h:51`: the length of a message is not checked before it is cast to 32 bits. A
  message arrives exactly if it has at most 65535 bytes (`Codec.ArrivesExactly`). A longer one makes the receiver
  shut down if the cast length is not in 0..65535 (first at 65536 bytes), and otherwise (first at 2^32 bytes) it
  calls back only the front of the message and reads the rest of it as frames (`Codec.WrapsAround`).
- `arale/net/Connector.cc:38`: ordinary calls can fail this assert, for example start, a refused connect, stop and
  start (`Connector.StartAgainFails`); they do exactly when they leave more than one attempt pending or under way
  (`Connector.StartAssertFailsExactly`).

## Model

| member | source | states |
|---|---|---|
| CInt.RepairedDivision | arale/base/TimeZone.cc:317-323 | truncating division with the repair of a negative remainder is floor division, for every dividend |
| CInt.Truncates | arale/base/TimeZone.cc:317-318 | quotient and remainder are those of the absolute values, with the sign of the dividend |
| CInt.CastInt | arale/base/TimeZone.cc:317-318 | the 32-bit value congruent to the argument modulo 2^32 |
| Date.CoveredRoundTrip | arale/base/Date.cc:14-36 | a date from 1 March -4800 on survives the trip to its day number and back |
| Date.DayRoundTrip | arale/base/Date.cc:14-36 | every day number from -32044 on gives a valid calendar date that has this number |
| Date.DateRoundTrip | arale/base/Date.cc:14-36 | a valid date survives the trip if and only if it is not before 1 March -4800 |
| Date.BelowRange | arale/base/Date.cc:23-36 | every smaller day number comes back with a day of the month below 1 |
| Date.NextDayNumber | arale/base/Date.cc:14-21 | the calendar successor (month lengths, 4/100/400 leap rule) has the next day number |
| Date.DayNumbersCountDays | arale/base/Date.cc:14-21 | the date n calendar steps later has a day number greater by n |
| Date.EpochDay | arale/base/Date.cc:38 | the epoch constant 2440588 is the day number of 1 January 1970 |
| Date.YearMonthDayFitsInt | arale/base/Date.cc:23-36 | from -32044 on no intermediate 32-bit value overflows if and only if the day number is at most 536838867 |
| Date.DayNumberFitsInt | arale/base/Date.cc:14-21 | no intermediate 32-bit value overflows for a covered date if and only if it is not after 15 December 5874689 |
| UtcTime.FillHMS | arale/base/TimeZone.cc:68-74 | seconds of the day become hour, minute and second |
| UtcTime.SplitInstant | arale/base/TimeZone.cc:317-323 | casts and repair give floor quotient and remainder of the instant by 86400, negative instants included |
| UtcTime.ToUtcTime | arale/base/TimeZone.cc:312-338 | the step-by-step conversion computes day, second of the day, week day and day of the year |
| UtcTime.UtcRoundTrip | arale/base/TimeZone.cc:312-353 | fromUtcTime(toUtcTime(t)) == t for every t in range, with hour, minute and second in their ranges |
| UtcTime.FieldsAreInstant | arale/base/TimeZone.cc:312-338 | the fields of a broken-down time, counted out in seconds from the epoch day 2440588, are the instant, with every field in its range |
| UtcTime.EpochFields | arale/base/TimeZone.cc:312-338 | instant 0 is 00:00:00 on Thursday, 1 January 1970, day 0 of its year |
| UtcTime.TmRoundTrip | arale/base/TimeZone.cc:312-353 | toUtcTime(fromUtcTime(tm)) has the same date and time of day |
| UtcTime.WeekDayRange | arale/base/Date.h:88-92 | the week day is in 0..6 if and only if the Julian day is not before -1 or happens to be a Sunday |
| UtcTime.WeekDayAdvances | arale/base/TimeZone.cc:325-330 | from Julian day -1 on tm_wday is in 0..6 and advances by one modulo 7 per day; 1 January 1970 is a Thursday |
| UtcTime.NextDaySameTime | arale/base/TimeZone.cc:317-323 | 86400 seconds later it is the same second of the next day |
| UtcTime.DayOfYear | arale/base/TimeZone.cc:332-336 | a date lies as many calendar steps after 1 January as the day numbers say, exactly from year -4799 on |
| UtcTime.TmYday | arale/base/TimeZone.cc:332-336 | tm_yday is the count of days since 1 January, exactly from year -4799 on |
| TimeZone.LowerBound | arale/base/TimeZone.cc:225-228 | the binary search returns the first position whose key is not below the sought one |
| TimeZone.FindsLast | arale/base/TimeZone.cc:214-246 | the lookup returns the type of the last transition at or before the key, or type 0 if there is none |
| TimeZone.LastExists | arale/base/TimeZone.cc:214-246 | every key has such a last transition |
| TimeZone.LastIsUnique | arale/base/TimeZone.cc:214-246 | and only one |
| TimeZone.LocalFields | arale/base/TimeZone.cc:267-287 | a local time has the UTC fields of the instant moved by the offset in force, that offset and its flag |
| TimeZone.FromLocalExactly | arale/base/TimeZone.cc:289-310 | for every broken-down time, one that no instant shows included: the hour is taken back exactly for a DST time whose hour and minute the instant tried shows outside DST |
| TimeZone.ToLocalTime | arale/base/TimeZone.cc:267-287 | the method computes the local time of the instant under the offset found |
| TimeZone.FromLocalTime | arale/base/TimeZone.cc:289-310 | the method computes the instant, with one hour taken back for a guessed first pass |
| TimeZone.SingleOrSecondPass | arale/base/TimeZone.cc:267-310 | instants outside first passes of repeated local times survive the round trip |
| TimeZone.FirstPassResult | arale/base/TimeZone.cc:267-310 | what the round trip gives in a first pass: the drop is added, and 3600 taken back from DST to standard |
| TimeZone.LocalRoundTrip | arale/base/TimeZone.cc:267-310 | on every table with spaced transitions an instant survives if and only if a first pass belongs to a one-hour step back from DST |
| TimeZone.PlainDstSpaced | arale/base/TimeZone.cc:214-246 | transitions 7200 s apart with steps forward, or one hour back from DST, are ordered in both keys and spaced |
| TimeZone.PlainDstRoundTrip | arale/base/TimeZone.cc:267-310 | on every such table fromLocalTime(toLocalTime(t)) == t for every t, both passes of the repeated hour included |
| EventLoop.StepKeepsInv | arale/net/EventLoop.cc:83-180 | every step of posters and loop keeps: executed ++ batch ++ pending == posted, and no waiting functor without an alert |
| EventLoop.ExecutedInOrder | arale/net/EventLoop.cc:134-171 | on every interleaving functors run once each, in posting order |
| EventLoop.NeverSleepsOnWork | arale/net/EventLoop.cc:90-104 | blocked in poll with a functor pending or a quit requested: the eventfd is readable or a poster has its write ahead |
| EventLoop.SwappedIsExecuted | arale/net/EventLoop.cc:154-171 | all functors posted before a swap have been run, in order, once the loop is out of that batch |
| EventLoop.TakenGrows | arale/net/EventLoop.cc:154-171 | what was executed or swapped out stays a prefix of what is executed or swapped out later |
| EventLoop.UnannouncedEntrySleeps | arale/net/EventLoop.cc:83-104 | entered on a pending, unannounced queue the loop reaches poll with nothing to wake it |
| EventLoop.PostBeforeLoop | arale/net/EventLoop.cc:134-152 | such a state is one post of the loop thread away from the initial one |
| EventLoop.EntrySleepsExactly | arale/net/EventLoop.cc:83-104 | some interleaving after an entry into loop() sleeps over a waiting functor if and only if one is pending that nobody announced |
| EventLoop.QuitFlagExactly | arale/net/EventLoop.cc:209-216 | on every run quit_ is set exactly when some thread has called quitLoop since loop() was last entered |
| EventLoop.LoopEndsExactly | arale/net/EventLoop.cc:87-107 | on every run loop() returns at the end of a turn exactly if quitLoop was called since it was entered, and nowhere else |
| EventLoop.CounterStep | arale/net/EventLoop.cc:173-189 | each wake-up adds one up to the largest value of an eventfd, and reading takes all |
| EventLoop.ReadableExactly | arale/net/EventLoop.cc:173-189 | on every run the eventfd is readable exactly when a wake-up was written and not read since |
| EventLoop.WakeIsReported | arale/net/EventLoop.cc:90-103 | on every run poll reports the wake-up channel exactly then, and what is reported is read before the functors are handled |
| EventLoop.LoopPostWakesExactly | arale/net/EventLoop.cc:141-151 | on every run a post in the loop thread is followed by a wake-up exactly while functors are being run |
| EventLoop.EventLoop.PostFuntor | arale/net/EventLoop.cc:134-152 | appends the functor, wakes the loop unless the loop thread posts outside the functors; equals the steps of a post |
| EventLoop.EventLoop.RunInLoop | arale/net/EventLoop.cc:126-132 | calls the functor right away in the loop thread, and posts it in any other |
| EventLoop.EventLoop.QuitLoop | arale/net/EventLoop.cc:209-216 | sets the flag and wakes the loop from any other thread; equals the steps of a request to quit |
| EventLoop.EventLoop.HandleWakeup | arale/net/EventLoop.cc:173-180 | reads the eventfd empty, as one step |
| EventLoop.EventLoop.DoPendingFunctors | arale/net/EventLoop.cc:154-171 | runs exactly the functors that were pending, in order; what they post stays pending and announced |
| EventLoop.EventLoop.Turn | arale/net/EventLoop.cc:90-104 | one turn of the loop runs what was pending and what the callbacks posted, and keeps the invariant |
| TimerSet.InsertSorted | arale/net/TimerQueue.cc:156-161 | insertion keeps the order and adds exactly the element |
| TimerSet.EraseSorted | arale/net/TimerQueue.cc:121-124 | erasing keeps the order, removes exactly the element, and does not make the first element earlier |
| TimerSet.SplitDue | arale/net/TimerQueue.cc:177-184 | lower_bound with the largest address splits into exactly what is due and what is not |
| TimerQueue.StepKeepsInv | arale/net/TimerQueue.cc:87-236 | every step (allocation, add, cancel, clock, begin, callback, end) keeps all invariants below |
| TimerQueue.SetsAndPlaces | arale/net/TimerQueue.cc:95-236 | in every reachable state the two sets hold the same timers under their keys, equally many, and each allocated timer is in exactly one place |
| TimerQueue.BatchIsExactlyDue | arale/net/TimerQueue.cc:174-194 | an expired batch is exactly the timers with expiration <= now, in order; the rest stays |
| TimerQueue.DeletedTimers | arale/net/TimerQueue.cc:118-129 | a timer is deleted only by its cancellation or at the end of its batch if one-shot or cancelled, and is then in no set |
| TimerQueue.CancelIsFinal | arale/net/TimerQueue.cc:108-143 | on every run a timer cancelled after it was added is not run by a later handleTimeout, whoever cancelled it, how often, and whoever reuses its address |
| TimerQueue.RunsAreDue | arale/net/TimerQueue.cc:220-236 | a callback that runs belongs to a timer whose expiration has passed, that was added and that was not cancelled when its batch began |
| TimerQueue.BatchRunsOnce | arale/net/TimerQueue.cc:227-234 | on every run the calls between the begin and the end of a handleTimeout are exactly its batch, in order and once each |
| TimerQueue.OneShotRunsOnce | arale/net/TimerQueue.cc:199-208 | on every run a timer without an interval is run by at most one call |
| TimerQueue.RestartedExactly | arale/net/TimerQueue.cc:196-208 | on every run, at the end of a handleTimeout each timer of its batch that repeats and was not cancelled meanwhile is back in timers_ at now + interval, unchanged else; every other one is deleted |
| TimerQueue.NewTimerIsAsAsked | arale/net/TimerQueue.cc:87-93 | a new timer has the expiration and interval asked for and the next sequence number; no other changes |
| TimerQueue.AddedIsQueued | arale/net/TimerQueue.cc:95-102 | adding puts exactly that timer into both sets and changes none |
| TimerQueue.CancelTakesOne | arale/net/TimerQueue.cc:108-143 | cancelling an active timer takes exactly it from heap and sets; any other id is at most marked |
| TimerQueue.FdExactly | arale/net/TimerQueue.cc:63-102 | what each step does to the timerfd: set for max(time, clock + 100 us) when the earliest timer changes or a batch ends, read by handleTimeout, fired when its time comes |
| TimerQueue.AssertsHold | arale/net/TimerQueue.cc:110-217 | on every run the asserts on each insertion, each erasure and the sizes of the two sets hold, in the loops of getExpiredTimers and resetTimers too |
| TimerQueue.MarkedExactly | arale/net/TimerQueue.cc:130-141 | while a batch runs cancelledTimers_ is exactly the ids cancelled in it when they were not active |
| TimerQueue.CancelAssertFailsExactly | arale/net/TimerQueue.cc:130-141 | on every run the assert on marking an id fails exactly when the id is not active and was cancelled before in the same batch when it was not active |
| TimerQueue.CancelTwiceFails | arale/net/TimerQueue.cc:130-141 | a run that fails it: a one-shot timer whose callback cancels it twice |
| TimerQueue.ArmedInTime | arale/net/TimerQueue.cc:73-102 | outside handleTimeout with timers waiting, the timerfd has fired or is armed no later than the earliest expiration or 100 us after arming |
| TimerQueue.DueTimerWakes | arale/net/TimerQueue.cc:196-218 | a due timer has woken the loop 100 us after the timerfd was last set |
| TimerQueue.TimespecIsExact | arale/net/TimerQueue.cc:20-34 | the timespec is exact, normalised and never zero |
| TimerQueue.TimerQueue.AddTimerInLoop | arale/net/TimerQueue.cc:95-102 | inserts into both sets and re-arms if the earliest expiration changed |
| TimerQueue.TimerQueue.CancelTimerInLoop | arale/net/TimerQueue.cc:108-143 | deletes an active timer, or marks the id while callbacks run; reports the assert on double marking |
| TimerQueue.TimerQueue.InsertIntoSets | arale/net/TimerQueue.cc:145-172 | inserts under both keys and reports whether the timer is the earliest |
| TimerQueue.TimerQueue.GetExpiredTimers | arale/net/TimerQueue.cc:174-194 | takes the due prefix out of both sets, the second by a loop |
| TimerQueue.TimerQueue.ResetTimers | arale/net/TimerQueue.cc:196-218 | the loop restarts the repeated, uncancelled timers and deletes the others, then re-arms |
| TimerQueue.TimerQueue.ResetOrDelete | arale/net/TimerQueue.cc:200-207 | one turn of that loop: the new expiration is now + interval |
| TimerQueue.TimerQueue.HandleTimeout | arale/net/TimerQueue.cc:220-236 | the whole method equals the run of the step system in which each callback does what it does |
| Bytes.IntRoundTrip | arale/net/Buffer.h:102-151 | writing a signed integer of any width in network order and reading it back gives the integer |
| Bytes.WireRoundTrip | arale/net/Buffer.h:193-208 | any bytes read as a signed integer of their width write the same bytes |
| Bytes.BigEndianRoundTrip | arale/net/Endian.h:19-41 | host to network and back for unsigned values of any width |
| Bytes.BytesRoundTrip | arale/net/Endian.h:19-41 | network to host and back |
| Bytes.BigEndianAt | arale/net/Endian.h:19-41 | which byte is where: byte i of an integer of a given width counts 256^(width - 1 - i) |
| Bytes.TwosComplement | arale/net/Buffer.h:193-208 | the bytes of a signed integer of any width are those of its two's complement |
| Bytes.Int32OnWire | arale/net/Buffer.h:200-203 | the four bytes of a 32-bit integer, most significant first |
| Buffer.Buffer.constructor | arale/net/Buffer.h:26-32 | an empty buffer with 8 prependable and 1024 writable bytes |
| Buffer.Buffer.Retrieve | arale/net/Buffer.h:66-73 | drops exactly the first bytes; with the last one both indices return to 8 |
| Buffer.Buffer.RetrieveAsString | arale/net/Buffer.h:87-92 | returns and drops the first bytes |
| Buffer.Buffer.RetrieveUntil | arale/net/Buffer.h:75-80 | drops up to a position in the readable bytes |
| Buffer.Buffer.PeekInt | arale/net/Buffer.h:102-127 | the first bytes as a signed integer in network order, nothing changed |
| Buffer.Buffer.ReadInt | arale/net/Buffer.h:129-151 | the same, and the bytes are dropped |
| Buffer.Buffer.FindCRLF | arale/net/Buffer.h:238-241 | the search loop finds the first CR LF |
| Buffer.Buffer.MakeSpace | arale/net/Buffer.h:248-260 | keeps the contents whether it moves or grows; makes room exactly when the guard's case fits, and then only moves to the left; stops where std::copy is undefined |
| Buffer.Buffer.MoveToFront | arale/net/Buffer.h:250-256 | where std::copy is defined, the byte by byte copy keeps the contents and leaves 8 prependable bytes |
| Buffer.Buffer.EnsureWritableBytes | arale/net/Buffer.h:172-177 | the final assert holds exactly when the buffer fits the length; contents unchanged |
| Buffer.Buffer.Append | arale/net/Buffer.h:179-183 | appends exactly the data, or stops at the assert |
| Buffer.Buffer.AppendInt | arale/net/Buffer.h:193-208 | the appended bytes read back as the integer |
| Buffer.Buffer.Prepend | arale/net/Buffer.h:212-217 | puts the data in front of the contents |
| Buffer.Buffer.PrependInt | arale/net/Buffer.h:219-236 | the prepended bytes read back as the integer |
| Buffer.Buffer.ReadFd | arale/net/Buffer.cc:14-36 | a two-part read appends exactly the delivered bytes |
| Buffer.IntendedAlwaysFits | arale/net/Buffer.h:248-260 | with the needed guard every append finds room |
| Buffer.MovesLeft | arale/net/Buffer.h:248-260 | under either guard compaction for an append that fits moves to the left, where the copy is defined |
| Buffer.IntendedMovesLeft | arale/net/Buffer.h:248-260 | with the needed guard compaction always moves to the left |
| Buffer.OverlappingMove | arale/net/Buffer.h:248-260 | as written, a reachable state in which an append compacts over data still to move |
| Buffer.FreshBufferMisses | arale/net/Buffer.h:249 | as written a fresh buffer fails exactly for 1025 to 1032 bytes |
| Buffer.MissesAreJustAboveWritable | arale/net/Buffer.h:249 | as written exactly which lengths fail in any state of the indices |
| Buffer.FreshReadMisses | arale/net/Buffer.cc:25-34 | as written a read into a fresh buffer ends the program exactly when 1025 to 1032 bytes arrive |
| Buffer.FirstCRLFIsFirst | arale/net/Buffer.h:238-241 | the position found is the first pair, and none means there is none |
| Buffer.FirstCRLFInBytes | arale/net/Buffer.h:238-241 | a position is found exactly if 13 and 10 stand there and not together before |
| Buffer.FirstCRLFAppend | arale/net/Buffer.h:238-241 | later bytes do not move the first pair; a new one is at the seam or behind it |
| Codec.LengthHeaderCodec.OnMessage | arale/examples/asio/chat/Codec.h:23-46 | the loop calls back and keeps exactly what decoding the buffered bytes gives, invalid headers included |
| Codec.LengthHeaderCodec.SendMessage | arale/examples/asio/chat/Codec.h:48-55 | hands over the frame of the message, whatever its length; as written it fails exactly for 1025 to 1032 bytes |
| Codec.DecodeFrame | arale/examples/asio/chat/Codec.h:35-39 | a stream that starts with a frame decodes to its message first |
| Codec.DecodePartialFrame | arale/examples/asio/chat/Codec.h:40-44 | an incomplete frame stays in the buffer |
| Codec.FrameInBytes | arale/examples/asio/chat/Codec.h:48-55 | a frame is two zero bytes, the length in two bytes, and the message |
| Codec.FrontInBytes | arale/examples/asio/chat/Codec.h:27-44 | any bytes start with an invalid header exactly if one of the first two is not zero, and else with as many bytes as the next two say |
| Codec.RefusedExactly | arale/examples/asio/chat/Codec.h:31-34 | the receiver shuts down on a frame, keeping its bytes, exactly when the length cast to 32 bits is not in 0..65535 |
| Codec.ArrivesExactly | arale/examples/asio/chat/Codec.h:23-55 | a sent message arrives, whatever follows, if and only if it has at most 65535 bytes |
| Codec.WrapsAround | arale/examples/asio/chat/Codec.h:48-55 | a longer message whose cast length is in range: only its front is called back and the rest is read as frames |
| Codec.FirstRefused | arale/examples/asio/chat/Codec.h:48-55 | a message of 65536 bytes makes the receiver shut down |
| Codec.FirstMisread | arale/examples/asio/chat/Codec.h:48-55 | a message of 2^32 bytes arrives as an empty one and its bytes are read as frames |
| Codec.DecodeAppend | arale/examples/asio/chat/Codec.h:23-46 | decoding does not depend on where any stream is cut, valid or not |
| Codec.DeliverIsDecode | arale/examples/asio/chat/Codec.h:23-46 | one onMessage per delivery gives what one onMessage on the whole stream gives |
| Codec.FramingIsExact | arale/examples/asio/chat/Codec.h:23-55 | for every message list, every split and every stopping point: exactly the completed messages in order, and the incomplete frame is kept |
| TcpConnection.BytesConserved | arale/net/TcpConnection.cc:203-243 | on every run written ++ buffered == accepted sends in order, if and only if no send was one that loses bytes |
| TcpConnection.IntendedConserves | arale/net/TcpConnection.cc:203-243 | with the remainder copied from where the write stopped, on every run |
| TcpConnection.PartialWriteLosesBytes | arale/net/TcpConnection.cc:238 | as written, a partial direct write of two different bytes loses the second |
| TcpConnection.StepAdds | arale/net/TcpConnection.cc:110-243 | each step adds equally many outgoing and accepted bytes, the same bytes exactly when it keeps them |
| TcpConnection.AcceptedExactly | arale/net/TcpConnection.cc:176-243 | on every run the accepted bytes are the data of the sends on connected connections, in order, without those a dead peer refused at once |
| TcpConnection.SendQueues | arale/net/TcpConnection.cc:210-242 | with data queued or write interest a send queues all its data and calls back exactly when it crosses the high-water mark |
| TcpConnection.SendWritesDirectly | arale/net/TcpConnection.cc:210-242 | otherwise what the kernel takes is sent and the rest queued; write interest, WriteComplete and HighWater exactly in their cases |
| TcpConnection.SendBlocked | arale/net/TcpConnection.cc:217-242 | a write that would block, or fails without EPIPE or ECONNRESET, queues all data |
| TcpConnection.SendToDeadPeer | arale/net/TcpConnection.cc:219-230 | EPIPE and ECONNRESET drop the data and change nothing |
| TcpConnection.SendUnconnected | arale/net/TcpConnection.cc:176-184 | a send on a connection that is not kConnected does nothing |
| TcpConnection.WritesBuffered | arale/net/TcpConnection.cc:110-129 | what the kernel takes is sent from the front; interest, callback and half-close change only when nothing is left |
| TcpConnection.NothingWritten | arale/net/TcpConnection.cc:114-136 | without write interest, or if the kernel takes nothing, nothing changes |
| TcpConnection.ShutdownHalfCloses | arale/net/TcpConnection.cc:157-174 | shutdown() half-closes a connected connection at once exactly if it has no write interest |
| TcpConnection.QuietSteps | arale/net/TcpConnection.cc:69-290 | no other step writes, half-closes or calls back |
| TcpConnection.ConnectedExactly | arale/net/TcpConnection.cc:69-264 | on every run the state is kConnected exactly when established and nothing since began to take it down; kDisconnected means no events |
| TcpConnection.StateStep | arale/net/TcpConnection.cc:69-264 | the state and the reading flag after each step |
| TcpConnection.ReadingExactly | arale/net/TcpConnection.cc:266-290 | on every run reading_ says whether startRead was called and stopRead not since |
| TcpConnection.BufferedMeansWriting | arale/net/TcpConnection.cc:229-242 | on every run, while not disconnected, a non-empty buffer has write interest |
| TcpConnection.HalfCloseComesLast | arale/net/TcpConnection.cc:157-174 | on every run that keeps bytes, at a half-close all accepted bytes are written, and nothing is written or closed again after it |
| TcpConnection.DrainingHalfCloses | arale/net/TcpConnection.cc:117-129 | after shutdown the half-close has happened exactly when the buffer is drained; with the mask as written, exactly when nothing was ever buffered |
| TcpConnection.WrongMaskNeverHalfCloses | arale/net/Channel.h:43-44 | a run that, with the mask as written, ends drained and disconnecting without a half-close |
| TcpConnection.ReadInterestExactly | arale/net/TcpConnection.cc:69-290 | on every run a connection that is up reads exactly if it was established or told to start and since then neither told to stop nor, with the mask as written, drained |
| TcpConnection.DrainedStopsReading | arale/net/Channel.h:43-44 | with the mask as written, and neither startRead nor stopRead, a connection that is up reads exactly until it first drains its buffer |
| TcpConnection.IntendedKeepsReading | arale/net/Channel.h:43-44 | with the needed mask a connection that is up and was never told to stop reads |
| TcpConnection.DrainStopsReading | arale/net/Channel.h:43-44 | the shortest such run: one partial write, and the connection is up and reads nothing |
| TcpConnection.TcpConnection.Send | arale/net/TcpConnection.cc:176-184 | sends only when connected, as one step of the system |
| TcpConnection.TcpConnection.SendInLoop | arale/net/TcpConnection.cc:203-243 | direct write, high-water callback, buffering and write interest, as one step |
| TcpConnection.TcpConnection.TryWrite | arale/net/TcpConnection.cc:204-227 | writes directly only with nothing queued; drops the rest on EPIPE and ECONNRESET |
| TcpConnection.TcpConnection.QueueRemainder | arale/net/TcpConnection.cc:229-242 | buffers what is left, with its callback and write interest |
| TcpConnection.TcpConnection.HandleWrite | arale/net/TcpConnection.cc:110-137 | one step: writes from the buffer, and when drained stops writing and half-closes if asked |
| TcpConnection.TcpConnection.Shutdown | arale/net/TcpConnection.cc:157-174 | one step: half-closes now, or leaves it to the draining write |
| TcpConnection.TcpConnection.HandleClose | arale/net/TcpConnection.cc:139-148 | down, with no interest left |
| TcpConnection.TcpConnection.ForceClose | arale/net/TcpConnection.cc:245-256 | one step: closes a connection that is not down |
| TcpConnection.TcpConnection.ConnectionEstablished | arale/net/TcpConnection.cc:69-77 | one step: connected and reading |
| TcpConnection.TcpConnection.ConnectionDestroyed | arale/net/TcpConnection.cc:79-92 | one step: takes a connected one down |
| TcpConnection.TcpConnection.StartRead | arale/net/TcpConnection.cc:266-277 | one step: read interest and flag on |
| TcpConnection.TcpConnection.StopRead | arale/net/TcpConnection.cc:279-290 | one step: read interest and flag off |
| HttpRequest.TrimIsExact | arale/net/http/HttpRequest.h:43-50 | trimming takes off exactly the white space at both ends |
| HttpRequest.TrimPadded | arale/net/http/HttpRequest.h:43-50 | white space around a value, on both sides, does not matter |
| HttpRequest.SpacesAre | arale/net/http/HttpRequest.h:44-48 | the six white space characters |
| HttpRequest.MethodsInBytes | arale/net/http/HttpRequest.h:79-95 | the five method names in bytes, and no others |
| HttpRequest.HttpRequest.AddHeader | arale/net/http/HttpRequest.h:39-52 | the two loops trim the value; it replaces an earlier one of that name |
| HttpRequest.HeaderIsFound | arale/net/http/HttpRequest.h:39-61 | after addHeader, getHeader finds the trimmed value under that name and the former values under all others |
| HttpRequest.HttpRequest.SetMethod | arale/net/http/HttpRequest.h:79-95 | the method of that name, or invalid |
| HttpRequest.HttpRequest.GetHeader | arale/net/http/HttpRequest.h:54-61 | the stored value, or empty |
| HttpContext.HttpContext.ParseRequest | arale/net/http/HttpContext.cc:9-46 | the loop terminates from the two parsing states and does what the recursive specification says, receive time included |
| HttpContext.HttpContext.ParseRequestLine | arale/net/http/HttpContext.cc:48-76 | method, target and version of a line, accepted or rejected, with the fields already set on rejection |
| HttpContext.HttpContext.ParseTargetAndVersion | arale/net/http/HttpContext.cc:55-72 | the part behind the second space, in both readings of the search |
| HttpContext.ParseAppend | arale/net/http/HttpContext.cc:9-46 | later bytes continue a waiting parse where it stopped and do not affect a finished or failed one |
| HttpContext.FeedIsParse | arale/net/http/HttpContext.cc:9-46 | for every stream and every split: same request, state, outcome and left-over bytes as one feed |
| HttpContext.RequestArrives | arale/net/http/HttpContext.cc:9-76 | every request with one of the five known methods, HTTP/1.0 or 1.1 and header fields with any optional white space (RFC 7230 sections 3.1.1 and 3.2), however it is cut, parses back to its parts with the bytes behind it left over |
| HttpContext.RequestLineParses | arale/net/http/HttpContext.cc:48-76 | a request line with a known method parses back to method, path, query and version, in both readings of the search |
| HttpContext.HeadersParse | arale/net/http/HttpContext.cc:27-40 | header lines, with any optional white space around their values, parse back to the map in which later ones win |
| HttpContext.LastHeaderWins | arale/net/http/HttpRequest.h:51 | in that map a name has the value of its last header, or its former one if there is none |
| HttpContext.AcceptedExactly | arale/net/http/HttpContext.cc:48-76 | exactly the lines of one of the five methods, a target without spaces and HTTP/1.0 or HTTP/1.1 are accepted, in both readings |
| HttpContext.VersionsInBytes | arale/net/http/HttpContext.cc:63-71 | exactly the bytes of HTTP/1.1 and HTTP/1.0 are versions |
| HttpContext.RequestLineInBytes | arale/net/http/HttpContext.cc:48-76 | the bytes of a request line |
| HttpContext.SampleParses | arale/net/http/HttpContext.cc:9-76 | one whole request in bytes: method, path, query, version, headers, state and left-over byte, in both readings |
| HttpContext.NoColonEnds | arale/net/http/HttpContext.cc:30-37 | any header line without a colon, empty or not, is dropped and ends the request |
| HttpContext.FailureStays | arale/net/http/HttpContext.cc:16-23 | a request line that is not accepted stays in the buffer, and the parser in its state |
| HttpContext.ShortLineLeaves | arale/net/http/HttpContext.cc:50-54 | a line without a space leaves the request alone; one without a second space leaves the method, reset by an unknown word |
| HttpContext.RejectedLeaves | arale/net/http/HttpContext.cc:51-75 | a line with an unknown method resets the method; one with an unknown version leaves method and target |
| HttpContext.AcceptedHasNoQuery | arale/net/http/HttpContext.cc:55-61 | as written no accepted line sets a query, and the path is everything between the first two spaces |
| HttpContext.CrashesExactly | arale/net/http/HttpContext.cc:55-58 | as written exactly the lines with a known method and a question mark behind the second space do so |
| HttpContext.CrashingStream | arale/net/http/HttpContext.cc:55-58 | a stream on which the parser, as written, hands over an inverted range |
| HttpContext.ReadingsAgree | arale/net/http/HttpContext.cc:55-58 | both readings agree exactly when there is no question mark in target or version |
| ChatServer.StepKeepsInv | arale/examples/asio/chat/ChatServerThreadedEfficient.cc:42-77 | every step of writers and readers keeps counts, locking and contents |
| ChatServer.SnapshotIsolation | arale/examples/asio/chat/ChatServerThreadedEfficient.cc:65-77 | on every interleaving the list a reader holds stays allocated and unchanged until it releases it |
| ChatServer.CurrentIsFold | arale/examples/asio/chat/ChatServerThreadedEfficient.cc:51-63 | on every interleaving the current list is the fold of all connects and disconnects |
| ChatServer.ListedExactly | arale/examples/asio/chat/ChatServerThreadedEfficient.cc:57-62 | on every interleaving a connection is in the current list exactly if its last completed onConnection was an up |
| ChatServer.ChangesExactly | arale/examples/asio/chat/ChatServerThreadedEfficient.cc:42-63 | each onConnection completes once, with the change it entered with |
| ChatServer.CopiesOnlyShared | arale/examples/asio/chat/ChatServerThreadedEfficient.cc:52-54 | the list is copied exactly if some reader held it when the writer looked |
| ChatServer.WriterIsAlone | arale/examples/asio/chat/ChatServerThreadedEfficient.cc:52-55 | the assert before the change holds: the writer has the only reference |
| ChatServer.NeverDangling | arale/examples/asio/chat/ChatServerThreadedEfficient.cc:51-77 | no step ever finds its list or reference count gone |
| ChatServer.NoListLeaks | arale/examples/asio/chat/ChatServerThreadedEfficient.cc:52-72 | each allocated list is the current one or held by a reader |
| ChatServer.ChatServer.OnConnection | arale/examples/asio/chat/ChatServerThreadedEfficient.cc:42-63 | the current list changes by this connection alone, and no reader's list changes |
| ChatServer.ChatServer.CopyList | arale/examples/asio/chat/ChatServerThreadedEfficient.cc:52-54 | equals the copy step: own copy, one reference given up, the old list freed with the last |
| ChatServer.ChatServer.ModifyList | arale/examples/asio/chat/ChatServerThreadedEfficient.cc:57-62 | equals the step that inserts or erases |
| ChatServer.ChatServer.Acquire | arale/examples/asio/chat/ChatServerThreadedEfficient.cc:68-72 | equals the step that takes a reference to the current list |
| ChatServer.ChatServer.Release | arale/examples/asio/chat/ChatServerThreadedEfficient.cc:74-77 | equals the unlocked step that gives it up |
| IdleWheel.ExpiresOnce | arale/examples/idleconnection/Echo.cc:69-78 | an expired entry expired at exactly one event, the tick that completes idleSeconds ticks without activity |
| IdleWheel.AliveExactly | arale/examples/idleconnection/Echo.cc:33-78 | after an activity and with no other, an entry is alive exactly while fewer than idleSeconds ticks have passed |
| IdleWheel.ExpiredForGood | arale/examples/idleconnection/Echo.cc:57-66 | nothing brings an expired entry back |
| IdleWheel.CountedIsAlive | arale/examples/idleconnection/Echo.h:52-70 | some bucket holds a pointer to an entry exactly while the activity clock has it alive |
| IdleWheel.TickRefines | arale/examples/idleconnection/Echo.cc:69-78 | rotating the buckets keeps the wheel in step with the clock |
| IdleWheel.ActivityRefines | arale/examples/idleconnection/Echo.cc:33-44 | an insertion into the newest bucket keeps the wheel in step with the clock |
| IdleWheel.LateMessageRefines | arale/examples/idleconnection/Echo.cc:57-66 | a message after expiry changes nothing |
| IdleWheel.EchoServer.EntryIsAlive | arale/examples/idleconnection/Echo.h:52-87 | after any calls, an Entry exists if and only if its connection has not been idle for idleSeconds ticks |
| IdleWheel.EchoServer.constructor | arale/examples/idleconnection/Echo.cc:13-22 | idleSeconds empty buckets and no entries |
| IdleWheel.EchoServer.OnConnection | arale/examples/idleconnection/Echo.cc:28-50 | a new connection gets an entry in the newest bucket |
| IdleWheel.EchoServer.OnMessage | arale/examples/idleconnection/Echo.cc:52-67 | refreshes an alive entry, ignores an expired one |
| IdleWheel.EchoServer.DropBucket | arale/examples/idleconnection/Echo.h:59-70 | drops one reference of each entry in the bucket; the last one destroys it and shuts down an existing connection |
| IdleWheel.EchoServer.OnTimer | arale/examples/idleconnection/Echo.cc:69-78 | shuts down exactly the still existing connections whose entries expire at this tick |
| Connector.SocketConservation | arale/net/Connector.cc:46-187 | on every run that keeps the asserts and does not restart while connecting, each created socket is in flight, closed once or handed over once; one is in flight iff kConnecting |
| Connector.StepKeepsInv | arale/net/Connector.cc:84-187 | each step keeps that, and the channel and its posted reset agree with the state |
| Connector.RestartConserves | arale/net/Connector.cc:181-187 | restart keeps the sockets accounted for if and only if the connector is not connecting |
| Connector.RestartLosesSocket | arale/net/Connector.cc:181-187 | a run that keeps all asserts and loses a socket |
| Connector.WritableOutcome | arale/net/Connector.cc:97-124 | a writable socket is handed over and the state kConnected exactly if it is established and connected_ is set; else it is closed, with a retry exactly if it is not established |
| Connector.HandedExactly | arale/net/Connector.cc:100-113 | on every such run exactly the sockets are handed over that were found established while connected_ was set |
| Connector.FailedOutcome | arale/net/Connector.cc:155-179 | an error event and stopInLoop close the socket in flight and retry |
| Connector.StartOutcome | arale/net/Connector.cc:36-94 | what each answer of connect leads to: in flight, closed and retried, or closed for good; a stopped connector creates nothing |
| Connector.RestartOutcome | arale/net/Connector.cc:181-187 | a restart is a start with the flag set and the first delay of 500 ms |
| Connector.IdleOutcome | arale/net/Connector.cc:97-179 | callbacks and stopInLoop do nothing when no socket is in flight |
| Connector.ConnectedExactly | arale/net/Connector.cc:31-34 | on every run connected_ is set exactly if start or restart set it and no stop cleared it since |
| Connector.DelaysDouble | arale/net/Connector.cc:141-153 | on every run the delay after k retries since the last restart is min(500 * 2^k, 30000) |
| Connector.StopIsFinal | arale/net/Connector.cc:166-179 | after stop and until a start or restart, nothing is created, handed over or scheduled, and after stopInLoop nothing is in flight |
| Connector.StartAssertFailsExactly | arale/net/Connector.cc:36-44 | without further calls from outside, some course of events fails the assert on kDisconnected if and only if more than one attempt is pending or under way |
| Connector.StartAgainFails | arale/net/Connector.cc:36-44 | a run of start, refused connect, stop and start after which the old retry timer fails the assert |
| Connector.Connector.Connect | arale/net/Connector.cc:46-82 | creates a socket and waits for it, retries it or closes it |
| Connector.Connector.RunPendingStart | arale/net/Connector.cc:36-44 | a posted or timed start, as one step |
| Connector.Connector.OnWritable | arale/net/Connector.cc:97-124 | one step: retries a failed or self-connected socket, hands a good one over, or closes it after stop |
| Connector.Connector.OnError | arale/net/Connector.cc:155-164 | one step: retries the socket in flight |
| Connector.Connector.Retry | arale/net/Connector.cc:141-153 | closes the socket; schedules one more start and doubles the delay unless stopped |
| Connector.Connector.RemoveAndResetChannel | arale/net/Connector.cc:126-134 | unregisters the channel and posts its reset |
| Connector.Connector.RunStop | arale/net/Connector.cc:171-179 | one step: closes the socket in flight |
| Connector.Connector.RunRestart | arale/net/Connector.cc:181-187 | one step: starts afresh with the initial delay |
| PollPoller.SwapRemoveKeepsIndex | arale/net/PollPoller.cc:106-120 | swap-remove keeps the bijection of descriptors and structures under both encodings |
| PollPoller.SwapRemoveTakesOne | arale/net/PollPoller.cc:110-120 | it takes away exactly the removed structure |
| PollPoller.WatchedExactly | arale/net/PollPoller.cc:82-92 | after any updates a structure is watched exactly if it was and no update disabled all events |
| PollPoller.EnabledButIgnored | arale/net/PollPoller.cc:82-92 | registered, disabled and enabled again: the events are asked for and the descriptor stays negative |
| PollPoller.AsksForLast | arale/net/PollPoller.cc:82-87 | a structure asks for the events of the last update and has none reported |
| PollPoller.ReadyOnce | arale/net/PollPoller.cc:46-61 | each descriptor with events is ready exactly once, and no other |
| PollPoller.ReadyInOrder | arale/net/PollPoller.cc:46-61 | the ready descriptors come in the order of their structures |
| PollPoller.ReadyStops | arale/net/PollPoller.cc:49-52 | the counting loop takes exactly the first n ready structures |
| PollPoller.PollPoller.UpdateChannel | arale/net/PollPoller.cc:65-94 | adds a structure or updates the channel's own; the index stays a bijection; an ignored one stays ignored |
| PollPoller.PollPoller.RemoveChannel | arale/net/PollPoller.cc:96-121 | removes the channel and moves the last structure and its index into the gap |
| PollPoller.PollPoller.SwapWithLast | arale/net/PollPoller.cc:111-118 | swaps a structure with the last one and tells the channel of that one its new index |
| PollPoller.PollPoller.FillActiveChannels | arale/net/PollPoller.cc:46-61 | appends the channels of the first numEvents ready structures and tells each its events |
| PollPoller.PollPoller.Poll | arale/net/PollPoller.cc:24-44 | with an exact count the list holds each ready channel exactly once and no other |
| LogStream.DecimalRoundTrip | arale/base/LogStream.cc:28-49 | the decimal form is canonical and parses back to the integer, for every integer |
| LogStream.DecimalIsUnique | arale/base/LogStream.cc:28-49 | and is the only canonical form of it |
| LogStream.DigitsInCharacters | arale/base/LogStream.cc:20-24 | the characters of the sixteen digits, and the sign |
| LogStream.DecimalSample | arale/base/LogStream.cc:28-49 | minus one hundred and twenty in characters |
| LogStream.DecimalLength | arale/base/LogStream.cc:28-49 | every signed or unsigned 64-bit value, the minimum included, takes at most 20 characters |
| LogStream.NumeralIsNumeral | arale/base/LogStream.cc:51-67 | the numeral in any base up to 16 has no leading zero and its value is the number |
| LogStream.TruncatedDigit | arale/base/LogStream.cc:36-38 | indexing from zero with a truncated, possibly negative remainder writes the right digit |
| LogStream.ReverseRange | arale/base/LogStream.cc:46 | in-place reversal of a range, the rest untouched |
| LogStream.WriteDigits | arale/base/LogStream.cc:34-39 | the loop writes the digits least significant first |
| LogStream.Convert | arale/base/LogStream.cc:28-49 | writes the decimal form and a terminator inside the 32-byte reserve, and nothing else |
| LogStream.ConvertHex | arale/base/LogStream.cc:51-67 | writes the hexadecimal form and a terminator in at most 17 characters |
| LogStream.FixedBuffer.Append | arale/base/LogStream.h:35-43 | appends all or nothing and leaves room for a terminator if there was any |
| LogStream.FixedBuffer.FormatInteger | arale/base/LogStream.cc:98-106 | appends the decimal form or nothing, never passing the end |
| LogStream.FixedBuffer.FormatPointer | arale/base/LogStream.cc:156-168 | appends 0x and the hexadecimal form or nothing |

## Left out

- System calls, sockets, signals and log output: only their results appear, as parameters of the steps.
- `readTimeZoneFile`, zone names and abbreviations: the model starts from a table that meets its hypotheses.
  `gmtime_r` and `timegm` are replaced by the file's own UTC functions.
- Interleaving of threads is modelled by the step systems of the event loop and the chat server; their classes run
  one method at a time, and their methods equal sequences of steps. C++ memory ordering is not modelled.
- EventLoop: the poll timeout and the callbacks of channels other than the wake-up channel, except for what they
  post; an eventfd write that fails is taken to leave the counter readable.
- The heap of timers is a map from addresses, because the reuse of addresses is part of the cancellation property.
- Arming the timerfd is one step with reading the clock for it; in the source the time between the two is added to
  the moment at which it fires.
- Timer intervals are whole microseconds; floating point (intervals in seconds, printing of `double`, `Fmt`) is
  not modelled.
- Calls into `TcpConnection` from other threads (the check and the change of the state are not one step there),
  `handleRead`'s error branch, and the timer behind `forceCloseWithDelay` (its first half is the step
  `ForceCloseLater`).
- Buffer: `unwrite`, `swap` and the vector's capacity. The constructor ignores its argument and its assert fails
  for any size but 1024, so only the default is modelled.
- HttpContext: obsolete line folding (section 3.2.4 of RFC 7230), which the code does not know; bodies, `reset`, and calls in the states kExpectBody and kGotAll, in which the loop does not end.
- Connector: `connected_` can change between the steps of the loop thread but not within one. Retry timers fire at
  any time after they were set, in any order.
- PollPoller: registering a removed channel again (its index is not reset) is excluded by the source's asserts.
- IdleWheel: idleSeconds of 0 (an empty circular buffer has no last bucket), the echo itself, and an entry per
  connection that comes up twice.
- `TcpServer`, `TcpClient`, `Acceptor`, `EventLoopThread`, the thread pool, `EPollPoller` and the other examples:
  wiring, or easy members.
