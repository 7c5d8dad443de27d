# Rover web application: MJPEG relay and motor controller

A Dafny model of the two pieces of sequential logic in `webapplication.py`.

**The MJPEG relay** is the generator `mjpeg_generator`. It reads the camera's
multipart stream chunk by chunk into a byte buffer. The inner loop then
repeats three searches on the buffer:

- the boundary `--frame`;
- the blank line `\r\n\r\n` after it;
- the next `--frame` after that.

Each time all three succeed, the loop yields the bytes between the blank
line and the next boundary, re-framed as a fresh multipart part with a
recomputed `Content-Length`, and the buffer moves on to the second boundary.
When the buffer holds no boundary at all, only its last 4096 bytes are
kept. If the upstream read raises, one final `text/plain` part carries the
error text.

**The motor controller** is the class `MotorController`. It drives two DC
motors through an H-bridge. There are four direction pins: IN1/IN2 for the
right motor and IN3/IN4 for the left, whose polarity is inverted. There are
two PWM duty cycles: `pwm_a` on ENA (right) and `pwm_b` on ENB (left). The
operations are `forward`, `backward`, `left`, `right`, `stop`, `set_speed`
and the helper `_set_motors`.

Modules, one file each:

- `Bytes` (`bytes.dfy`): the byte type, `Option`, ASCII literals and a few generic sequence facts.
- `Search` (`search.dfy`): `bytes.find(sub, start)` and what it returns.
- `Decimal` (`decimal.dfy`): `str(n).encode()` and reading it back.
- `Multipart` (`multipart.dfy`):
  - the parts the relay writes;
  - a downstream reader for JPEG parts.
- `Relay` (`relay.dfy`):
  - the parsing loop, both as a recursive function (`Drain`) and as the loop the source writes (`DrainLoop`);
  - the fold over chunks (`Feed`);
  - the whole generator (`RelayOutput`, `Generate`).
- `Chunking` (`chunking.dfy`): the proof that the payloads do not depend on how the upstream bytes are split into chunks.
- `Upstream` (`upstream.dfy`): a camera stream made of well-formed parts, and the proof that the relay yields exactly their bodies, in order.
- `Motor` (`motor.dfy`): the controller as pure transitions on an immutable record, with an abstract image of pins and duty cycles.
- `MotorLock` (`motor_lock.dfy`): the same operations with the controller's non-reentrant lock, for requests that each run in their own thread; used for the finding below.

The upstream connection is a parameter. The bytes it delivers are a
`seq<seq<byte>>` of chunks, and how it ends is an `Ending`: `Closed`, or
`Failed(message)` with the exception text as opaque bytes. A failure to
connect is `Failed` with no chunks. The levels the direction pins have at
boot are a parameter of `Init`, because setting a pin up as an output
writes no level.

Behaviour of the code worth knowing:

- An upstream part's body usually ends with the `\r\n` that precedes the
  next boundary. The code cuts out everything up to the next `--frame`, so
  that `\r\n` becomes part of the relayed payload and is counted in
  `Content-Length`. The relayed payload is therefore not byte-identical to
  the embedded JPEG. `Relay.Payload` and `Relay.PayloadClean` state exactly
  which bytes are taken, and `Upstream.LineBreakRelayed` shows the two
  extra bytes on a camera part.
- The last part of a stream is emitted only once another boundary arrives.
- The 4096-byte cap applies only while the buffer holds no `--frame`. Once
  a boundary has arrived, a stream that never sends the `\r\n\r\n` after
  it, or never the next `--frame`, makes the buffer grow without limit:
  lines 167-174 leave the loop without truncating. `Relay.Bounded` exempts
  every buffer that contains `--frame` for this reason, and
  `Relay.NoHeaderEndWaits` and `Relay.NoNextBoundaryWaits` show the whole
  buffer being kept.
- A normal end of the upstream stream produces no diagnostic part.
- Motor operations do not roll back on hardware errors.
- `set_speed` while moving does not return (see Findings).

Which of the final buffer's bytes are kept depends on the chunking, because
truncation happens between chunks. The payloads do not depend on it.

## Model

| member | source | states |
|---|---|---|
| Search.Find | webapplication.py:161-172 | the three `buffer.find` calls at lines 161, 167 and 172, returning None for -1; what it returns is stated by `Search.FindSpec` |
| Search.FindSpec | webapplication.py:161-172 | `find` returns the lowest offset at or after `start` where the pattern occurs wholly inside the buffer, and -1 (None) exactly when there is no such offset |
| Search.FindIsFirst | webapplication.py:161-172 | any offset that is the first occurrence at or after `start` is the one `find` returns |
| Decimal.Digits | webapplication.py:180 | `str(len(jpg_data))` is a canonical digit string: at least one digit and no leading zero |
| Decimal.ValueOfDigits | webapplication.py:180 | reading the rendered length back gives the length |
| Decimal.DigitsOfValue | webapplication.py:180 | every canonical digit string is the rendering of the number it denotes, so a `Content-Length` line has exactly one spelling |
| Multipart.JpegPart | webapplication.py:178-181 | the part yielded for a payload: boundary, `Content-Type: image/jpeg`, `Content-Length` with the decimal length, blank line, payload, `\r\n`; `Multipart.ReadFrameIff` states that a reader recovers exactly the payload |
| Multipart.ErrorPart | webapplication.py:186-188 | the `text/plain` part carrying `Virhe streamissä: ` and the exception text; `Multipart.ErrorPartIsNotJpeg` states it is never read as a JPEG part |
| Multipart.ReadJpegPart | webapplication.py:178-181 | a reader that parses the header and takes `Content-Length` bytes gets back exactly the payload of every part the relay yields |
| Multipart.ReadFrameExact | webapplication.py:178-181 | whatever such a reader accepts is byte for byte the part the relay would build for that payload |
| Multipart.ReadFrameIff | webapplication.py:178-181 | a part is the JPEG part for a payload if and only if the reader returns that payload |
| Multipart.ErrorPartIsNotJpeg | webapplication.py:186-188 | the diagnostic part is never read as a JPEG part, whatever the message |
| Relay.Locate | webapplication.py:161-174 | when all three searches succeed, the header end lies at or after the first boundary and the next boundary at least four bytes after the header end, inside the buffer |
| Relay.LocateNoBoundary | webapplication.py:161-162 | the first search fails exactly when the buffer holds no `--frame` |
| Search.DropAvoids | webapplication.py:167-172 | a pattern absent from the part of the buffer a search starts at is found nowhere from there on |
| Relay.LocateMeaning | webapplication.py:161-174 | the three positions are the first boundary, the first blank line after it and the first boundary after that; an incomplete scan has no boundary after the blank line |
| Relay.PayloadClean | webapplication.py:171-176 | an extracted payload never contains `--frame` |
| Relay.Drain | webapplication.py:160-183 | the inner `while True` loop as a recursive function giving the yielded payloads and the buffer left; `Relay.DrainLoop` states that the loop as written computes it, and the Drain lemmas below state what it yields |
| Relay.Retain | webapplication.py:163-164 | `buffer[-4096:]` is the suffix of length min(len, 4096) |
| Relay.NoBoundaryWaits | webapplication.py:161-165 | a buffer without `--frame` yields nothing and keeps only its last 4096 bytes |
| Relay.NoHeaderEndWaits | webapplication.py:167-169 | when no `\r\n\r\n` follows the first boundary, nothing is yielded and the whole buffer is kept |
| Relay.NoNextBoundaryWaits | webapplication.py:171-174 | when no `--frame` follows the first header end, nothing is yielded and the whole buffer is kept |
| Relay.DrainEmitsIff | webapplication.py:160-183 | the inner loop yields something exactly when all three searches succeed on the buffer |
| Relay.DrainAdvances | webapplication.py:176-183 | after an emission the buffer starts with `--frame` and is strictly shorter than before |
| Relay.DrainSettles | webapplication.py:160-174 | when the inner loop stops, no further part can be cut, and a buffer without boundary holds at most 4096 bytes |
| Relay.DrainSuffix | webapplication.py:160-183 | the buffer left by the inner loop is a tail of the buffer it started with |
| Relay.DrainClean | webapplication.py:160-183 | no payload the inner loop yields contains `--frame` |
| Relay.DrainLoop | webapplication.py:160-183 | the `while True` loop, with its mutable buffer and early `break`s, terminates, yields the JPEG part of every payload in order and leaves the buffer the recursive meaning leaves |
| Relay.ReadFramed | webapplication.py:176-181 | the yielded parts are one per payload, in order, and a reader recovers each payload from its part |
| Relay.Step | webapplication.py:157-183 | one chunk: `buffer += chunk`, then the inner loop; `Relay.StepKeepsInvariant` states what it keeps |
| Relay.Feed | webapplication.py:156-183 | the `for chunk in ...` loop over all chunks; `Relay.FeedKeepsInvariant` and `Chunking.FeedMatchesWhole` state what it yields |
| Relay.StepKeepsInvariant | webapplication.py:157-183 | after one chunk the buffer is a tail of the old buffer plus the chunk, admits no further emission, is bounded when it holds no boundary, and starts with `--frame` after an emission |
| Relay.FeedKeepsInvariant | webapplication.py:156-183 | across any number of chunks the buffer stays a tail of everything read, and once a chunk has arrived it is settled and bounded |
| Relay.FeedClean | webapplication.py:156-183 | no payload of a whole stream contains `--frame` |
| Relay.RelayOutput | webapplication.py:147-188 | every yielded part is a JPEG part except one final diagnostic part when the read fails, and no JPEG payload contains `--frame` |
| Relay.Generate | webapplication.py:147-188 | the generator as written, the chunk loop around the inner loop followed by the error part, yields exactly `RelayOutput` |
| Chunking.DropJunk | webapplication.py:162-164 | bytes before the first boundary never reach a payload, so discarding them is harmless |
| Chunking.DrainAppend | webapplication.py:157-183 | draining a buffer and then draining what is left together with more bytes yields the same payloads as draining all the bytes at once |
| Chunking.FeedMatchesWhole | webapplication.py:156-183 | from a settled buffer, feeding chunks one at a time yields the payloads of the whole byte string |
| Chunking.WholeStream | webapplication.py:156-183 | the payloads of a connection are those of its concatenated bytes drained at once |
| Chunking.ChunkingIrrelevant | webapplication.py:157-183 | two chunkings of the same bytes yield the same payloads |
| Chunking.OutputIgnoresChunking | webapplication.py:147-188 | two chunkings of the same bytes yield the same downstream output |
| Chunking.NoBoundaryNoOutput | webapplication.py:161-165 | a stream without `--frame` yields nothing |
| Chunking.NoBoundaryBounded | webapplication.py:161-165 | a stream without `--frame` never leaves more than 4096 bytes buffered |
| Upstream.FindJoin | webapplication.py:161-172 | `find` from the start returns the offset right after a prefix in which the pattern does not start |
| Upstream.FindAtStart | webapplication.py:161 | searching from the start finds a pattern that begins the buffer at offset 0 |
| Upstream.OpeningFound | webapplication.py:161 | on a camera part the first boundary search finds the part's own `--frame` at offset 0 |
| Upstream.HeaderEndFound | webapplication.py:167 | on a well-formed part the blank-line search finds the blank line that ends the part's header |
| Upstream.ClosingFound | webapplication.py:171-172 | on a well-formed part the search from `jpg_start` finds the boundary that follows the part's body |
| Upstream.LocatePart | webapplication.py:161-174 | a well-formed part followed by a boundary makes all three searches succeed, delimiting exactly that part |
| Upstream.PartEmitted | webapplication.py:160-183 | such a part is cut out as its body, and the loop goes on from the following boundary |
| Upstream.BoundaryWaits | webapplication.py:167-169 | a lone `--frame` with nothing after it yet is kept and yields nothing |
| Upstream.StreamRelayed | webapplication.py:160-183 | a stream of well-formed parts up to the next boundary yields exactly the parts' bodies, in order |
| Upstream.CameraRelayed | webapplication.py:147-188 | for any chunking of such a stream the generator yields one JPEG part per upstream part, carrying its body, then the diagnostic part if the read failed |
| Upstream.LineBreakRelayed | webapplication.py:171-181 | a camera part whose JPEG is followed by `\r\n` is relayed with those two bytes inside the payload |
| Motor.Init | webapplication.py:49-64 | `__init__`: PWM at duty 0, no action, speeds 70 and 40, direction pins at their boot levels; `Motor.InitConsistent` states it |
| Motor.Apply | webapplication.py:87-132 | one request from the web page dispatched to `forward`, `backward`, `left`, `right`, `stop` or `set_speed`; `Motor.ApplyKeepsConsistent` and `Motor.ApplyKeepsSafe` state what it keeps |
| Motor.SetMotors | webapplication.py:66-85 | after `_set_motors` each wheel turns in the requested direction, the left through its inverted pins, and each duty cycle is its speed, whatever the pins held before |
| Motor.GoForward | webapplication.py:87-90 | `forward` drives both wheels ahead at the current speed and records the action |
| Motor.GoBackward | webapplication.py:92-95 | `backward` drives both wheels astern at the current speed and records the action |
| Motor.GoLeft | webapplication.py:97-100 | `left` drives the left wheel astern and the right ahead at the turning speed, never the current speed |
| Motor.GoRight | webapplication.py:102-105 | `right` drives the left wheel ahead and the right astern at the turning speed, never the current speed |
| Motor.Stop | webapplication.py:107-112 | `stop` zeroes both duty cycles and clears the action, leaving every direction pin and both speeds as they were |
| Motor.StopIdempotent | webapplication.py:107-112 | stopping twice is stopping once |
| Motor.Clamp | webapplication.py:117 | `max(0, min(100, speed))` lies in 0..100, is the speed itself inside that range, 0 below it and 100 above it |
| Motor.SetSpeed | webapplication.py:114-132 | `set_speed` stores the clamped speed, keeps the action and turning speed, changes no output while standing still, and while moving shows the action at its duty |
| Motor.SetSpeedKeepsDirection | webapplication.py:118-132 | a speed change while moving leaves every direction pin where it was |
| Motor.InitConsistent | webapplication.py:49-64 | the controller starts consistent, with no action, both duty cycles 0, speed 70 and turning speed 40 |
| Motor.ApplyKeepsConsistent | webapplication.py:87-132 | every command keeps the duty cycles tied to the action and the wheels turning as the action says |
| Motor.RunKeepsConsistent | webapplication.py:87-132 | any sequence of commands keeps the controller consistent |
| Motor.Reachable | webapplication.py:58-132 | after any commands from start-up both duty cycles are equal: the current speed when driving straight, the turning speed when turning, 0 when stopped, and always within 0..100 |
| Motor.ApplyKeepsSafe | webapplication.py:66-112 | no command drives both pins of a channel high |
| Motor.RunKeepsSafe | webapplication.py:66-112 | safe direction pins stay safe under any sequence of commands |
| Motor.MovingIsSafe | webapplication.py:66-105 | while moving, the direction pins are safe whatever levels they had at boot |
| MotorLock.SetMotorsAsWritten | webapplication.py:66-85 | `_set_motors` taking the lock: it hangs when the lock is taken and otherwise writes the outputs and releases it |
| MotorLock.MoveAsWritten | webapplication.py:87-105 | `forward`, `backward`, `left` and `right`: `_set_motors` with the movement's wheels and speed, then the action, outside the lock |
| MotorLock.StopAsWritten | webapplication.py:107-112 | `stop` under the lock |
| MotorLock.SetSpeedAsWritten | webapplication.py:114-132 | `set_speed` under the lock, calling `_set_motors` while moving, which takes the lock again; `MotorLock.SetSpeedHangsIffMoving` states when it hangs |
| MotorLock.CallAsWritten | webapplication.py:87-132 | one request handled by the written code; `MotorLock.CallMatchesIntended` and `MotorLock.HeldBlocks` state it |
| MotorLock.RunAsWritten | webapplication.py:87-132 | requests one after another, each in its own thread; `MotorLock.StuckForever` and `MotorLock.WrittenRunAgrees` state it |
| MotorLock.CallMatchesIntended | webapplication.py:66-132 | with the lock free, `forward`, `backward`, `left`, `right`, `stop`, and `set_speed` while standing still, each return, release the lock and do exactly what the sequential model does |
| MotorLock.HeldBlocks | webapplication.py:66-132 | a request that finds the lock taken never returns and changes nothing |
| MotorLock.SetSpeedHangsIffMoving | webapplication.py:114-132 | with the lock free, `set_speed` as written hangs exactly when the controller is moving, having stored the clamped speed and keeping the lock; standing still it agrees with the intended `set_speed` |
| MotorLock.StuckForever | webapplication.py:61-132 | once a hung call leaves the lock taken, no later request returns and the controller never changes again |
| MotorLock.WrittenRunAgrees | webapplication.py:66-132 | from a free lock, every request of a sequence returns if and only if the intended run never changes the speed while moving, and then the written code ends in the state of the sequential model |
| MotorLock.SpeedChangeWhileDriving | webapplication.py:87-132 | after start-up, `forward` and `set_speed(50)`, then `stop`: as written neither of the last two returns and the rover keeps driving forward at duty 70; as intended it ends standing still with both duty cycles 0 |

## Left out

- The upstream HTTP connection (`requests.get`, `raise_for_status`, `iter_content`, lines 150-157) is left out because it is network I/O. It is replaced by a sequence of chunks and an `Ending`. The model admits chunks of any size, not only the 1024 bytes `iter_content` asks for.
- The exception's text (`{e}` at lines 185-188) is left out because its rendering comes from the library that raised it. It is an arbitrary byte string inside the fixed template.
- Logging (lines 40-44, 88-108, 185) is left out because it has no effect on the outputs.
- The GPIO and PWM library calls are reduced to their effect on the pin and duty image. This covers `GPIO.setmode`, `setup`, `PWM`, `start` and `ChangeDutyCycle`, together with the pin numbers and `PWM_FREQ` (lines 26-36, 51-59).
- `ChangeDutyCycle` raises for values outside 0..100, and that is not modelled. `Motor.Reachable` shows that the controller never asks for such a value.
- A failed pin write is not rolled back: the code has no error handling around the GPIO calls.
- `cleanup` (lines 134-141) is left out because it only releases hardware resources after a `stop`, and `stop` is modelled.
- Interleaving of concurrent requests is left out. `MotorLock` handles requests one after another, each in its own thread, which is enough for a call that never returns to block all later ones. Two calls running at the same moment, and the races on `current_action` written outside the lock at lines 90, 95, 100 and 105, are not modelled.
- The Flask routes, JSON handling, HTML page and signal handlers (lines 192-410) are left out because they are web and process glue. The route's own clamping of the speed is covered by `Motor.Clamp`. Line 194 is wrongly indented, which makes the file fail to parse as written, but this has no bearing on the logic modelled here.

## Findings

| source | as written | input that shows it | evidently intended | confidence | as-written member | corrected member |
|---|---|---|---|---|---|---|
| webapplication.py:116-132 | `set_speed` holds the non-reentrant `threading.Lock` (line 116) and, while moving, calls `_set_motors`, which acquires the same lock again (line 70) | start-up, `forward()`, then `set_speed(50)`: the call never returns, and every later motor command, `stop()` included, waits on the lock forever while the rover keeps driving at duty 70 | re-apply the new duty with the direction unchanged (the comment at line 118) | high (not executed) | MotorLock.SetSpeedAsWritten | Motor.SetSpeed |
