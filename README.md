# SDL2 front end of the GBA emulator, modelled in Dafny

`port-sdl2/main.cpp` is the SDL2 glue around the GBA emulator core. It is
mostly foreign calls. Several pieces of sequential logic sit in between, all
updating the file's global variables:

- an audio FIFO. The emulator pushes samples into an 8192-cell ring and the
  SDL audio callback pops them.
- an autosave debouncer over a snapshot of the battery-backed save region.
- a one-line on-screen display (OSD) with a countdown.
- frame bookkeeping:
  - a frame counter that wraps at 2^32;
  - an FPS sample every 120 frames;
  - a 60-frame tick that drives autosave and the OSD countdown;
  - frame skipping in turbo mode;
  - the choice of overlay line.
- input aggregation:
  - a 12×2 key-state table with one keyboard column and one joystick column;
  - the 10-bit `joy` mask;
  - the turbo flag.

The model keeps that shape. `Session.EmuSession` is a class whose fields are
the globals:

- `audioFifo` (an `array<int16>`), `audioFifoHead` and `audioFifoLen`;
- `lastSaveBuf` and the save region (`array<byte>`);
- `keyState` (an `array2<bool>`, the source's `emuKeyState`);
- `frameCount` (a `uint32` newtype), `emuFPS`, `lastTime`, `osdText`,
  `osdShowCount`, `savFilePath`, `joy` and the flags.

Each function of the front end is a method of the class. The methods mutate
those fields in loops, as the C code does. Each method is proved against a
pure specification in one of these modules:

| module | what it specifies |
|---|---|
| `AudioFifo` | the queue of samples: what a push appends, what a pop removes and outputs, and a replay of any sequence of calls |
| `Autosave` | the debouncer as a two-state machine, the outcome of a save-file write, and the save region after a ROM load |
| `Messages` | the OSD message slot and its countdown |
| `Frames` | the counter, FPS, tick, turbo and overlay rules, and their behaviour over runs of frames |
| `Input` | the keyboard map lookup, one joystick polling, and the `joy` mask as bits |

The ghost field `Contents` is the logical queue of samples. `Valid()` ties it
to the ring cells and states `audioFifoLen < 8192`. The ghost field `SaveLog`
records every save-file write as an abstract event: the path, the image and
whether the file opened.

The model keeps these details of the code:

- The overflow test compares `audioFifoLen + length`, using the untruncated
  length, against the capacity with `>=` (`main.cpp:175`).
- An underrun hands out silence and consumes nothing (`main.cpp:199-200`).
- In turbo mode the callback outputs silence and consumes nothing.
- `emuCheckSave` does nothing while `autoSaveEnabled` is 0. No line of
  `main.cpp` sets it to anything else. `Autosave.DisabledIsInert` states
  what a disabled debouncer does. The model keeps the flag as a field, so
  the enabled behaviour is specified too.

## Model

| member | source | states |
|---|---|---|
| Basics.Truncated | port-sdl2/main.cpp:66 | what survives `vsnprintf` into a buffer: at most `room` characters, a prefix of the text, the whole text when it fits |
| Messages.Shown | port-sdl2/main.cpp:63-69 | the OSD after `emuShowOsd`: countdown `cnt`, text cut to 63 characters, nothing of the previous message kept |
| Messages.Decayed | port-sdl2/main.cpp:137-139 | one decay step lowers a positive countdown by one, leaves any other unchanged and never changes the text |
| Messages.CountdownRunsOut | port-sdl2/main.cpp:134-141 | after `k` decay steps the countdown is `cnt - k`, floored at 0; the message is visible exactly while `k < cnt` |
| AudioFifo.Silence | port-sdl2/main.cpp:193 | the zero-filled output: `n` samples, all zero |
| AudioFifo.PairedCount | port-sdl2/main.cpp:179-180 | the count a batch is cut to is even, at most the given length and less than two below it; a non-positive length writes nothing |
| AudioFifo.Accepts | port-sdl2/main.cpp:169-178 | a batch is refused in turbo mode and whenever `queued + length >= 8192`; an accepted batch of non-negative length, cut to pairs, leaves the queue below 8192 |
| AudioFifo.Enqueued | port-sdl2/main.cpp:167-190 | a push appends nothing in turbo mode or when `queued + length >= 8192`; otherwise it appends the first even-length prefix of the wave; a queue below capacity stays below it |
| AudioFifo.Dequeued | port-sdl2/main.cpp:192-210 | a pop takes exactly the requested samples or none; it takes them iff turbo is off and enough are queued (or none were requested) |
| AudioFifo.Output | port-sdl2/main.cpp:192-210 | the output is the oldest queued samples when the pop happens, otherwise all silence; it always has `len / 2` samples |
| AudioFifo.ReplayConserves | port-sdl2/main.cpp:167-210 | over any sequence of pushes and pops, initial queue plus accepted samples equals delivered samples plus final queue, in order; the queue never reaches 8192 |
| AudioFifo.DeliveredIsPrefixOfAccepted | port-sdl2/main.cpp:167-210 | from an empty FIFO, the samples handed to the device are a prefix of the accepted samples, with fewer than 8192 still queued |
| Autosave.Check | port-sdl2/main.cpp:89-103 | disabled: no change and no write; enabled: the snapshot becomes the live region, `prevChanged` records whether it differed, and a write happens iff the previous check saw a change and this one sees none |
| Autosave.DisabledIsInert | port-sdl2/main.cpp:90-92 | with autosave disabled, no run of checks ever writes or changes the debouncer |
| Autosave.QuietNeverFlushes | port-sdl2/main.cpp:93-102 | a settled debouncer that keeps seeing its snapshot never writes |
| Autosave.SettleSteady | port-sdl2/main.cpp:93-102 | a settled debouncer that keeps seeing its snapshot stays settled |
| Autosave.SettlingFlushesOnce | port-sdl2/main.cpp:93-102 | a region that changes and then stays put is written exactly once, on the second check, and the debouncer ends settled on it |
| Autosave.ChangingNeverFlushes | port-sdl2/main.cpp:93-102 | a region that differs on every check is never written |
| Autosave.Outcome | port-sdl2/main.cpp:71-86 | no save path means no write; a write happens iff there is a path and the file opens |
| Autosave.ReturnCode | port-sdl2/main.cpp:71-87 | `emuUpdateSaveFile` returns -1 iff opening failed, else 0 |
| Autosave.Announce | port-sdl2/main.cpp:76-86 | the OSD after a save attempt: unchanged without a path, "Save failed!" for 10 ticks, "Auto saved." for 3 |
| Autosave.AnnouncedThenDecayed | port-sdl2/main.cpp:134-139 | an autosave fires on a tick that also decays the OSD, so the confirmation is left with 2 ticks and the failure notice with 9 |
| Autosave.LoadedRegion | port-sdl2/main.cpp:214-247 | after a load the region holds the leading bytes of the save file and zeros beyond it; without a save file it is all zero |
| Input.FirstIndex | port-sdl2/main.cpp:253-260 | the search stops at the first mapped position of the key, and finds nothing iff no position maps it |
| Input.KeyboardLookupExact | port-sdl2/main.cpp:43-45 | the keyboard map has no repeated key: button `i` is found iff its key is pressed |
| Input.ButtonColumn | port-sdl2/main.cpp:349-355 | every mapped button takes the device level of its joystick button; an unmapped one keeps its level |
| Input.AxesApplied | port-sdl2/main.cpp:356-361 | each direction is OR-ed with its axis comparison against the deadzone; the other buttons are unchanged |
| Input.PolledColumn | port-sdl2/main.cpp:347-362 | after polling, right/left/up/down read as button OR `x > 10000`, `x < -10000`, `y < -10000`, `y > 10000`; other buttons read as their joystick button |
| Input.CenteredAxesAddNothing | port-sdl2/main.cpp:358-361 | axes inside the deadzone leave the column exactly as the buttons set it |
| Input.Effective | port-sdl2/main.cpp:365 | masked button `i` is asserted iff the keyboard or the device asserts it |
| Input.ZeroBits | port-sdl2/main.cpp:363 | the cleared mask has no bit set |
| Input.SetBitBits | port-sdl2/main.cpp:366 | OR-ing `1 << i` into `x` sets bit `i` and keeps every other bit of `x` |
| Input.MaskOfBits | port-sdl2/main.cpp:363-368 | the mask built over the first `n` levels has bit `i` set iff `i < n` and level `i` is asserted |
| Input.ButtonLevel | port-sdl2/main.cpp:353 | a button reads as pressed only when the device has it and reports it pressed |
| Input.SetBit | port-sdl2/main.cpp:366 | OR-ing `1 << i` into `joy` leaves a mask with bit `i` already set unchanged and otherwise grows it by at most `1 << i`; `Input.SetBitBits` gives the bit-level statement |
| Input.MaskOf | port-sdl2/main.cpp:363-368 | the mask built from the first `n` levels is below `2^n`: no bit at `n` or above is set |
| Input.JoyMask | port-sdl2/main.cpp:363-368 | `joy` is below `2^10`: only buttons 0..9 reach the emulator |
| Input.JoyMaskBits | port-sdl2/main.cpp:363-368 | `joy` bit `i` is set iff `i < 10` and keyboard or device asserts button `i`; bits 10 and above are clear |
| Frames.NextCount | port-sdl2/main.cpp:123 | the counter goes up by one, and from 2^32 - 1 back to 0 |
| Frames.Advance | port-sdl2/main.cpp:123 | without wrap-around, the counter `n` frames on is `c + n` |
| Frames.AdvanceStep | port-sdl2/main.cpp:123 | each further frame advances the counter by one `frameCount++` |
| Frames.TickDelta | port-sdl2/main.cpp:126 | the uint32 tick difference, taking a wrapped tick counter into account |
| Frames.SampledFps | port-sdl2/main.cpp:124-130 | the sampled FPS is 120000 divided by the tick delta (zero read as one), rounded down, so it is at most 120000 |
| Frames.SelectOverlay | port-sdl2/main.cpp:147-163 | overlay precedence: the OSD iff its countdown is positive, else the FPS+fifo line iff debug is on, else the FPS line iff turbo, else none |
| Frames.FrameOutput | port-sdl2/main.cpp:142-163 | a frame is skipped iff turbo is on and the count is not a multiple of 20; a presented frame carries the selected overlay |
| Frames.HitsCount | port-sdl2/main.cpp:124-143 | without wrap-around, an event due at multiples of `p` happens `(c + n) / p - c / p` times in `n` frames |
| Frames.PresentedFrames | port-sdl2/main.cpp:142-146 | outside turbo every frame is presented; in turbo exactly those whose count is a multiple of 20 |
| Frames.TurboPresentsOneIn20 | port-sdl2/main.cpp:142-146 | in turbo mode one frame in 20 is presented, and exactly `n / 20` of `n` frames from a multiple of 20 |
| Frames.OsdDecaysOnTicks | port-sdl2/main.cpp:134-141 | over a run of frames, the OSD decays once per 60-frame tick outside turbo and is frozen in turbo |
| Frames.OsdVisibleFor | port-sdl2/main.cpp:134-141 | if the OSD holds countdown `cnt` at the end of a tick frame, after that frame's decay, it is drawn on that tick frame and the `60 * cnt - 1` frames after it and on no later one, outside turbo: frame `n` after the tick shows it iff `n < 60 * cnt`; without wrap-around and while no newer message replaces it |
| Session.AutosaveNoticeVisibleFor | port-sdl2/main.cpp:84-85 | an autosave notice is set during a tick frame that decays it before the frame ends, so "Auto saved." is drawn on that tick frame and the 119 frames after it, and "Save failed!" on the tick frame and the 539 after it; outside turbo mode, without wrap-around and while no newer message replaces the notice |
| Frames.WrapShortensFpsWindow | port-sdl2/main.cpp:122-124 | 2^32 is not a multiple of 120: at the counter's wrap, the next FPS sample comes 16 frames after the previous one |
| Session.SaveAttempts | port-sdl2/main.cpp:72-81 | a save attempt is recorded iff the save path is non-empty, with the path, the image and whether it opened |
| Session.SettlingRunSavesOnce | port-sdl2/main.cpp:93-102 | over tick frames that see a region change to `v` and then stay at `v`, exactly one save attempt is recorded, of `v`, unless there is no save path; the OSD is announced on the second tick and then decays with the remaining ticks |
| Session.QuietRunOnlyDecays | port-sdl2/main.cpp:93-102 | ticks that keep seeing the settled snapshot record no save and only decay the OSD, once per tick |
| Session.ChangingRunSavesNothing | port-sdl2/main.cpp:93-102 | ticks that see a different region each time record no save, and the OSD only decays |
| Session.DisabledRunSavesNothing | port-sdl2/main.cpp:90-92 | with `autoSaveEnabled` 0 no tick records a save, and the OSD only decays |
| Session.SlotDistinct | port-sdl2/main.cpp:174-186 | distinct queue positions below the capacity occupy distinct ring cells |
| Session.SlotNext | port-sdl2/main.cpp:185 | stepping the write or read position by one modulo 8192 moves to the next queue position |
| Session.RingPush | port-sdl2/main.cpp:184-186 | writing at the tail cell and counting one more sample appends that sample to the queue the ring holds |
| Session.RingPop | port-sdl2/main.cpp:203-205 | the head cell holds the oldest sample, and advancing the head removes exactly it |
| Session.EmuSession.constructor | port-sdl2/main.cpp:16-47 | the initial globals: debug overlay on, autosave off, counters zero, empty FIFO, zeroed buffers and key table |
| Session.EmuSession.OnWriteDataToSoundBuffer | port-sdl2/main.cpp:167-190 | always sets `audioSent`; the queue becomes the old queue plus `Enqueued`; a rejected batch leaves every cell as it was; no cell beyond the new tail is touched; the ring invariant holds |
| Session.EmuSession.PushSamples | port-sdl2/main.cpp:179-187 | the loop appends the first `n` samples at positions `(head + len + i) % 8192` and writes no other cell |
| Session.EmuSession.AudioCallback | port-sdl2/main.cpp:192-210 | the output is `Output` of the old queue; the queue loses exactly `Dequeued` samples from its front; the head advances by as many modulo 8192 |
| Session.EmuSession.PopInto | port-sdl2/main.cpp:201-208 | the loop moves the oldest `samples` samples, in order, into the output and advances the head past them |
| Session.EmuSession.ShowOsd | port-sdl2/main.cpp:63-69 | the OSD becomes `Shown(cnt, text)`, whatever it was |
| Session.EmuSession.UpdateSaveFile | port-sdl2/main.cpp:71-87 | returns `ReturnCode`; announces the outcome on the OSD; logs one write of the live region iff the path is non-empty |
| Session.EmuSession.CheckSave | port-sdl2/main.cpp:89-103 | the snapshot and flag follow `Check`; the OSD and save log change only when `Check` fires |
| Session.EmuSession.DrawScreen | port-sdl2/main.cpp:121-165 | counter advanced with wrap; FPS and `lastTime` updated exactly on multiples of 120; autosave check then OSD decay exactly on multiples of 60 outside turbo, else both untouched; returns `FrameOutput` |
| Session.EmuSession.CountFrame | port-sdl2/main.cpp:122-133 | the counter advances; the FPS is sampled from the tick delta exactly when the new count is a multiple of 120 |
| Session.EmuSession.AutosaveTick | port-sdl2/main.cpp:134-141 | one debouncer check, then one OSD decay applied after any save announcement |
| Session.EmuSession.Present | port-sdl2/main.cpp:147-163 | the overlay drawn is `SelectOverlay` of the current OSD, debug flag, turbo flag, FPS and FIFO length |
| Session.EmuSession.LoadRom | port-sdl2/main.cpp:212-251 | the region is cleared; -1 iff the ROM does not open, leaving path and snapshot alone; else path `ROM + ".4gs"` (cut to 511), region `LoadedRegion`, snapshot equal to the region and no pending change |
| Session.EmuSession.HandleKey | port-sdl2/main.cpp:253-260 | only the keyboard cell of the first button mapped to the key takes the key's level; an unmapped key and the joystick column change nothing |
| Session.EmuSession.PollInput | port-sdl2/main.cpp:346-369 | the keyboard column is untouched; the joystick column becomes `PolledColumn` when a joystick is open; `joy` is `JoyMask` of both columns; turbo is keyboard or device button 10 |
| Session.EmuSession.PollJoystick | port-sdl2/main.cpp:347-362 | the joystick column becomes `PolledColumn` of its old value and the snapshot |
| Session.EmuSession.ReadButtons | port-sdl2/main.cpp:349-355 | the joystick column becomes `ButtonColumn` of its old value |
| Session.EmuSession.ApplyAxes | port-sdl2/main.cpp:356-361 | the joystick column becomes `AxesApplied` of its old value |
| Session.EmuSession.OrIntoJoystick | port-sdl2/main.cpp:358 | exactly one joystick cell is OR-ed with the given level |
| Session.EmuSession.LatchButtons | port-sdl2/main.cpp:363-369 | `joy` is the mask of the OR of both columns over buttons 0..9; turbo is the OR over button 10 |

## Left out

- Rendering (`emuUpdateFB`, `uiDrawBoxDim`, `uiDrawText`) and window, renderer and texture setup are left out. They are foreign SDL and UI calls. A frame's drawing is returned as a `FrameShown` value.
- The `snprintf` formatting of the FPS lines is left out. The overlay carries the FPS and FIFO length the line would print.
- File I/O is reduced to parameters, because the file system is outside the model:
  - `fopen` success is a flag;
  - the save file's bytes are an `Option`;
  - a write is a `SaveAttempt` event in the ghost log.
- An `fread` or `fwrite` cut short by an I/O error is not modelled. The source ignores that case too. A save file shorter than the region is modelled: the rest stays zero.
- ROM reading and emulator initialisation in `emuLoadROM` are left out. So are `printf` logging and `systemMessage`. They are calls into code that is not part of this model.
- `SDL_LockAudioDevice`/`SDL_UnlockAudioDevice` and the real-time callback thread are left out. Each push and pop is one atomic method, which assumes the lock works.
- The `emuRunAudio` and `emuRunFrame` busy loops are left out. Their termination depends on the emulator core. The `audioSent` and `frameDrawn` flags they wait on are kept.
- The SDL event pump, `isQuitting` and the `main` loop are not modelled as a loop. SDL, audio and joystick initialisation and the Switch applet code are left out too. Their per-frame steps are the methods `HandleKey` and `PollInput`, and `UpdateSaveFile` covers the save at exit.
- Session.EmuSession.AudioCallback: the output buffer is modelled as `len / 2` sample cells. The trailing byte `memset` zeroes when `len` is odd is not modelled.
- Session.EmuSession.OnWriteDataToSoundBuffer: the C `int` overflow of `audioFifoLen + length` for a length near `INT_MAX` is not modelled, because integers here are unbounded.
- Frames.HitsCount, Frames.TurboPresentsOneIn20, Frames.OsdVisibleFor and Session.AutosaveNoticeVisibleFor assume the counter does not wrap within the run. Near the wrap a tick comes 16 frames after the last multiple of 60, so a message shown then disappears sooner. `Frames.WrapShortensFpsWindow` states what happens at the wrap.
- Input.JoyMaskBits: `joy` is an unbounded natural number whose bits are defined by halving. It is not a `uint32`. Only bits 0..9 are ever set, so the value is the same.
- Session.EmuSession.HandleKey and Session.EmuSession.PollInput: key and button levels are booleans. The source stores `int`s (`down` in `emuHandleKey`, the values of `SDL_JoystickGetButton`), which are 0 or 1 in practice.
- Input.ButtonLevel: `SDL_JoystickGetButton` is a call into SDL. The model assumes a button number the device does not have reads as released.
- `UpdateJoypad()` (`main.cpp:370`) hands `joy` to the emulator core, which is not part of this model. The model stops at the value of `joy`.
- Basics.Truncated, Messages.Shown and Session.EmuSession.LoadRom: a model string stands for the C byte string, one `char` per byte. `vsnprintf` and `snprintf` cut at 63 and 511 bytes, so a text with multi-byte characters is cut where its bytes run out, not after 63 or 511 characters.
- `strlen(savFilePath) == 0` is modelled as an empty path. The model's strings contain no NUL.
