/**
 * The SDL front end's global state as one object: the audio ring buffer, the
 * autosave snapshot, the OSD, the frame counters and the key-state table,
 * with one method per function of the front end that updates them.
 */
module Session {
  import opened Basics
  import opened Messages
  import opened AudioFifo
  import opened Autosave
  import opened Input
  import opened Frames

  /** One attempt to write the save file: the path, the region written and whether `fopen` succeeded. */
  datatype SaveAttempt = SaveAttempt(path: string, image: seq<byte>, written: bool)

  class EmuSession {
    var showAudioDebug: bool
    var autoSaveEnabled: bool
    var frameDrawn: bool
    var audioSent: bool
    var frameCount: uint32
    var emuFPS: int
    var savFilePath: string
    var osdText: string
    var osdShowCount: int
    var lastTime: uint32
    var prevSaveChanged: bool
    var audioFifoHead: nat
    var audioFifoLen: nat
    var turboMode: bool
    var joy: nat

    /** `lastSaveBuf`: the debouncer's snapshot of the save region. */
    const lastSaveBuf: array<byte>
    /** The emulator's battery-backed save region (`libretro_save_buf`). */
    const saveRegion: array<byte>
    /** `audioFifo`: `AUDIO_FIFO_CAP` samples used as a ring. */
    const audioFifo: array<int16>
    /** `emuKeyState[button][source]`; source 0 is the keyboard, 1 the joystick. */
    const keyState: array2<bool>

    /** The queued samples, oldest first. */
    ghost var Contents: seq<int16>
    /** Every save-file write attempted so far. */
    ghost var SaveLog: seq<SaveAttempt>

    ghost predicate Valid()
      reads this, audioFifo
    {
      && audioFifo.Length == Cap
      && audioFifoHead < Cap
      && audioFifoLen < Cap
      && |Contents| == audioFifoLen
      && RingHolds(audioFifo[..], audioFifoHead, Contents)
      && keyState.Length0 == Buttons && keyState.Length1 == 2
      && lastSaveBuf.Length == saveRegion.Length
      && lastSaveBuf != saveRegion
    }

    ghost function Debouncer(): Debounce
      reads this, lastSaveBuf
    {
      Debounce(lastSaveBuf[..], prevSaveChanged)
    }

    function Osd(): Message
      reads this
    {
      Message(osdText, osdShowCount)
    }

    /** Column `source` of the key-state table. */
    ghost function Column(source: nat): (col: seq<bool>)
      requires keyState.Length0 == Buttons && keyState.Length1 == 2 && source < 2
      reads keyState
      ensures |col| == Buttons
    {
      seq(Buttons, i requires 0 <= i < Buttons reads keyState => keyState[i, source])
    }

    /**
     * The state at program start: the file-scope initialisers, with
     * `lastTime` read from the tick counter and every buffer zeroed.
     */
    constructor(startTicks: uint32, saveSize: nat)
      ensures Valid()
      ensures showAudioDebug && !autoSaveEnabled && !frameDrawn && !audioSent && !turboMode
      ensures frameCount == 0 && emuFPS == 0 && lastTime == startTicks && joy == 0
      ensures savFilePath == [] && Osd() == Message([], 0)
      ensures Contents == [] && audioFifoHead == 0 && SaveLog == []
      ensures Debouncer() == Debounce(seq(saveSize, _ => 0), false)
      ensures saveRegion[..] == seq(saveSize, _ => 0)
      ensures Column(0) == seq(Buttons, _ => false) && Column(1) == seq(Buttons, _ => false)
      ensures fresh(lastSaveBuf) && fresh(saveRegion) && fresh(audioFifo) && fresh(keyState)
    {
      showAudioDebug := true;
      autoSaveEnabled := false;
      frameDrawn := false;
      audioSent := false;
      frameCount := 0;
      emuFPS := 0;
      savFilePath := [];
      osdText := [];
      osdShowCount := 0;
      lastTime := startTicks;
      prevSaveChanged := false;
      audioFifoHead := 0;
      audioFifoLen := 0;
      turboMode := false;
      joy := 0;
      lastSaveBuf := new byte[saveSize](_ => 0);
      saveRegion := new byte[saveSize](_ => 0);
      audioFifo := new int16[Cap](_ => 0);
      keyState := new bool[Buttons, 2]((_, _) => false);
      Contents := [];
      SaveLog := [];
    }

    /**
     * `systemOnWriteDataToSoundBuffer`: the emulator hands over `length`
     * samples. The batch is dropped whole in turbo mode or when it would fill
     * the ring; otherwise its even-length prefix is appended at the tail.
     */
    method OnWriteDataToSoundBuffer(finalWave: seq<int16>, length: int)
      requires Valid() && length <= |finalWave|
      modifies this`audioSent, this`audioFifoLen, this`Contents, audioFifo
      ensures Valid() && audioSent
      ensures Contents == old(Contents) + Enqueued(old(audioFifoLen), finalWave, length, turboMode)
      ensures audioFifoLen == old(audioFifoLen) + |Enqueued(old(audioFifoLen), finalWave, length, turboMode)|
      ensures !Accepts(old(audioFifoLen), length, turboMode) ==> audioFifo[..] == old(audioFifo[..])
      ensures forall j :: audioFifoLen <= j < Cap ==>
        audioFifo[Slot(audioFifoHead, j)] == old(audioFifo[Slot(audioFifoHead, j)])
    {
      audioSent := true;
      if turboMode {
        return;
      }
      var wpos := Slot(audioFifoHead, audioFifoLen);
      if audioFifoLen + length >= Cap {
        return;
      }
      PushSamples(finalWave, PairedCount(length), wpos);
    }

    /** The copying loop of `systemOnWriteDataToSoundBuffer`: the first `n` samples go to the tail, in order. */
    method PushSamples(finalWave: seq<int16>, n: nat, tail: nat)
      requires Valid() && n <= |finalWave| && audioFifoLen + n < Cap
      requires tail == Slot(audioFifoHead, audioFifoLen)
      modifies this`audioFifoLen, this`Contents, audioFifo
      ensures Valid()
      ensures Contents == old(Contents) + finalWave[..n]
      ensures forall j :: audioFifoLen <= j < Cap ==>
        audioFifo[Slot(audioFifoHead, j)] == old(audioFifo[Slot(audioFifoHead, j)])
    {
      var wpos := tail;
      var i := 0;
      while i < n && audioFifoLen < Cap
        invariant 0 <= i <= n
        invariant audioFifoLen == old(audioFifoLen) + i
        invariant wpos == Slot(audioFifoHead, audioFifoLen)
        invariant Contents == old(Contents) + finalWave[..i]
        invariant RingHolds(audioFifo[..], audioFifoHead, Contents)
        invariant forall j :: audioFifoLen <= j < Cap ==>
          audioFifo[Slot(audioFifoHead, j)] == old(audioFifo[Slot(audioFifoHead, j)])
      {
        RingPush(audioFifo[..], audioFifoHead, Contents, finalWave[i]);
        forall j | audioFifoLen < j < Cap {
          SlotDistinct(audioFifoHead, audioFifoLen, j);
        }
        SlotNext(audioFifoHead, audioFifoLen);
        audioFifo[wpos] := finalWave[i];
        wpos := (wpos + 1) % Cap;
        audioFifoLen := audioFifoLen + 1;
        Contents := Contents + [finalWave[i]];
        assert finalWave[..i + 1] == finalWave[..i] + [finalWave[i]];
        i := i + 1;
      }
    }

    /**
     * `audioCallback`: the device asks for `len` bytes. The output is
     * silenced first; in turbo mode and on an underrun nothing more happens,
     * otherwise `len / 2` samples are taken from the head of the ring.
     */
    method AudioCallback(stream: array<int16>, len: nat)
      requires Valid() && stream.Length == len / 2 && stream != audioFifo
      modifies stream, this`audioFifoHead, this`audioFifoLen, this`Contents
      ensures Valid()
      ensures stream[..] == Output(old(Contents), len / 2, turboMode)
      ensures Contents == old(Contents)[Dequeued(old(audioFifoLen), len / 2, turboMode)..]
      ensures audioFifoHead == Slot(old(audioFifoHead), Dequeued(old(audioFifoLen), len / 2, turboMode))
    {
      forall i | 0 <= i < stream.Length {
        stream[i] := 0;
      }
      if turboMode {
        return;
      }
      var samples := len / 2;
      if audioFifoLen < samples {
        return;
      }
      PopInto(stream, samples);
    }

    /** The copying loop of `audioCallback`: the `samples` oldest queued samples move into `stream`. */
    method PopInto(stream: array<int16>, samples: nat)
      requires Valid() && stream.Length == samples && stream != audioFifo && samples <= audioFifoLen
      modifies stream, this`audioFifoHead, this`audioFifoLen, this`Contents
      ensures Valid()
      ensures stream[..] == old(Contents)[..samples]
      ensures Contents == old(Contents)[samples..]
      ensures audioFifoHead == Slot(old(audioFifoHead), samples)
    {
      var i := 0;
      while i < samples
        invariant 0 <= i <= samples
        invariant audioFifoLen == old(audioFifoLen) - i
        invariant audioFifoHead == Slot(old(audioFifoHead), i)
        invariant Contents == old(Contents)[i..]
        invariant stream[..i] == old(Contents)[..i]
        invariant RingHolds(audioFifo[..], audioFifoHead, Contents)
      {
        RingPop(audioFifo[..], audioFifoHead, Contents);
        SlotNext(old(audioFifoHead), i);
        var sample := audioFifo[audioFifoHead];
        audioFifoHead := (audioFifoHead + 1) % Cap;
        audioFifoLen := audioFifoLen - 1;
        Contents := Contents[1..];
        stream[i] := sample;
        assert stream[..i + 1] == stream[..i] + [sample];
        assert old(Contents)[..i + 1] == old(Contents)[..i] + [old(Contents)[i]];
        i := i + 1;
      }
    }


    /** `emuShowOsd`: the new message replaces the old one outright. */
    method ShowOsd(cnt: int, text: string)
      modifies this`osdText, this`osdShowCount
      ensures Osd() == Shown(cnt, text)
    {
      osdText := Truncated(text, OsdRoom);
      osdShowCount := cnt;
    }

    /**
     * `emuUpdateSaveFile`: without a save path nothing happens; otherwise the
     * whole region is written to it and the outcome is announced on the OSD.
     */
    method UpdateSaveFile(opens: bool) returns (r: int)
      modifies this`osdText, this`osdShowCount, this`SaveLog
      ensures r == ReturnCode(Outcome(savFilePath, opens))
      ensures Osd() == Announce(old(Osd()), Outcome(savFilePath, opens))
      ensures SaveLog == old(SaveLog) + SaveAttempts(savFilePath, saveRegion[..], opens)
    {
      if |savFilePath| == 0 {
        return 0;
      }
      SaveLog := SaveLog + [SaveAttempt(savFilePath, saveRegion[..], opens)];
      if !opens {
        ShowOsd(10, "Save failed!");
        return -1;
      }
      ShowOsd(3, "Auto saved.");
      osdShowCount := 3;
      return 0;
    }

    /**
     * `emuCheckSave`: one step of the debouncer against the live region,
     * writing the save file when it fires.
     */
    method CheckSave(opens: bool)
      requires Valid()
      modifies lastSaveBuf, this`prevSaveChanged, this`osdText, this`osdShowCount, this`SaveLog
      ensures Valid()
      ensures Debouncer() == Check(old(Debouncer()), saveRegion[..], autoSaveEnabled).next
      ensures Osd() == CheckedOsd(old(Osd()), old(Debouncer()), saveRegion[..], autoSaveEnabled, savFilePath, opens)
      ensures SaveLog == old(SaveLog) + CheckedAttempts(old(Debouncer()), saveRegion[..], autoSaveEnabled, savFilePath, opens)
    {
      if !autoSaveEnabled {
        return;
      }
      var changed := lastSaveBuf[..] != saveRegion[..];
      if changed {
        forall i | 0 <= i < lastSaveBuf.Length {
          lastSaveBuf[i] := saveRegion[i];
        }
      } else if prevSaveChanged {
        var _ := UpdateSaveFile(opens);
      }
      prevSaveChanged := changed;
    }

    /**
     * `systemDrawScreen`: the emulator finished a frame at tick `now`. The
     * frame counter advances; every 120th frame samples the FPS; every 60th
     * frame outside turbo mode checks the save region and decays the OSD;
     * the frame is then presented with its overlay, or skipped in turbo mode
     * unless it is a 20th.
     */
    method DrawScreen(now: uint32, saveFileOpens: bool) returns (shown: FrameShown)
      requires Valid()
      modifies this`frameDrawn, this`frameCount, this`emuFPS, this`lastTime
      modifies lastSaveBuf, this`prevSaveChanged, this`osdText, this`osdShowCount, this`SaveLog
      ensures Valid() && frameDrawn
      ensures frameCount == NextCount(old(frameCount))
      ensures FpsDue(frameCount) ==> emuFPS == SampledFps(now, old(lastTime)) && lastTime == now
      ensures !FpsDue(frameCount) ==> emuFPS == old(emuFPS) && lastTime == old(lastTime)
      ensures TickDue(frameCount) && !turboMode ==>
        && Debouncer() == Check(old(Debouncer()), saveRegion[..], autoSaveEnabled).next
        && Osd() == Decayed(CheckedOsd(old(Osd()), old(Debouncer()), saveRegion[..], autoSaveEnabled, savFilePath, saveFileOpens))
        && SaveLog == old(SaveLog) + CheckedAttempts(old(Debouncer()), saveRegion[..], autoSaveEnabled, savFilePath, saveFileOpens)
      ensures !(TickDue(frameCount) && !turboMode) ==>
        Debouncer() == old(Debouncer()) && Osd() == old(Osd()) && SaveLog == old(SaveLog)
      ensures shown == FrameOutput(frameCount, turboMode, Osd(), showAudioDebug, emuFPS, audioFifoLen)
    {
      CountFrame(now);
      if frameCount as int % TickPeriod == 0 {
        if !turboMode {
          AutosaveTick(saveFileOpens);
        }
      }
      if turboMode {
        if frameCount as int % TurboPeriod != 0 {
          return Skipped;
        }
      }
      shown := Present();
    }

    /** The counting part of `systemDrawScreen`: frame counter and FPS sample. */
    method CountFrame(now: uint32)
      modifies this`frameDrawn, this`frameCount, this`emuFPS, this`lastTime
      ensures frameDrawn
      ensures frameCount == NextCount(old(frameCount))
      ensures FpsDue(frameCount) ==> emuFPS == SampledFps(now, old(lastTime)) && lastTime == now
      ensures !FpsDue(frameCount) ==> emuFPS == old(emuFPS) && lastTime == old(lastTime)
    {
      frameDrawn := true;
      frameCount := NextCount(frameCount);
      if frameCount as int % FpsPeriod == 0 {
        var currentTime := now;
        var delta := TickDelta(currentTime, lastTime);
        if delta <= 0 {
          delta := 1;
        }
        emuFPS := FpsPeriod * 1000 / delta as int;
        lastTime := currentTime;
      }
    }

    /** The 60-frame tick of `systemDrawScreen` outside turbo mode: the autosave check, then one OSD decay. */
    method AutosaveTick(saveFileOpens: bool)
      requires Valid()
      modifies lastSaveBuf, this`prevSaveChanged, this`osdText, this`osdShowCount, this`SaveLog
      ensures Valid()
      ensures Debouncer() == Check(old(Debouncer()), saveRegion[..], autoSaveEnabled).next
      ensures Osd() == Decayed(CheckedOsd(old(Osd()), old(Debouncer()), saveRegion[..], autoSaveEnabled, savFilePath, saveFileOpens))
      ensures SaveLog == old(SaveLog) + CheckedAttempts(old(Debouncer()), saveRegion[..], autoSaveEnabled, savFilePath, saveFileOpens)
    {
      CheckSave(saveFileOpens);
      if osdShowCount > 0 {
        osdShowCount := osdShowCount - 1;
      }
    }

    /** The drawing part of `systemDrawScreen`: the overlay line over a presented frame. */
    method Present() returns (shown: FrameShown)
      ensures shown == Presented(SelectOverlay(Osd(), showAudioDebug, turboMode, emuFPS, audioFifoLen))
    {
      var overlay: Overlay;
      if osdShowCount > 0 {
        overlay := OsdOverlay(osdText);
      } else if showAudioDebug {
        overlay := FpsFifoOverlay(emuFPS, audioFifoLen);
      } else if turboMode {
        overlay := FpsOverlay(emuFPS);
      } else {
        overlay := NoOverlay;
      }
      shown := Presented(overlay);
    }

    /**
     * The save-related part of `emuLoadROM`: the region is cleared; if the
     * ROM does not open, -1 is returned; otherwise the save path is the ROM
     * path with `.4gs` appended (cut to the 512-byte buffer), the save file
     * is read into the region when it opens, and the debouncer is settled on
     * the loaded region.
     */
    method LoadRom(path: string, romOpens: bool, saveFile: Option<seq<byte>>) returns (r: int)
      requires Valid()
      modifies saveRegion, lastSaveBuf, this`savFilePath, this`prevSaveChanged
      ensures Valid()
      ensures r == (if romOpens then 0 else -1)
      ensures !romOpens ==> saveRegion[..] == LoadedRegion(None, saveRegion.Length)
      ensures !romOpens ==> savFilePath == old(savFilePath) && Debouncer() == old(Debouncer())
      ensures romOpens ==> savFilePath == Truncated(path + ".4gs", 511)
      ensures romOpens ==> saveRegion[..] == LoadedRegion(saveFile, saveRegion.Length)
      ensures romOpens ==> Debouncer() == Debounce(saveRegion[..], false)
    {
      forall i | 0 <= i < saveRegion.Length {
        saveRegion[i] := 0;
      }
      if !romOpens {
        return -1;
      }
      savFilePath := Truncated(path + ".4gs", 511);
      if saveFile.Some? {
        var file := saveFile.value;
        var n := if |file| < saveRegion.Length then |file| else saveRegion.Length;
        forall i | 0 <= i < n {
          saveRegion[i] := file[i];
        }
      }
      forall i | 0 <= i < lastSaveBuf.Length {
        lastSaveBuf[i] := saveRegion[i];
      }
      prevSaveChanged := false;
      return 0;
    }

    /** `emuHandleKey`: the first button mapped to `key` takes the key's level in the keyboard column. */
    method HandleKey(key: int, down: bool)
      requires Valid()
      modifies keyState
      ensures Valid()
      ensures forall b, source :: 0 <= b < Buttons && 0 <= source < 2 ==>
        keyState[b, source] == if source == 0 && FirstIndex(KeyboardMap, key) == Some(b) then down else old(keyState[b, source])
    {
      for i := 0 to Buttons
        invariant forall j :: 0 <= j < i ==> KeyboardMap[j] != key
      {
        if KeyboardMap[i] == key {
          keyState[i, 0] := down;
          return;
        }
      }
    }

    /**
     * The input step after each drawn frame: the joystick column is polled
     * when a joystick is open, then the `joy` mask and the turbo flag are
     * recomputed from both columns.
     */
    method PollInput(device: Option<DeviceSnapshot>)
      requires Valid()
      modifies keyState, this`joy, this`turboMode
      ensures Valid()
      ensures Column(0) == old(Column(0))
      ensures device.None? ==> Column(1) == old(Column(1))
      ensures device.Some? ==> Column(1) == PolledColumn(old(Column(1)), device.value)
      ensures joy == JoyMask(Column(0), Column(1))
      ensures turboMode <==> Column(0)[Turbo] || Column(1)[Turbo]
    {
      if device.Some? {
        PollJoystick(device.value);
      }
      LatchButtons();
    }

    /**
     * Joystick polling: every mapped button is read into the joystick
     * column, then each axis beyond the deadzone is OR-ed into its direction.
     */
    method PollJoystick(snap: DeviceSnapshot)
      requires Valid()
      modifies keyState
      ensures Valid()
      ensures Column(0) == old(Column(0))
      ensures Column(1) == PolledColumn(old(Column(1)), snap)
    {
      ReadButtons(snap.buttons);
      ApplyAxes(snap.xaxis, snap.yaxis);
    }

    /** The button half of joystick polling. */
    method ReadButtons(buttons: seq<bool>)
      requires Valid()
      modifies keyState
      ensures Valid()
      ensures Column(0) == old(Column(0))
      ensures Column(1) == ButtonColumn(old(Column(1)), buttons)
    {
      for i := 0 to Buttons
        invariant forall b :: 0 <= b < Buttons ==> keyState[b, 0] == old(keyState[b, 0])
        invariant forall b :: 0 <= b < Buttons ==>
          keyState[b, 1] == if b < i && JoystickMap[b] != -1 then ButtonLevel(buttons, JoystickMap[b]) else old(keyState[b, 1])
      {
        if JoystickMap[i] != -1 {
          keyState[i, 1] := ButtonLevel(buttons, JoystickMap[i]);
        }
      }
      assert forall b :: 0 <= b < Buttons ==> Column(1)[b] == ButtonColumn(old(Column(1)), buttons)[b];
      assert forall b :: 0 <= b < Buttons ==> Column(0)[b] == old(Column(0))[b];
    }

    /** The axis half of joystick polling. */
    method ApplyAxes(xaxis: int16, yaxis: int16)
      requires Valid()
      modifies keyState
      ensures Valid()
      ensures Column(0) == old(Column(0))
      ensures Column(1) == AxesApplied(old(Column(1)), xaxis, yaxis)
    {
      ghost var prev := Column(1);
      OrIntoJoystick(Right, xaxis as int > Deadzone);
      OrIntoJoystick(Left, (xaxis as int) < -Deadzone);
      OrIntoJoystick(Up, (yaxis as int) < -Deadzone);
      OrIntoJoystick(Down, yaxis as int > Deadzone);
      assert forall b :: 0 <= b < Buttons ==> Column(1)[b] == AxesApplied(prev, xaxis, yaxis)[b];
    }

    /** `emuKeyState[b][1] |= level`. */
    method OrIntoJoystick(b: nat, level: bool)
      requires Valid() && b < Buttons
      modifies keyState
      ensures Valid()
      ensures Column(0) == old(Column(0))
      ensures Column(1) == old(Column(1))[b := old(Column(1))[b] || level]
    {
      keyState[b, 1] := keyState[b, 1] || level;
      assert forall i :: 0 <= i < Buttons ==> Column(1)[i] == old(Column(1))[b := old(Column(1))[b] || level][i];
      assert forall i :: 0 <= i < Buttons ==> Column(0)[i] == old(Column(0))[i];
    }

    /** The `joy` mask of buttons 0..9 and the turbo flag, each OR-ing the two columns. */
    method LatchButtons()
      requires Valid()
      modifies this`joy, this`turboMode
      ensures joy == JoyMask(Column(0), Column(1))
      ensures turboMode <==> Column(0)[Turbo] || Column(1)[Turbo]
    {
      ghost var levels := Effective(Column(0), Column(1));
      joy := 0;
      for i := 0 to MaskedButtons
        invariant joy == MaskOf(levels, i)
      {
        assert levels[i] == (Column(0)[i] || Column(1)[i]) == (keyState[i, 0] || keyState[i, 1]);
        if keyState[i, 0] || keyState[i, 1] {
          joy := SetBit(joy, i);
        }
      }
      turboMode := keyState[Turbo, 0] || keyState[Turbo, 1];
    }
  }

  /** The write attempts one `emuUpdateSaveFile` makes: none without a save path. */
  function SaveAttempts(path: string, image: seq<byte>, opens: bool): (log: seq<SaveAttempt>)
    ensures |log| <= 1
    ensures log == [] <==> path == []
    ensures log != [] ==> log[0] == SaveAttempt(path, image, opens)
  {
    if path == [] then [] else [SaveAttempt(path, image, opens)]
  }

  /** The OSD after one `emuCheckSave`: announced only when the debouncer fires. */
  function CheckedOsd(m: Message, d: Debounce, live: seq<byte>, enabled: bool, path: string, opens: bool): Message
  {
    if Check(d, live, enabled).flush then Announce(m, Outcome(path, opens)) else m
  }

  /** The write attempts of one `emuCheckSave`. */
  function CheckedAttempts(d: Debounce, live: seq<byte>, enabled: bool, path: string, opens: bool): seq<SaveAttempt>
  {
    if Check(d, live, enabled).flush then SaveAttempts(path, live, opens) else []
  }

  /**
   * The OSD after a run of tick frames outside turbo mode, the `k`-th of
   * which sees the save region `lives[k]`: each frame checks the region and
   * then decays the countdown.
   */
  function RunOsd(m: Message, d: Debounce, lives: seq<seq<byte>>, enabled: bool, path: string, opens: bool): Message
    decreases |lives|
  {
    if lives == [] then m
    else
      RunOsd(Decayed(CheckedOsd(m, d, lives[0], enabled, path, opens)),
             Check(d, lives[0], enabled).next, lives[1..], enabled, path, opens)
  }

  /** The write attempts recorded over the same run of tick frames. */
  function RunAttempts(d: Debounce, lives: seq<seq<byte>>, enabled: bool, path: string, opens: bool): seq<SaveAttempt>
    decreases |lives|
  {
    if lives == [] then []
    else
      CheckedAttempts(d, lives[0], enabled, path, opens)
        + RunAttempts(Check(d, lives[0], enabled).next, lives[1..], enabled, path, opens)
  }

  /** Decaying first and then `k` more times is decaying `k + 1` times. */
  lemma {:induction false} DecayedFirst(m: Message, k: nat)
    ensures DecayedTimes(Decayed(m), k) == DecayedTimes(m, k + 1)
    decreases k
  {
    if k > 0 {
      DecayedFirst(m, k - 1);
    }
  }

  /** Ticks that keep seeing the snapshot save nothing and only decay the OSD. */
  lemma {:induction false} QuietRunOnlyDecays(m: Message, v: seq<byte>, k: nat, path: string, opens: bool)
    ensures RunOsd(m, Debounce(v, false), Steady(v, k), true, path, opens) == DecayedTimes(m, k)
    ensures RunAttempts(Debounce(v, false), Steady(v, k), true, path, opens) == []
    decreases k
  {
    if k > 0 {
      assert Steady(v, k)[1..] == Steady(v, k - 1);
      QuietRunOnlyDecays(Decayed(m), v, k - 1, path, opens);
      DecayedFirst(m, k - 1);
    }
  }

  /**
   * A save region that changes to `v` and then stays at `v` for `n` more
   * ticks is saved once, on the first tick after it stopped changing, and
   * that tick announces the outcome, which then decays with the remaining
   * ticks.
   */
  lemma SettlingRunSavesOnce(m: Message, d: Debounce, v: seq<byte>, n: nat, path: string, opens: bool)
    requires v != d.snapshot && n >= 1
    ensures RunAttempts(d, Steady(v, n + 1), true, path, opens) == SaveAttempts(path, v, opens)
    ensures RunOsd(m, d, Steady(v, n + 1), true, path, opens)
         == DecayedTimes(Announce(Decayed(m), Outcome(path, opens)), n)
  {
    var lives := Steady(v, n + 1);
    assert lives[1..] == Steady(v, n);
    assert lives[1..][1..] == Steady(v, n - 1);
    var announced := Announce(Decayed(m), Outcome(path, opens));
    QuietRunOnlyDecays(Decayed(announced), v, n - 1, path, opens);
    DecayedFirst(announced, n - 1);
  }

  /** A save region that differs on every tick is never saved and leaves the OSD to decay. */
  lemma {:induction false} ChangingRunSavesNothing(m: Message, d: Debounce, lives: seq<seq<byte>>, path: string, opens: bool)
    requires KeepsChanging(d.snapshot, lives)
    ensures RunAttempts(d, lives, true, path, opens) == []
    ensures RunOsd(m, d, lives, true, path, opens) == DecayedTimes(m, |lives|)
    decreases |lives|
  {
    if lives != [] {
      var c := Check(d, lives[0], true);
      KeepsChangingTail(d.snapshot, lives);
      ChangingRunSavesNothing(Decayed(m), c.next, lives[1..], path, opens);
      DecayedFirst(m, |lives| - 1);
    }
  }

  /** With autosave disabled no tick saves, whatever the region does. */
  lemma {:induction false} DisabledRunSavesNothing(m: Message, d: Debounce, lives: seq<seq<byte>>, path: string, opens: bool)
    ensures RunAttempts(d, lives, false, path, opens) == []
    ensures RunOsd(m, d, lives, false, path, opens) == DecayedTimes(m, |lives|)
    decreases |lives|
  {
    if lives != [] {
      DisabledRunSavesNothing(Decayed(m), d, lives[1..], path, opens);
      DecayedFirst(m, |lives| - 1);
    }
  }

  /**
   * The autosave notices as they are actually seen: set during a tick frame
   * that decays them before the frame ends, "Auto saved." is drawn on that
   * tick frame and the 119 frames after it, "Save failed!" on the tick frame
   * and the 539 frames after it, outside turbo mode, without wrap-around of
   * the counter and while no newer message replaces the notice.
   */
  lemma AutosaveNoticeVisibleFor(c: uint32, m: Message, n: nat)
    requires c as int % TickPeriod == 0 && c as int + n < Uint32Modulus
    ensures Visible(OsdAfter(c, Decayed(Announce(m, Written)), n, false)) <==> n < 2 * TickPeriod
    ensures Visible(OsdAfter(c, Decayed(Announce(m, OpenFailed)), n, false)) <==> n < 9 * TickPeriod
  {
    AnnouncedThenDecayed(m);
    OsdVisibleFor(c, Decayed(Announce(m, Written)), n);
    OsdVisibleFor(c, Decayed(Announce(m, OpenFailed)), n);
  }

  /** The ring cell holding the `i`-th queued sample when the head is at `head`. */
  function Slot(head: nat, i: nat): (r: nat)
    ensures r < Cap
  {
    (head + i) % Cap
  }

  /** `cells`, read as a ring from `head`, holds the queue `q`. */
  ghost predicate RingHolds(cells: seq<int16>, head: nat, q: seq<int16>)
  {
    && |cells| == Cap
    && forall i :: 0 <= i < |q| ==> q[i] == cells[Slot(head, i)]
  }

  /** The next cell after the `n`-th is the `n + 1`-th, wrapping at the end of the ring. */
  lemma SlotNext(head: nat, n: nat)
    ensures Slot(head, n + 1) == (Slot(head, n) + 1) % Cap
  {
  }

  lemma SlotDistinct(head: nat, i: nat, n: nat)
    requires head < Cap && i < n < Cap
    ensures Slot(head, i) != Slot(head, n)
  {
  }

  /** Writing at the tail and counting one more sample appends that sample to the queue. */
  lemma RingPush(cells: seq<int16>, head: nat, q: seq<int16>, x: int16)
    requires head < Cap && |q| + 1 < Cap && RingHolds(cells, head, q)
    ensures RingHolds(cells[Slot(head, |q|) := x], head, q + [x])
  {
    forall i | 0 <= i < |q|
      ensures q[i] == cells[Slot(head, |q|) := x][Slot(head, i)]
    {
      SlotDistinct(head, i, |q|);
    }
  }

  /** The head cell holds the oldest sample; advancing the head removes it from the queue. */
  lemma RingPop(cells: seq<int16>, head: nat, q: seq<int16>)
    requires head < Cap && |q| > 0 && RingHolds(cells, head, q)
    ensures q[0] == cells[head]
    ensures RingHolds(cells, (head + 1) % Cap, q[1..])
  {
    assert Slot(head, 0) == head;
    forall i | 0 <= i < |q| - 1
      ensures q[1..][i] == cells[Slot((head + 1) % Cap, i)]
    {
      assert Slot((head + 1) % Cap, i) == Slot(head, i + 1);
    }
  }
}
