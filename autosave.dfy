/**
 * The autosave debouncer of `emuCheckSave`: a two-state hysteresis over a
 * snapshot of the emulator's save region, and the outcome of the save-file
 * write that `emuUpdateSaveFile` performs when it fires.
 */
module Autosave {
  import opened Basics
  import opened Messages

  /** `lastSaveBuf` and `prevSaveChanged`. */
  datatype Debounce = Debounce(snapshot: seq<byte>, prevChanged: bool)

  /** The state after one check and whether that check writes the save file. */
  datatype Checked = Checked(next: Debounce, flush: bool)

  /**
   * One check against the live save region. A region that differs from the
   * snapshot is copied into it without writing; the first identical check
   * after a differing one writes; a disabled debouncer does nothing at all.
   */
  function Check(d: Debounce, live: seq<byte>, enabled: bool): (r: Checked)
    ensures !enabled ==> r == Checked(d, false)
    ensures enabled ==> r.next.snapshot == live
    ensures r.flush <==> enabled && d.prevChanged && live == d.snapshot
    ensures enabled ==> (r.next.prevChanged <==> live != d.snapshot)
  {
    if !enabled then Checked(d, false)
    else if live != d.snapshot then Checked(Debounce(live, true), false)
    else Checked(Debounce(d.snapshot, false), d.prevChanged)
  }

  /** The state after a sequence of checks. */
  function Settle(d: Debounce, lives: seq<seq<byte>>, enabled: bool): Debounce
    decreases |lives|
  {
    if lives == [] then d else Settle(Check(d, lives[0], enabled).next, lives[1..], enabled)
  }

  /** Which of a sequence of checks write the save file. */
  function Flushes(d: Debounce, lives: seq<seq<byte>>, enabled: bool): (flags: seq<bool>)
    ensures |flags| == |lives|
    decreases |lives|
  {
    if lives == [] then []
    else
      var c := Check(d, lives[0], enabled);
      [c.flush] + Flushes(c.next, lives[1..], enabled)
  }

  /** `n` checks that all see the same region `v`. */
  function Steady(v: seq<byte>, n: nat): (lives: seq<seq<byte>>)
    ensures |lives| == n && forall k :: 0 <= k < n ==> lives[k] == v
  {
    seq(n, _ => v)
  }

  /** A disabled debouncer never writes and never changes its state. */
  lemma {:induction false} DisabledIsInert(d: Debounce, lives: seq<seq<byte>>)
    ensures forall k :: 0 <= k < |lives| ==> !Flushes(d, lives, false)[k]
    ensures Settle(d, lives, false) == d
    decreases |lives|
  {
    if lives != [] {
      DisabledIsInert(d, lives[1..]);
    }
  }

  /** Once settled on `v`, further checks that keep seeing `v` never write. */
  lemma {:induction false} QuietNeverFlushes(v: seq<byte>, n: nat)
    ensures Flushes(Debounce(v, false), Steady(v, n), true) == seq(n, _ => false)
    decreases n
  {
    if n > 0 {
      assert Steady(v, n)[1..] == Steady(v, n - 1);
      QuietNeverFlushes(v, n - 1);
    }
  }

  /**
   * A region that changes to `v` and then stays at `v` for `n` more checks
   * is written exactly once, on the first check after it stopped changing,
   * and the snapshot then equals the region.
   */
  lemma SettlingFlushesOnce(d: Debounce, v: seq<byte>, n: nat)
    requires v != d.snapshot && n >= 1
    ensures Flushes(d, Steady(v, n + 1), true) == [false, true] + seq(n - 1, _ => false)
    ensures Settle(d, Steady(v, n + 1), true) == Debounce(v, false)
  {
    var lives := Steady(v, n + 1);
    assert lives[1..] == Steady(v, n);
    assert lives[1..][1..] == Steady(v, n - 1);
    QuietNeverFlushes(v, n - 1);
    SettleSteady(v, n - 1);
  }

  /** Checks that keep seeing the snapshot leave a quiet debouncer as it is. */
  lemma {:induction false} SettleSteady(v: seq<byte>, n: nat)
    ensures Settle(Debounce(v, false), Steady(v, n), true) == Debounce(v, false)
    decreases n
  {
    if n > 0 {
      assert Steady(v, n)[1..] == Steady(v, n - 1);
      SettleSteady(v, n - 1);
    }
  }

  /** Every observed region differs from the one seen just before it. */
  predicate KeepsChanging(first: seq<byte>, lives: seq<seq<byte>>)
  {
    && (|lives| > 0 ==> lives[0] != first)
    && forall k :: 0 < k < |lives| ==> lives[k] != lives[k - 1]
  }

  /** After the first check, the rest of a changing run keeps changing from what that check saw. */
  lemma KeepsChangingTail(first: seq<byte>, lives: seq<seq<byte>>)
    requires KeepsChanging(first, lives) && lives != []
    ensures KeepsChanging(lives[0], lives[1..])
  {
    forall k | 0 < k < |lives[1..]|
      ensures lives[1..][k] != lives[1..][k - 1]
    {
      assert lives[1..][k] == lives[k + 1] && lives[1..][k - 1] == lives[k];
    }
  }

  /** A region that differs on every check is never written. */
  lemma {:induction false} ChangingNeverFlushes(d: Debounce, lives: seq<seq<byte>>)
    requires KeepsChanging(d.snapshot, lives)
    ensures forall k :: 0 <= k < |lives| ==> !Flushes(d, lives, true)[k]
    decreases |lives|
  {
    if lives != [] {
      var c := Check(d, lives[0], true);
      KeepsChangingTail(d.snapshot, lives);
      ChangingNeverFlushes(c.next, lives[1..]);
    }
  }

  /** Where the region is written (`emuUpdateSaveFile`). */
  datatype SaveOutcome =
    | NoSavePath   // no ROM loaded: nothing is written, 0 is returned
    | OpenFailed   // `fopen` failed: "Save failed!" for 10 ticks, -1 returned
    | Written      // the region was written: "Auto saved." for 3 ticks, 0 returned

  function Outcome(savePath: string, opens: bool): (o: SaveOutcome)
    ensures o == NoSavePath <==> savePath == []
    ensures o == Written <==> savePath != [] && opens
  {
    if savePath == [] then NoSavePath else if !opens then OpenFailed else Written
  }

  /** The value `emuUpdateSaveFile` returns. */
  function ReturnCode(o: SaveOutcome): (r: int)
    ensures r == -1 <==> o == OpenFailed
    ensures r == 0 || r == -1
  {
    if o == OpenFailed then -1 else 0
  }

  /** The OSD message after a save attempt. */
  function Announce(m: Message, o: SaveOutcome): (r: Message)
    ensures o == NoSavePath ==> r == m
    ensures o == OpenFailed ==> r == Shown(10, "Save failed!")
    ensures o == Written ==> r == Shown(3, "Auto saved.")
  {
    match o
    case NoSavePath => m
    case OpenFailed => Shown(10, "Save failed!")
    case Written => Shown(3, "Auto saved.")
  }

  /**
   * An autosave fires on a 60-frame tick, which decays the countdown in the
   * same frame: the confirmation stays up for two more ticks, the failure
   * notice for nine.
   */
  lemma AnnouncedThenDecayed(m: Message)
    ensures Decayed(Announce(m, Written)) == Message("Auto saved.", 2)
    ensures Decayed(Announce(m, OpenFailed)) == Message("Save failed!", 9)
  {
  }

  /**
   * The save region after `emuLoadROM`: zeroed, then overwritten by the
   * leading bytes of the save file when one opens (a short file leaves the
   * rest zero, a long one is cut to the region).
   */
  function LoadedRegion(file: Option<seq<byte>>, size: nat): (r: seq<byte>)
    ensures |r| == size
    ensures file.None? ==> forall i :: 0 <= i < size ==> r[i] == 0
    ensures file.Some? ==> forall i :: 0 <= i < size ==>
      r[i] == if i < |file.value| then file.value[i] else 0
  {
    seq(size, i requires 0 <= i < size =>
      if file.Some? && i < |file.value| then file.value[i] else 0)
  }
}
