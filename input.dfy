/**
 * Input aggregation of the SDL front end: the key map of `emuHandleKey`, the
 * joystick snapshot polled at every frame boundary, the 10-bit `joy` mask
 * handed to the emulator and the turbo flag.
 */
module Input {
  import opened Basics

  /** Logical buttons: a, b, select, start, right, left, up, down, r, l, turbo, menu. */
  const Buttons: nat := 12
  /** Buttons 0..9 go to the emulator's `joy` mask; turbo and menu do not. */
  const MaskedButtons: nat := 10
  const Right: nat := 4
  const Left: nat := 5
  const Up: nat := 6
  const Down: nat := 7
  const Turbo: nat := 10

  /**
   * `emuKeyboardMap`: the SDL key codes of x, z, space, return, the four
   * arrow keys (right, left, up, down), s, a, tab and escape.
   */
  const KeyboardMap: seq<int> :=
    [120, 122, 32, 13, 0x4000_004F, 0x4000_0050, 0x4000_0052, 0x4000_0051, 115, 97, 9, 27]

  /** `emuJoystickMap`: the joystick button number of each logical button (-1: none). */
  const JoystickMap: seq<int> := [0, 1, 11, 10, 14, 12, 13, 15, 7, 6, 9, 5]

  /** `emuJoystickDeadzone`. */
  const Deadzone: int := 10000

  /** The first position of `key` in `m`, as the search loop of `emuHandleKey` finds it. */
  function FirstIndex(m: seq<int>, key: int): (r: Option<nat>)
    ensures r.Some? ==> r.value < |m| && m[r.value] == key
    ensures r.Some? ==> forall j :: 0 <= j < r.value ==> m[j] != key
    ensures r.None? ==> forall j :: 0 <= j < |m| ==> m[j] != key
    decreases |m|
  {
    if m == [] then None
    else if m[0] == key then Some(0)
    else match FirstIndex(m[1..], key)
      case None => None
      case Some(i) => Some(i + 1)
  }

  /**
   * The keyboard map has no repeated key, so the key handler updates button
   * `i` exactly for the key mapped to it.
   */
  lemma KeyboardLookupExact(key: int, i: nat)
    requires i < Buttons
    ensures FirstIndex(KeyboardMap, key) == Some(i) <==> KeyboardMap[i] == key
  {
    assert forall a, b :: 0 <= a < b < Buttons ==> KeyboardMap[a] != KeyboardMap[b];
  }

  /** One polling of the joystick: button levels by joystick button number and the two axes. */
  datatype DeviceSnapshot = DeviceSnapshot(buttons: seq<bool>, xaxis: int16, yaxis: int16)

  /** `SDL_JoystickGetButton`: a button the device does not have reads as released. */
  predicate ButtonLevel(buttons: seq<bool>, b: int)
    ensures ButtonLevel(buttons, b) ==> 0 <= b < |buttons|
    ensures 0 <= b < |buttons| ==> (ButtonLevel(buttons, b) <==> buttons[b])
  {
    0 <= b < |buttons| && buttons[b]
  }

  /** What the analog axes add to logical button `i`, outside the deadzone. */
  function AxisLevel(i: nat, x: int16, y: int16): bool
  {
    || (i == Right && x as int > Deadzone)
    || (i == Left && (x as int) < -Deadzone)
    || (i == Up && (y as int) < -Deadzone)
    || (i == Down && y as int > Deadzone)
  }

  /** The device column after reading every mapped button; an unmapped one keeps its level. */
  function ButtonColumn(prev: seq<bool>, buttons: seq<bool>): (col: seq<bool>)
    requires |prev| == Buttons
    ensures |col| == Buttons
    ensures forall i :: 0 <= i < Buttons ==>
      col[i] == if JoystickMap[i] == -1 then prev[i] else ButtonLevel(buttons, JoystickMap[i])
  {
    seq(Buttons, i requires 0 <= i < Buttons =>
      if JoystickMap[i] == -1 then prev[i] else ButtonLevel(buttons, JoystickMap[i]))
  }

  /** The device column after OR-ing the axes into the four directions. */
  function AxesApplied(col: seq<bool>, x: int16, y: int16): (r: seq<bool>)
    requires |col| == Buttons
    ensures |r| == Buttons
    ensures forall i :: 0 <= i < Buttons ==> (r[i] <==> col[i] || AxisLevel(i, x, y))
  {
    seq(Buttons, i requires 0 <= i < Buttons => col[i] || AxisLevel(i, x, y))
  }

  /** The device column of the key-state table after one polling. */
  function PolledColumn(prev: seq<bool>, snap: DeviceSnapshot): (col: seq<bool>)
    requires |prev| == Buttons
    ensures |col| == Buttons
    ensures forall i :: 0 <= i < Buttons && !(Right <= i <= Down) ==>
      (col[i] <==> ButtonLevel(snap.buttons, JoystickMap[i]))
    ensures col[Right] <==> ButtonLevel(snap.buttons, JoystickMap[Right]) || snap.xaxis as int > Deadzone
    ensures col[Left] <==> ButtonLevel(snap.buttons, JoystickMap[Left]) || (snap.xaxis as int) < -Deadzone
    ensures col[Up] <==> ButtonLevel(snap.buttons, JoystickMap[Up]) || (snap.yaxis as int) < -Deadzone
    ensures col[Down] <==> ButtonLevel(snap.buttons, JoystickMap[Down]) || snap.yaxis as int > Deadzone
  {
    AxesApplied(ButtonColumn(prev, snap.buttons), snap.xaxis, snap.yaxis)
  }

  /** An axis inside the deadzone asserts nothing: the column is the buttons alone. */
  lemma CenteredAxesAddNothing(prev: seq<bool>, snap: DeviceSnapshot, i: nat)
    requires |prev| == Buttons && i < Buttons
    requires -Deadzone <= snap.xaxis as int <= Deadzone && -Deadzone <= snap.yaxis as int <= Deadzone
    ensures PolledColumn(prev, snap)[i] == ButtonLevel(snap.buttons, JoystickMap[i])
  {
  }

  /** `1 << i`. */
  function Pow2(i: nat): (p: nat)
    ensures p >= 1
  {
    if i == 0 then 1 else 2 * Pow2(i - 1)
  }

  /** Bit `i` of a mask: `(x >> i) & 1`. */
  predicate Bit(x: nat, i: nat)
  {
    if i == 0 then x % 2 == 1 else Bit(x / 2, i - 1)
  }

  /** `x | (1 << i)`: unchanged when bit `i` is already set, otherwise larger by `1 << i`. */
  function SetBit(x: nat, i: nat): (r: nat)
    ensures Bit(x, i) ==> r == x
    ensures x <= r <= x + Pow2(i)
  {
    if Bit(x, i) then x else x + Pow2(i)
  }

  lemma {:induction false} ZeroBits(j: nat)
    ensures !Bit(0, j)
  {
    if j > 0 {
      ZeroBits(j - 1);
    }
  }

  /** Setting bit `i` sets that bit and leaves every other bit as it was. */
  lemma {:induction false} SetBitBits(x: nat, i: nat, j: nat)
    ensures Bit(SetBit(x, i), j) <==> Bit(x, j) || j == i
    decreases i
  {
    if !Bit(x, i) && j > 0 {
      if i == 0 {
        assert (x + 1) / 2 == x / 2;
      } else {
        assert (x + Pow2(i)) / 2 == x / 2 + Pow2(i - 1);
        SetBitBits(x / 2, i - 1, j - 1);
      }
    }
  }

  /** The mask with bit `i` set for each asserted `levels[i]`, `i < n`, built in ascending order. */
  function MaskOf(levels: seq<bool>, n: nat): (mask: nat)
    requires n <= |levels|
    ensures mask < Pow2(n)
  {
    if n == 0 then 0
    else if levels[n - 1] then SetBit(MaskOf(levels, n - 1), n - 1)
    else MaskOf(levels, n - 1)
  }

  /** Bit `i` of the mask is set exactly for the asserted levels below `n`; every higher bit is clear. */
  lemma {:induction false} MaskOfBits(levels: seq<bool>, n: nat, i: nat)
    requires n <= |levels|
    ensures Bit(MaskOf(levels, n), i) <==> i < n && levels[i]
  {
    if n == 0 {
      ZeroBits(i);
    } else {
      MaskOfBits(levels, n - 1, i);
      if levels[n - 1] {
        SetBitBits(MaskOf(levels, n - 1), n - 1, i);
      }
    }
  }

  /** The effective level of the masked buttons: keyboard OR device. */
  function Effective(keyboard: seq<bool>, device: seq<bool>): (e: seq<bool>)
    requires |keyboard| == Buttons && |device| == Buttons
    ensures |e| == MaskedButtons
    ensures forall i :: 0 <= i < MaskedButtons ==> (e[i] <==> keyboard[i] || device[i])
  {
    seq(MaskedButtons, i requires 0 <= i < MaskedButtons => keyboard[i] || device[i])
  }

  /** The `joy` mask handed to the emulator. */
  function JoyMask(keyboard: seq<bool>, device: seq<bool>): (joy: nat)
    requires |keyboard| == Buttons && |device| == Buttons
    ensures joy < Pow2(MaskedButtons)
  {
    MaskOf(Effective(keyboard, device), MaskedButtons)
  }

  /** The `joy` mask: bit `i` below 10 is set iff button `i` is asserted by either source. */
  lemma JoyMaskBits(keyboard: seq<bool>, device: seq<bool>, i: nat)
    requires |keyboard| == Buttons && |device| == Buttons
    ensures Bit(JoyMask(keyboard, device), i) <==> i < MaskedButtons && (keyboard[i] || device[i])
  {
    MaskOfBits(Effective(keyboard, device), MaskedButtons, i);
  }
}
