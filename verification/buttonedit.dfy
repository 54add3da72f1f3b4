/**
 * The editor of one button action. The firmware stores a button's action as a
 * 32-bit word: bits 0-3 hold the button's own index, bits 4-7 the mode
 * (Event), bytes 1-3 the mode's arguments. The editor splits a word into the
 * values of its per-mode widgets, packs those widgets back into a word, and
 * moves the arguments over when the user picks another mode.
 *
 * Words are unsigned 32-bit integers. The C++ masks and shifts are written as
 * division and remainder by powers of two, which is exact on these
 * non-negative operands; the one OR of two overlapping fields (the mode and
 * the button index share the low byte) is written out bit by bit.
 */
module ButtonEditor {
  import opened Wrappers
  import opened Layout

  /** An unsigned 32-bit word. */
  type Word = w: int | 0 <= w < 0x1_0000_0000

  /** The button index: 0..15 once a word was loaded, -1 before any. */
  type ButtonIndex = i: int | -1 <= i < 16

  /**
   * The values the editor's widgets hold. A widget not used by the current
   * mode keeps whatever it held before. custom is the number written in the
   * free-form hex field; a combo box whose value was not found shows nothing
   * and reads as 0.
   */
  datatype Editor = Editor(
    buttonIndex: ButtonIndex,
    mode: Byte,           // the item selected in the mode combo
    modifiers: Byte,      // Key: the eight modifier check boxes
    scan0: Byte,          // Key, Sequence: first scan code
    scan1: Byte,          // Key: second scan code
    mouseButton: Byte,    // Button: 0xF0..0xF4, or 0 when nothing is selected
    count: Byte,          // Sequence: repeat count, 2..255
    delay: Byte,          // Sequence: delay in milliseconds
    profileChange: Byte,  // Profile: a ProfileChange code, or 0
    macroIndex: Byte,     // Macro: 1..8
    repeatMode: Byte,     // Macro: a MacroRepeatMode, or 0
    custom: Word)         // Custom: the hex field

  /** The editor as constructed: first item of every combo, lowest value of every spin box. */
  const Initial: Editor := Editor(-1, EventKey, 0, 0, 0, MouseLeftButton, 2, 0, NextProfile, 1, MacroRepeatCount, 0)

  /** The items of the mode combo. */
  predicate IsMode(m: int)
  {
    m == EventKey || m == EventButton || m == EventProfile || m == EventMacro
    || m == EventSequence || m == EventTripleClick || m == EventDisabled || m == EventCustom
  }

  predicate IsMouseCode(b: int)
  {
    MouseLeftButton <= b <= MouseForwardButton
  }

  predicate IsProfileCode(b: int)
  {
    b == NextProfile || b == PreviousProfile || b == CycleProfile || LockToProfile + 1 <= b <= LockToProfile + MaxDpi
  }

  predicate IsRepeatMode(b: int)
  {
    b == MacroRepeatCount || b == MacroRepeatUntilNextKey || b == MacroRepeatWhileHold
  }

  /** What each widget can hold. */
  predicate WellFormed(e: Editor)
  {
    && IsMode(e.mode)
    && (e.mouseButton == 0 || IsMouseCode(e.mouseButton))
    && 2 <= e.count
    && (e.profileChange == 0 || IsProfileCode(e.profileChange))
    && 1 <= e.macroIndex <= MaxMacroNum
    && (e.repeatMode == 0 || IsRepeatMode(e.repeatMode))
  }

  // The fields of an action word
  function ModeOf(v: Word): Byte { ModeNibble(v % 0x100) }
  function IndexOf(v: Word): ButtonIndex { v % 0x10 }
  function Arg1(v: Word): Byte { v / 0x100 % 0x100 }
  function Arg2(v: Word): Byte { v / 0x100 / 0x100 % 0x100 }
  function Arg3(v: Word): Byte { v / 0x100 / 0x100 / 0x100 }

  /** `v & 0xFFFFFFF0`: the word without its button index, as the hex field shows it. */
  function HexOf(v: Word): Word { v - v % 0x10 }

  /** The mode that the last two digits of the hex field name. */
  function HexMode(e: Editor): Byte { ModeNibble(e.custom % 0x100) }

  /** The bit of `a` worth 2^k, for k < 4. */
  function Bit(a: int, k: nat): int
    requires k < 4
  {
    if k == 0 then a % 2 else if k == 1 then a / 2 % 2 else if k == 2 then a / 2 / 2 % 2 else a / 2 / 2 / 2 % 2
  }

  /** A nibble is the sum of its bits. */
  lemma NibbleBits(b: int)
    requires 0 <= b < 0x10
    ensures b == Bit(b, 0) + 2 * Bit(b, 1) + 4 * Bit(b, 2) + 8 * Bit(b, 3)
  {
    var h := b / 2;
    var q := h / 2;
    assert b == b % 2 + 2 * h && h == h % 2 + 2 * q && q == q % 2 + 2 * (q / 2);
  }

  /** Bitwise OR of two nibbles. */
  function NibbleOr(a: int, b: int): (r: int)
    requires 0 <= a < 0x10 && 0 <= b < 0x10
    ensures 0 <= r < 0x10
    ensures a == 0 ==> r == b
    ensures b == 0 ==> r == a
  {
    NibbleBits(a);
    NibbleBits(b);
    (if Bit(a, 0) == 1 || Bit(b, 0) == 1 then 1 else 0)
    + (if Bit(a, 1) == 1 || Bit(b, 1) == 1 then 2 else 0)
    + (if Bit(a, 2) == 1 || Bit(b, 2) == 1 then 4 else 0)
    + (if Bit(a, 3) == 1 || Bit(b, 3) == 1 then 8 else 0)
  }

  /** `w | buttonIndex` in unsigned arithmetic: -1 sets every bit, an index is OR-ed into the low nibble. */
  function OrIndex(w: Word, bi: ButtonIndex): (r: Word)
    ensures bi == -1 ==> r == 0xFFFF_FFFF
    ensures bi >= 0 ==> r / 0x10 == w / 0x10 && r % 0x10 == NibbleOr(w % 0x10, bi)
  {
    if bi < 0 then 0xFFFF_FFFF
    else
      ShiftNibble(w / 0x10, NibbleOr(w % 0x10, bi));
      NibbleFloor(w);
      w / 0x10 * 0x10 + NibbleOr(w % 0x10, bi)
  }

  /** A word with its low nibble cleared leaves room for any nibble. */
  lemma NibbleFloor(w: Word)
    ensures 0 <= w / 0x10 * 0x10 <= 0xFFFF_FFF0
  {
  }

  /**
   * An action word from its arguments, mode and button index: the arguments
   * keep their bytes and the index is OR-ed into the mode's low nibble; an
   * index of -1 sets every bit.
   */
  function Pack(a3: Byte, a2: Byte, a1: Byte, mode: Byte, bi: ButtonIndex): (r: Word)
    ensures bi == -1 ==> r == 0xFFFF_FFFF
    ensures bi >= 0 ==> Arg1(r) == a1 && Arg2(r) == a2 && Arg3(r) == a3 && IndexOf(r) == NibbleOr(mode % 0x10, bi)
  {
    var base := Horner(a3, a2, a1, mode);
    HornerBytes(a3, a2, a1, mode);
    LowNibble(base);
    var r := OrIndex(base, bi);
    if bi >= 0 then
      assert r / 0x100 == r / 0x10 / 0x10 == base / 0x10 / 0x10 == base / 0x100;
      r
    else r
  }

  /** `(a3 << 24) | (a2 << 16) | (a1 << 8) | low`: four bytes, most significant first. */
  function Horner(a3: Byte, a2: Byte, a1: Byte, low: Byte): Word
  {
    ((a3 * 0x100 + a2) * 0x100 + a1) * 0x100 + low
  }

  /** A combo box's findData then currentData: the value when it is one of the items, else 0. */
  function Select(x: Byte, found: bool): Byte
  {
    if found then x else 0
  }

  /**
   * setValue: the button index and the hex field always take the word; the
   * widgets of the word's mode take its arguments; a mode that is not one of
   * the firmware's selects Custom.
   */
  function Decode(e: Editor, v: Word): (d: Editor)
    ensures d.buttonIndex == IndexOf(v) && d.custom == HexOf(v)
    ensures d.mode == if IsMode(ModeOf(v)) then ModeOf(v) else EventCustom
    ensures WellFormed(e) ==> WellFormed(d)
  {
    Load(e, ModeOf(v), Arg1(v), Arg2(v), Arg3(v), IndexOf(v), HexOf(v))
  }

  /**
   * The body of setValue over the fields of the word: the index and the hex
   * field always change, the mode combo selects the mode or Custom, and the
   * widgets can still hold what they show.
   */
  function Load(e: Editor, mode: Byte, a1: Byte, a2: Byte, a3: Byte, bi: ButtonIndex, hex: Word): (d: Editor)
    ensures d.buttonIndex == bi && d.custom == hex
    ensures d.mode == if IsMode(mode) then mode else EventCustom
    ensures WellFormed(e) ==> WellFormed(d)
    ensures d.mode != EventKey && d.mode != EventSequence ==> d.scan0 == e.scan0
  {
    var e1 := e.(buttonIndex := bi, custom := hex);
    if mode == EventButton then
      e1.(mode := mode, mouseButton := Select(a1, IsMouseCode(a1)))
    else if mode == EventSequence then
      e1.(mode := mode, scan0 := a1, count := Clamp(a3, 2, 0xFF), delay := a2)
    else if mode == EventTripleClick then
      e1.(mode := mode)
    else if mode == EventKey then
      e1.(mode := mode, modifiers := a1, scan0 := a2, scan1 := a3)
    else if mode == EventProfile then
      e1.(mode := mode, profileChange := Select(a1, IsProfileCode(a1)))
    else if mode == EventMacro then
      e1.(mode := mode, macroIndex := Clamp(a1 / 0x10, 1, MaxMacroNum),
          repeatMode := Select(a1 % 0x10, IsRepeatMode(a1 % 0x10)))
    else if mode == EventDisabled then
      e1.(mode := mode)
    else
      e1.(mode := EventCustom)
  }

  /** The macro argument: macro number in the high nibble, repeat mode in the low one. */
  function MacroArg(macroIndex: Byte, repeatMode: Byte): Byte
  {
    IntoHighNibble(macroIndex % 0x10) + repeatMode % 0x10
  }

  // The arguments extractValue packs for a firmware mode
  function Arg1Of(e: Editor, mode: int): Byte
  {
    if mode == EventKey then e.modifiers
    else if mode == EventButton then e.mouseButton
    else if mode == EventProfile then e.profileChange
    else if mode == EventMacro then MacroArg(e.macroIndex, e.repeatMode)
    else if mode == EventSequence then e.scan0
    else if mode == EventDisabled then 1
    else 0
  }

  function Arg2Of(e: Editor, mode: int): Byte
  {
    if mode == EventKey then e.scan0 else if mode == EventSequence then e.delay else 0
  }

  function Arg3Of(e: Editor, mode: int): Byte
  {
    if mode == EventKey then e.scan1 else if mode == EventSequence then e.count else 0
  }

  /**
   * extractValue: pack the widgets of `mode`; Custom takes the hex field. Any
   * other mode is the "Unhandled mode" assertion, None here.
   */
  function Extract(e: Editor, mode: Byte): (r: Option<Word>)
    ensures r.Some? <==> IsMode(mode)
    ensures r.Some? && e.buttonIndex == -1 ==> r.value == 0xFFFF_FFFF
    ensures r.Some? && mode != EventCustom && e.buttonIndex >= 0 ==> ModeOf(r.value) == mode && IndexOf(r.value) == e.buttonIndex
  {
    if mode == EventCustom then Some(OrIndex(e.custom, e.buttonIndex))
    else if IsMode(mode) then
      var x := Pack(Arg3Of(e, mode), Arg2Of(e, mode), Arg1Of(e, mode), mode, e.buttonIndex);
      assert e.buttonIndex >= 0 ==> ModeOf(x) == mode && IndexOf(x) == e.buttonIndex by {
        if e.buttonIndex >= 0 {
          FirmwareModeLowNibble(mode);
          PackThenSplit(Arg3Of(e, mode), Arg2Of(e, mode), Arg1Of(e, mode), mode, e.buttonIndex);
        }
      }
      Some(x)
    else None
  }

  /** value: the word for the selected mode. */
  function Value(e: Editor): (r: Option<Word>)
    ensures WellFormed(e) ==> r.Some?
    ensures r.Some? && e.mode != EventCustom && e.buttonIndex >= 0 ==> ModeOf(r.value) == e.mode && IndexOf(r.value) == e.buttonIndex
  {
    Extract(e, e.mode)
  }

  /** `x & ~0xF0`: the word with its mode nibble cleared. */
  function ClearMode(x: Word): (r: Word)
    ensures r % 0x100 == x % 0x10 < 0x10
    ensures r - r % 0x100 == x - x % 0x100 <= 0xFFFF_FF00
  {
    NibbleSplit(x % 0x100);
    LowNibble(x);
    ShiftByte(x / 0x100, x % 0x10);
    x - ModeNibble(x % 0x100)
  }

  /** The hex field onModeChanged shows when switching to Custom: the cleared word with the old mode in the low byte. */
  function CustomField(x: Word, oldMode: Byte): (r: Word)
    ensures r % 0x100 == oldMode && r - r % 0x100 == x - x % 0x100
  {
    var value := ClearMode(x);
    value - value % 0x100 + oldMode
  }

  /**
   * onModeChanged: the old mode is read from the low byte of the hex field;
   * the old mode's widgets are packed, the mode nibble cleared, and the word
   * either shown in the hex field (new mode Custom) or loaded under the new
   * mode. A firmware mode has a clear low nibble and the cleared word a clear
   * mode nibble, so `value | newMode` is their sum.
   */
  function SwitchMode(e: Editor, newMode: Byte): (r: Option<Editor>)
    requires IsMode(newMode)
    ensures r.None? <==> !IsMode(HexMode(e))
    ensures r.Some? && WellFormed(e) ==> WellFormed(r.value)
  {
    var oldMode := HexMode(e);
    var x := Extract(e, oldMode);
    if x.None? then None
    else
      var value := ClearMode(x.value);
      if newMode == EventCustom then
        Some(e.(mode := EventCustom, custom := CustomField(x.value, oldMode)))
      else
        Some(Decode(e, value + newMode))
  }

  /** The words that come back unchanged from setValue then value, mode by mode. */
  predicate Representable(v: Word): (b: bool)
    ensures ModeOf(v) == EventKey || !IsMode(ModeOf(v)) ==> b
    ensures b && IsMode(ModeOf(v)) && ModeOf(v) != EventKey && ModeOf(v) != EventSequence ==> Arg2(v) == 0 && Arg3(v) == 0
  {
    var mode, a1, a2, a3 := ModeOf(v), Arg1(v), Arg2(v), Arg3(v);
    if mode == EventKey then true
    else if mode == EventButton then (a1 == 0 || IsMouseCode(a1)) && a2 == 0 && a3 == 0
    else if mode == EventSequence then a3 >= 2
    else if mode == EventTripleClick then a1 == 0 && a2 == 0 && a3 == 0
    else if mode == EventProfile then (a1 == 0 || IsProfileCode(a1)) && a2 == 0 && a3 == 0
    else if mode == EventMacro then
      1 <= a1 / 0x10 <= MaxMacroNum && (a1 % 0x10 == 0 || IsRepeatMode(a1 % 0x10)) && a2 == 0 && a3 == 0
    else if mode == EventDisabled then a1 == 1 && a2 == 0 && a3 == 0
    else true
  }

  /** OR-ing an index into a word with a clear low nibble adds it. */
  lemma OrIntoClearNibble(w: Word, bi: ButtonIndex)
    requires w % 0x10 == 0 && bi >= 0
    ensures OrIndex(w, bi) == w + bi
  {
  }

  /** A byte is its mode nibble plus its low nibble. */
  lemma NibbleSplit(b: Byte)
    ensures ModeNibble(b) + b % 0x10 == b && ModeNibble(b) % 0x10 == 0
  {
  }

  /** The low nibble of a word is the low nibble of its low byte. */
  lemma LowNibble(x: Word)
    ensures x % 0x100 % 0x10 == x % 0x10 && x == x / 0x100 * 0x100 + x % 0x100
  {
    var r := x % 0x100;
    assert x == (x / 0x100 * 0x10 + r / 0x10) * 0x10 + r % 0x10;
    ShiftNibble(x / 0x100 * 0x10 + r / 0x10, r % 0x10);
  }

  lemma ShiftNibble(q: int, t: int)
    requires 0 <= t < 0x10
    ensures (q * 0x10 + t) % 0x10 == t && (q * 0x10 + t) / 0x10 == q
  {
  }

  /** Division by 256 undoes a shift by one byte. */
  lemma ShiftByte(q: int, r: int)
    requires 0 <= r < 0x100
    ensures (q * 0x100 + r) / 0x100 == q && (q * 0x100 + r) % 0x100 == r
  {
  }

  /** The bytes of a word, most significant first, rebuild it. */
  lemma HornerSplit(v: Word)
    ensures Horner(Arg3(v), Arg2(v), Arg1(v), v % 0x100) == v
  {
    var h1 := v / 0x100;
    var h2 := h1 / 0x100;
    assert v == h1 * 0x100 + v % 0x100;
    assert h1 == h2 * 0x100 + h1 % 0x100;
    assert h2 == h2 / 0x100 * 0x100 + h2 % 0x100;
  }

  /** The bytes of a Horner word are the bytes it was built from. */
  lemma HornerBytes(a3: Byte, a2: Byte, a1: Byte, low: Byte)
    ensures var v := Horner(a3, a2, a1, low);
            Arg3(v) == a3 && Arg2(v) == a2 && Arg1(v) == a1 && v % 0x100 == low
  {
    ShiftByte(a3 * 0x100 + a2, a1);
    ShiftByte(a3, a2);
    ShiftByte((a3 * 0x100 + a2) * 0x100 + a1, low);
    ShiftByte(0, a3);
  }

  /** A word is its fields packed together again. */
  lemma SplitThenPack(v: Word)
    ensures Pack(Arg3(v), Arg2(v), Arg1(v), ModeOf(v), IndexOf(v)) == v
  {
    var low := v % 0x100;
    NibbleSplit(low);
    assert low % 0x10 == v % 0x10;
    HornerSplit(v);
    var base := Horner(Arg3(v), Arg2(v), Arg1(v), ModeOf(v));
    assert base + IndexOf(v) == v;
    ShiftByte((Arg3(v) * 0x100 + Arg2(v)) * 0x100 + Arg1(v), ModeOf(v));
    OrIntoClearNibble(base, IndexOf(v));
    assert Pack(Arg3(v), Arg2(v), Arg1(v), ModeOf(v), IndexOf(v)) == OrIndex(base, IndexOf(v));
  }

  /** Packing a firmware mode's fields keeps each of them apart. */
  lemma PackThenSplit(a3: Byte, a2: Byte, a1: Byte, mode: Byte, bi: ButtonIndex)
    requires mode % 0x10 == 0 && bi >= 0
    ensures var v := Pack(a3, a2, a1, mode, bi);
            && Arg3(v) == a3 && Arg2(v) == a2 && Arg1(v) == a1 && ModeOf(v) == mode && IndexOf(v) == bi
            && HexOf(v) == v - bi
  {
    PackedLowByte(a3, a2, a1, mode, bi);
    var v := Horner(a3, a2, a1, mode + bi);
    HornerBytes(a3, a2, a1, mode + bi);
    ModeAndIndex(mode, bi);
    LowNibble(v);
  }

  /** The macro argument byte holds the macro number in its high nibble and the repeat mode in its low one. */
  lemma MacroArgSplit(macroIndex: Byte, repeatMode: Byte, b: Byte)
    requires macroIndex < 0x10 && repeatMode < 0x10
    ensures MacroArg(macroIndex, repeatMode) == b <==> macroIndex == b / 0x10 && repeatMode == b % 0x10
  {
  }

  /**
   * setValue then value gives the word back exactly when it is Representable:
   * a Key word or a word of an unknown mode always, the others when their
   * arguments are what the mode's widgets can show.
   */
  lemma SetValueThenValue(e: Editor, v: Word)
    ensures Value(Decode(e, v)) == Some(v) <==> Representable(v)
  {
    var mode := ModeOf(v);
    var d := Decode(e, v);
    if IsMode(mode) {
      PackedFieldsIff(d, v);
      DecodedFieldsIff(e, v);
    } else {
      SplitThenPack(v);
      LowNibble(v);
      NibbleSplit(v % 0x100);
      OrIntoClearNibble(HexOf(v), IndexOf(v));
    }
  }

  /** For a firmware mode, a word of that mode comes back from value exactly when the arguments do. */
  lemma PackedFieldsIff(d: Editor, v: Word)
    requires d.mode == ModeOf(v) && IsMode(d.mode) && d.buttonIndex == IndexOf(v)
    ensures Value(d) == Some(v) <==>
              Arg1Of(d, d.mode) == Arg1(v) && Arg2Of(d, d.mode) == Arg2(v) && Arg3Of(d, d.mode) == Arg3(v)
  {
    var m := d.mode;
    NibbleSplit(v % 0x100);
    PackThenSplit(Arg3Of(d, m), Arg2Of(d, m), Arg1Of(d, m), m, d.buttonIndex);
    SplitThenPack(v);
  }

  /** The arguments setValue leaves in the widgets of the word's mode pack back to the word's own exactly when it is Representable. */
  lemma DecodedFieldsIff(e: Editor, v: Word)
    requires IsMode(ModeOf(v))
    ensures var d, m := Decode(e, v), ModeOf(v);
            d.mode == m && d.buttonIndex == IndexOf(v)
            && (Arg1Of(d, m) == Arg1(v) && Arg2Of(d, m) == Arg2(v) && Arg3Of(d, m) == Arg3(v) <==> Representable(v))
  {
    var d, m, a1 := Decode(e, v), ModeOf(v), Arg1(v);
    if m == EventMacro {
      MacroArgSplit(d.macroIndex, d.repeatMode, a1);
    }
  }

  /**
   * value then setValue leaves every widget as it was, for any mode but
   * Custom: only the hex field takes the word.
   */
  lemma ValueThenSetValue(e: Editor)
    requires WellFormed(e) && e.buttonIndex >= 0 && e.mode != EventCustom
    ensures Value(e).Some? && Decode(e, Value(e).value) == e.(custom := HexOf(Value(e).value))
  {
    var m := e.mode;
    assert m % 0x10 == 0;
    var a3, a2, a1 := Arg3Of(e, m), Arg2Of(e, m), Arg1Of(e, m);
    PackThenSplit(a3, a2, a1, m, e.buttonIndex);
    if m == EventMacro {
      MacroArgSplit(e.macroIndex, e.repeatMode, a1);
    }
  }

  /** A firmware mode plus an index, as one low byte. */
  lemma ModeAndIndex(m: Byte, bi: ButtonIndex)
    requires m % 0x10 == 0 && bi >= 0 && m + bi < 0x100
    ensures ModeNibble(m + bi) == m && (m + bi) % 0x10 == bi
  {
    ShiftNibble(m / 0x10, bi);
  }

  /** A packed firmware-mode word is the Horner word whose low byte holds mode and index together. */
  lemma PackedLowByte(a3: Byte, a2: Byte, a1: Byte, m: Byte, bi: ButtonIndex)
    requires m % 0x10 == 0 && bi >= 0
    ensures m + bi < 0x100
    ensures Pack(a3, a2, a1, m, bi) == Horner(a3, a2, a1, m + bi)
    ensures ClearMode(Pack(a3, a2, a1, m, bi)) == Horner(a3, a2, a1, bi)
  {
    var prefix := (a3 as int * 0x100 + a2) * 0x100 + a1;
    var base := Horner(a3, a2, a1, m);
    ShiftByte(prefix, m);
    LowNibble(base);
    OrIntoClearNibble(base, bi);
    ModeAndIndex(m, bi);
    var x := Horner(a3, a2, a1, m + bi);
    assert x == base + bi;
    ShiftByte(prefix, m + bi);
    LowNibble(x);
  }

  /**
   * Switching to Custom keeps the word: when the hex field names the selected
   * mode, the hex field afterwards holds the word value gave before.
   */
  lemma SwitchToCustomKeepsValue(e: Editor)
    requires WellFormed(e) && e.buttonIndex >= 0 && e.mode != EventCustom
    requires HexMode(e) == e.mode
    ensures SwitchMode(e, EventCustom).Some?
    ensures Value(SwitchMode(e, EventCustom).value) == Value(e)
  {
    var m, bi := e.mode, e.buttonIndex;
    FirmwareModeLowNibble(m);
    ExtractFirmware(e, m);
    var x := Pack(Arg3Of(e, m), Arg2Of(e, m), Arg1Of(e, m), m, bi);
    CustomWordRestores(Arg3Of(e, m), Arg2Of(e, m), Arg1Of(e, m), m, bi);
    var d := e.(mode := EventCustom, custom := CustomField(x, m));
    assert SwitchMode(e, EventCustom) == Some(d);
    assert Value(d) == Some(OrIndex(d.custom, bi));
  }

  /** The hex field Custom shows for a packed word gives that word back once the index is OR-ed in. */
  lemma CustomWordRestores(a3: Byte, a2: Byte, a1: Byte, m: Byte, bi: ButtonIndex)
    requires m % 0x10 == 0 && bi >= 0
    ensures OrIndex(CustomField(Pack(a3, a2, a1, m, bi), m), bi) == Pack(a3, a2, a1, m, bi)
  {
    PackedLowByte(a3, a2, a1, m, bi);
    var prefix := (a3 as int * 0x100 + a2) * 0x100 + a1;
    var value := Horner(a3, a2, a1, bi);
    ShiftByte(prefix, bi);
    var c := CustomField(Pack(a3, a2, a1, m, bi), m);
    assert c == Horner(a3, a2, a1, m);
    ShiftByte(prefix, m);
    LowNibble(c);
    OrIntoClearNibble(c, bi);
  }

  /**
   * A successful switch to a firmware mode selects it and keeps the button
   * index, and the old mode's arguments are read positionally as the new
   * mode's: the hex field afterwards holds them under the new mode nibble.
   */
  lemma SwitchModeLoadsOldArguments(e: Editor, newMode: Byte)
    requires WellFormed(e) && e.buttonIndex >= 0
    requires IsMode(newMode) && newMode != EventCustom
    requires SwitchMode(e, newMode).Some?
    ensures WellFormed(SwitchMode(e, newMode).value)
    ensures SwitchMode(e, newMode).value.mode == newMode
    ensures SwitchMode(e, newMode).value.buttonIndex == e.buttonIndex
    ensures var x := Extract(e, HexMode(e)).value;
            SwitchMode(e, newMode).value.custom == x - x % 0x100 + newMode
  {
    var v := SwitchedWord(e, newMode);
  }

  /** The word a successful switch to a firmware mode loads: the old arguments and index under the new mode. */
  lemma SwitchedWord(e: Editor, newMode: Byte) returns (v: Word)
    requires e.buttonIndex >= 0
    requires IsMode(newMode) && newMode != EventCustom
    requires SwitchMode(e, newMode).Some?
    ensures SwitchMode(e, newMode).value == Decode(e, v)
    ensures var x := Extract(e, HexMode(e)).value;
            ModeOf(v) == newMode && IndexOf(v) == e.buttonIndex && HexOf(v) == x - x % 0x100 + newMode
  {
    var x := Extract(e, HexMode(e)).value;
    v := ClearMode(x) + newMode;
    RemodeExtract(e, newMode);
  }

  /** The fields of the word onModeChanged loads, for the old mode the hex field names. */
  lemma RemodeExtract(e: Editor, newMode: Byte)
    requires e.buttonIndex >= 0
    requires IsMode(newMode) && newMode != EventCustom
    requires Extract(e, HexMode(e)).Some?
    ensures var x := Extract(e, HexMode(e)).value;
            var v := ClearMode(x) + newMode;
            ModeOf(v) == newMode && IndexOf(v) == e.buttonIndex && HexOf(v) == x - x % 0x100 + newMode
  {
    var oldMode, bi := HexMode(e), e.buttonIndex;
    NibbleSplit(e.custom % 0x100);
    FirmwareModeLowNibble(newMode);
    ExtractFirmware(e, oldMode);
    var a3, a2, a1 := Arg3Of(e, oldMode), Arg2Of(e, oldMode), Arg1Of(e, oldMode);
    Remode(a3, a2, a1, oldMode, newMode, bi);
  }

  /** Every item of the mode combo but Custom has a clear low nibble. */
  lemma FirmwareModeLowNibble(m: Byte)
    requires IsMode(m) && m != EventCustom
    ensures m % 0x10 == 0
  {
  }

  /** extractValue of a firmware mode packs that mode's arguments. */
  lemma ExtractFirmware(e: Editor, m: Byte)
    requires IsMode(m) && m != EventCustom
    ensures Extract(e, m) == Some(Pack(Arg3Of(e, m), Arg2Of(e, m), Arg1Of(e, m), m, e.buttonIndex))
  {
  }

  /** The word onModeChanged loads: the old word's arguments and index under the new mode nibble. */
  lemma Remode(a3: Byte, a2: Byte, a1: Byte, m: Byte, n: Byte, bi: ButtonIndex)
    requires m % 0x10 == 0 && n % 0x10 == 0 && bi >= 0
    ensures var x := Pack(a3, a2, a1, m, bi);
            var v := ClearMode(x) + n;
            && 0 <= v < 0x1_0000_0000
            && ModeOf(v) == n && IndexOf(v) == bi && HexOf(v) == x - x % 0x100 + n
  {
    PackedLowByte(a3, a2, a1, m, bi);
    var x := Pack(a3, a2, a1, m, bi);
    var prefix := (a3 as int * 0x100 + a2) * 0x100 + a1;
    ShiftByte(prefix, m + bi);
    var v := ClearMode(x) + n;
    assert v == Horner(a3, a2, a1, n + bi);
    ShiftByte(prefix, n + bi);
    ModeAndIndex(n, bi);
    LowNibble(v);
  }

  /** The editor's state: one field per widget, updated in place by its slots. */
  class ButtonEdit {
    var buttonIndex: ButtonIndex
    var mode: Byte
    var modifiers: Byte
    var scan0: Byte
    var scan1: Byte
    var mouseButton: Byte
    var count: Byte
    var delay: Byte
    var profileChange: Byte
    var macroIndex: Byte
    var repeatMode: Byte
    var custom: Word

    function View(): Editor
      reads this
    {
      Editor(buttonIndex, mode, modifiers, scan0, scan1, mouseButton, count, delay,
             profileChange, macroIndex, repeatMode, custom)
    }

    constructor ()
      ensures View() == Initial
    {
      buttonIndex, mode, modifiers, scan0, scan1 := -1, EventKey, 0, 0, 0;
      mouseButton, count, delay, profileChange := MouseLeftButton, 2, 0, NextProfile;
      macroIndex, repeatMode, custom := 1, MacroRepeatCount, 0;
    }

    method SetValue(v: Word)
      modifies this
      ensures View() == Decode(old(View()), v)
    {
      var m := ModeOf(v);
      var a1, a2, a3 := Arg1(v), Arg2(v), Arg3(v);
      assert Decode(View(), v) == Load(View(), m, a1, a2, a3, IndexOf(v), HexOf(v));
      buttonIndex := IndexOf(v);
      custom := HexOf(v);
      if m == EventButton {
        mouseButton := Select(a1, IsMouseCode(a1));
      } else if m == EventSequence {
        scan0 := a1;
        count := Clamp(a3, 2, 0xFF);
        delay := a2;
      } else if m == EventTripleClick {
      } else if m == EventKey {
        modifiers := a1;
        scan0 := a2;
        scan1 := a3;
      } else if m == EventProfile {
        profileChange := Select(a1, IsProfileCode(a1));
      } else if m == EventMacro {
        macroIndex := Clamp(a1 / 0x10, 1, MaxMacroNum);
        repeatMode := Select(a1 % 0x10, IsRepeatMode(a1 % 0x10));
      } else if m == EventDisabled {
      } else {
        m := EventCustom;
      }
      mode := m;
    }

    /** The word for the selected mode; defined for every editor whose widgets hold what they can. */
    method GetValue() returns (r: Word)
      requires WellFormed(View())
      ensures Value(View()) == Some(r)
    {
      r := Extract(View(), mode).value;
    }

    /** The button index of the loaded word, -1 before any. */
    method GetIndex() returns (r: int)
      ensures r == View().buttonIndex
      ensures -1 <= r < 16
    {
      r := buttonIndex;
    }

    method OnModeChanged(newMode: Byte)
      requires IsMode(newMode)
      requires SwitchMode(View(), newMode).Some?
      modifies this
      ensures View() == SwitchMode(old(View()), newMode).value
    {
      var oldMode := HexMode(View());
      var x := Extract(View(), oldMode).value;
      if newMode == EventCustom {
        custom := CustomField(x, oldMode);
        mode := EventCustom;
      } else {
        SetValue(ClearMode(x) + newMode);
      }
    }
  }
}
