/**
 * The configuration engine of the MS794 class as functions over values: a
 * read-through cache of the three firmware pages, per-page dirty flags, the
 * typed byte and bit-field accessors, write-back, backup and restore. The
 * class in ms794.dfy runs the same steps on its fields and is proved to end
 * in the state these functions compute; the lemmas here state what the
 * engine promises.
 */
module PageStore {
  import opened Wrappers
  import opened Layout
  import opened Transport

  /**
   * The cache entry of one page: not read yet, or the page's bytes with its
   * dirty flag (set when the bytes change, cleared when they are read or saved).
   */
  datatype Slot = Missing | Cached(buf: seq<Byte>, dirty: bool)

  /** The page cache, one slot per page, and the device channel. */
  datatype Store = Store(lighting: Slot, buttons: Slot, profile: Slot, link: Link)

  function SlotOf(s: Store, p: Page): Slot
  {
    match p
    case Lighting => s.lighting
    case Buttons => s.buttons
    case Profile => s.profile
  }

  /** The store with the slot of page p replaced. */
  function WithSlot(s: Store, p: Page, slot: Slot): (t: Store)
    ensures SlotOf(t, p) == slot && t.link == s.link
    ensures forall q :: q != p ==> SlotOf(t, q) == SlotOf(s, q)
  {
    match p
    case Lighting => s.(lighting := slot)
    case Buttons => s.(buttons := slot)
    case Profile => s.(profile := slot)
  }

  predicate InCache(s: Store, p: Page)
  {
    SlotOf(s, p).Cached?
  }

  /** A page that is not cached is not dirty either. */
  predicate IsDirty(s: Store, p: Page)
  {
    SlotOf(s, p).Cached? && SlotOf(s, p).dirty
  }

  /** A buffer that can stand for page p: full length and tagged in byte 0. */
  predicate Fits(p: Page, buf: seq<Byte>)
  {
    |buf| == PageSize(p) && buf[0] == Tag(p)
  }

  predicate SlotFits(p: Page, slot: Slot)
  {
    slot.Cached? ==> Fits(p, slot.buf)
  }

  /** Every cached page fits its slot. */
  predicate Wf(s: Store)
  {
    SlotFits(Lighting, s.lighting) && SlotFits(Buttons, s.buttons) && SlotFits(Profile, s.profile)
  }

  function CachedPage(s: Store, p: Page): (buf: seq<Byte>)
    requires InCache(s, p)
    ensures Wf(s) ==> Fits(p, buf)
  {
    SlotOf(s, p).buf
  }

  /** C++ `(char)value` and `0xFF & value`: the low byte of an int. */
  function Low8(v: int): Byte
  {
    v % 0x100
  }

  /** Replace the cached copy of page p and mark it dirty. */
  function Put(t: Store, p: Page, buf: seq<Byte>): Store
  {
    WithSlot(t, p, Cached(buf, true))
  }

  // ---------------------------------------------------------------- the two maps of the class

  /** Dirty flags exist exactly for the cached pages, and every cached page fits. */
  predicate Consistent(cache: map<Page, seq<Byte>>, dirty: map<Page, bool>)
  {
    dirty.Keys == cache.Keys && forall p :: p in cache ==> Fits(p, cache[p])
  }

  function SlotIn(cache: map<Page, seq<Byte>>, dirty: map<Page, bool>, p: Page): Slot
  {
    if p in cache && p in dirty then Cached(cache[p], dirty[p]) else Missing
  }

  /** The store a cache map and a dirty-flag map keyed by page stand for. */
  function FromMaps(cache: map<Page, seq<Byte>>, dirty: map<Page, bool>, link: Link): (s: Store)
    ensures Consistent(cache, dirty) ==> Wf(s)
  {
    Store(SlotIn(cache, dirty, Lighting), SlotIn(cache, dirty, Buttons), SlotIn(cache, dirty, Profile), link)
  }

  /** Updating page p in both maps updates the slot of p and no other. */
  lemma FromMapsUpdate(cache: map<Page, seq<Byte>>, dirty: map<Page, bool>, link: Link, p: Page, buf: seq<Byte>, flag: bool)
    ensures FromMaps(cache[p := buf], dirty[p := flag], link) == WithSlot(FromMaps(cache, dirty, link), p, Cached(buf, flag))
  {
    match p
    case Lighting =>
    case Buttons =>
    case Profile =>
  }

  // ---------------------------------------------------------------- readPage

  /**
   * readPage: a cached page is returned without any transport traffic; a page
   * not yet cached is requested once and kept only when the answer has the
   * page's full length and echoes its tag in byte 0; it then starts clean.
   */
  function Fetch(s: Store, p: Page): (r: (Store, Option<seq<Byte>>))
    requires Wf(s)
    ensures Wf(r.0)
    ensures r.1.Some? <==> InCache(r.0, p)
    ensures r.1.Some? ==> CachedPage(r.0, p) == r.1.value
    ensures forall q :: q != p ==> SlotOf(r.0, q) == SlotOf(s, q)
    ensures InCache(s, p) ==> r.0 == s
    ensures r.1.None? ==> r.0 == s.(link := r.0.link)
    ensures !InCache(s, p) ==>
      var (link, reply) := Get(s.link, Tag(p), PageSize(p));
      && r.0.link == link
      && (r.1.Some? <==> reply.Some? && Fits(p, reply.value))
      && (r.1.Some? ==> r.1 == reply && !IsDirty(r.0, p))
  {
    if InCache(s, p) then (s, Some(CachedPage(s, p)))
    else
      var (link, reply) := Get(s.link, Tag(p), PageSize(p));
      if reply.Some? && Fits(p, reply.value) then
        (WithSlot(s, p, Cached(reply.value, false)).(link := link), reply)
      else
        (s.(link := link), None)
  }

  // ---------------------------------------------------------------- single bytes

  /** readByte: the byte 0..255, or -1 when the page cannot be had. */
  function ReadByte(s: Store, p: Page, off: nat): (r: (Store, int))
    requires Wf(s) && off < PageSize(p)
    ensures r.0 == Fetch(s, p).0
    ensures -1 <= r.1 < 0x100
    ensures r.1 == -1 <==> Fetch(s, p).1.None?
    ensures r.1 != -1 ==> InCache(r.0, p) && r.1 == CachedPage(r.0, p)[off]
  {
    var (t, page) := Fetch(s, p);
    (t, if page.Some? then page.value[off] else -1)
  }

  /** writeByte: store the low byte of v; dirty only when the stored byte differs. */
  function WriteByte(s: Store, p: Page, off: nat, v: int): (u: Store)
    requires Wf(s) && 1 <= off < PageSize(p)
    ensures Wf(u)
  {
    var (t, page) := Fetch(s, p);
    if page.None? then t
    else if page.value[off] != Low8(v) then Put(t, p, page.value[off := Low8(v)])
    else t
  }

  /**
   * A write lands in the cached page and marks it dirty exactly when the byte
   * changes; an equal write or an unavailable page leaves cache and flags alone.
   */
  lemma WriteByteOnChange(s: Store, p: Page, off: nat, v: int)
    requires Wf(s) && 1 <= off < PageSize(p)
    ensures var (t, page) := Fetch(s, p);
            var u := WriteByte(s, p, off, v);
            && (page.None? ==> u == t)
            && (page.Some? ==> u == WithSlot(t, p, Cached(page.value[off := Low8(v)], IsDirty(t, p) || page.value[off] != Low8(v))))
  {
    var (t, page) := Fetch(s, p);
    if page.Some? && page.value[off] == Low8(v) {
      assert page.value[off := Low8(v)] == page.value;
      assert WithSlot(t, p, SlotOf(t, p)) == t;
    }
  }

  /** writeByte on a cached page updates that one byte of it. */
  lemma WriteByteCached(s: Store, p: Page, off: nat, v: int)
    requires Wf(s) && 1 <= off < PageSize(p) && InCache(s, p)
    ensures var u := WriteByte(s, p, off, v);
            InCache(u, p) && CachedPage(u, p) == CachedPage(s, p)[off := Low8(v)] && u.link == s.link
  {
    WriteByteOnChange(s, p, off, v);
  }

  /** Writing a byte and reading it back gives its low byte; writing it again changes nothing. */
  lemma WriteByteTwice(s: Store, p: Page, off: nat, v: int)
    requires Wf(s) && 1 <= off < PageSize(p)
    requires Fetch(s, p).1.Some?
    ensures var u := WriteByte(s, p, off, v);
            && ReadByte(u, p, off) == (u, Low8(v))
            && WriteByte(u, p, off, v) == u
            && (Fetch(s, p).1.value[off] != Low8(v) ==> IsDirty(u, p))
  {
  }

  // ---------------------------------------------------------------- button words

  const Two31: int := 0x8000_0000
  const Two32: int := 0x1_0000_0000

  /** The 4-byte little-endian word at off, read as an unsigned number. */
  function WordAt(buf: seq<Byte>, off: nat): (w: int)
    requires off + 4 <= |buf|
    ensures 0 <= w < Two32
  {
    buf[off] as int + 0x100 * buf[off + 1] as int + 0x1_0000 * buf[off + 2] as int + 0x100_0000 * buf[off + 3] as int
  }

  function PutWord(buf: seq<Byte>, off: nat, w: int): (r: seq<Byte>)
    requires off + 4 <= |buf| && 0 <= w < Two32
    ensures |r| == |buf|
  {
    var w1 := w / 0x100;
    var w2 := w1 / 0x100;
    buf[off := w % 0x100][off + 1 := w1 % 0x100][off + 2 := w2 % 0x100][off + 3 := w2 / 0x100]
  }

  /** A C++ int read through `(const int *)`: the unsigned word reinterpreted in two's complement. */
  function Signed32(w: int): int
    requires 0 <= w < Two32
  {
    if w < Two31 then w else w - Two32
  }

  /** The bytes a C++ int occupies: its value modulo 2^32. */
  function Unsigned32(v: int): int
  {
    v % Two32
  }

  predicate IsInt32(v: int)
  {
    -Two31 <= v < Two31
  }

  /** Storing an int and reading the word back yields the same int, and no other byte moves. */
  lemma WordRoundTrip(buf: seq<Byte>, off: nat, v: int)
    requires off + 4 <= |buf| && IsInt32(v)
    ensures Signed32(WordAt(PutWord(buf, off, Unsigned32(v)), off)) == v
    ensures forall i :: 0 <= i < |buf| && !(off <= i < off + 4) ==> PutWord(buf, off, Unsigned32(v))[i] == buf[i]
  {
    var w := Unsigned32(v);
    var w1 := w / 0x100;
    var w2 := w1 / 0x100;
    var r := PutWord(buf, off, w);
    assert r[off] == w % 0x100 && r[off + 1] == w1 % 0x100;
    assert r[off + 2] == w2 % 0x100 && r[off + 3] == w2 / 0x100;
    assert w2 == w2 % 0x100 + 0x100 * (w2 / 0x100);
    assert w1 == w1 % 0x100 + 0x100 * w2;
    assert w == w % 0x100 + 0x100 * w1;
    assert WordAt(r, off) == w;
  }

  function ButtonOffset(btn: int): nat
    requires 0 <= btn < ButtonCount
  {
    ButtonsOffset + 4 * btn
  }

  /** button: the action word of a button, or -1 when the Buttons page cannot be had. */
  function Button(s: Store, btn: int): (r: (Store, int))
    requires Wf(s) && 0 <= btn < ButtonCount
    ensures r.0 == Fetch(s, Buttons).0
  {
    var (t, page) := Fetch(s, Buttons);
    (t, if page.None? then -1 else Signed32(WordAt(page.value, ButtonOffset(btn))))
  }

  /** setButton: store the word; dirty only when the stored word differs. */
  function SetButton(s: Store, btn: int, value: int): (u: Store)
    requires Wf(s) && 0 <= btn < ButtonCount && IsInt32(value)
    ensures Wf(u)
  {
    var (t, page) := Fetch(s, Buttons);
    if page.None? then t
    else if Signed32(WordAt(page.value, ButtonOffset(btn))) != value then
      Put(t, Buttons, PutWord(page.value, ButtonOffset(btn), Unsigned32(value)))
    else t
  }

  /**
   * setButton then button returns the stored value; the page becomes dirty
   * exactly when the word was different, and nothing else of it changes.
   */
  lemma SetButtonThenButton(s: Store, btn: int, value: int)
    requires Wf(s) && 0 <= btn < ButtonCount && IsInt32(value)
    requires Fetch(s, Buttons).1.Some?
    ensures var old_ := Fetch(s, Buttons).1.value;
            var u := SetButton(s, btn, value);
            && Button(u, btn) == (u, value)
            && (IsDirty(u, Buttons) <==> IsDirty(Fetch(s, Buttons).0, Buttons) || Signed32(WordAt(old_, ButtonOffset(btn))) != value)
            && InCache(u, Buttons)
            && (forall i :: 0 <= i < |old_| && !(ButtonOffset(btn) <= i < ButtonOffset(btn) + 4) ==> CachedPage(u, Buttons)[i] == old_[i])
  {
    var page := Fetch(s, Buttons).1.value;
    var off := ButtonOffset(btn);
    WordRoundTrip(page, off, value);
    if Signed32(WordAt(page, off)) == value {
      assert SetButton(s, btn, value) == Fetch(s, Buttons).0;
    }
  }

  // ---------------------------------------------------------------- macros

  function MacroOffset(index: int): nat
    requires 1 <= index <= MaxMacroNum
  {
    MacrosOffset + (index - 1) * MaxMacroLength
  }

  function Zeros(n: nat): (z: seq<Byte>)
    ensures |z| == n && forall i :: 0 <= i < n ==> z[i] == 0
  {
    seq(n, _ => 0)
  }

  function Min(a: int, b: int): int
  {
    if a < b then a else b
  }

  /** The 128-byte slot a macro occupies once written: its first bytes, then zeros. */
  function Padded(value: seq<Byte>): (slot: seq<Byte>)
    ensures |slot| == MaxMacroLength
  {
    var n := Min(MaxMacroLength, |value|);
    value[..n] + Zeros(MaxMacroLength - n)
  }

  /** The page with macro slot `index` replaced by `slot`. */
  function PutSlot(page: seq<Byte>, index: int, slot: seq<Byte>): (r: seq<Byte>)
    requires |page| == PageSize(Buttons) && 1 <= index <= MaxMacroNum && |slot| == MaxMacroLength
    ensures |r| == |page| && r[MacroOffset(index)..MacroOffset(index) + MaxMacroLength] == slot
    ensures forall i :: 0 <= i < |page| && !(MacroOffset(index) <= i < MacroOffset(index) + MaxMacroLength) ==> r[i] == page[i]
  {
    var off := MacroOffset(index);
    page[..off] + slot + page[off + MaxMacroLength..]
  }

  /** macro: the 128 bytes of slot `index` (1-based), or None when the Buttons page cannot be had. */
  function Macro(s: Store, index: int): (r: (Store, Option<seq<Byte>>))
    requires Wf(s) && 1 <= index <= MaxMacroNum
    ensures r.0 == Fetch(s, Buttons).0
    ensures r.1.Some? ==> |r.1.value| == MaxMacroLength
  {
    var (t, page) := Fetch(s, Buttons);
    if page.None? then (t, None)
    else (t, Some(page.value[MacroOffset(index)..MacroOffset(index) + MaxMacroLength]))
  }

  /**
   * setMacro as written: the slot is rewritten (first bytes, then zeros) only
   * when its first min(128, |value|) bytes differ from value's.
   */
  function SetMacro(s: Store, index: int, value: seq<Byte>): (u: Store)
    requires Wf(s) && 1 <= index <= MaxMacroNum
    ensures Wf(u)
  {
    var (t, page) := Fetch(s, Buttons);
    var off := MacroOffset(index);
    var n := Min(MaxMacroLength, |value|);
    if page.Some? && page.value[off..off + n] != value[..n] then
      Put(t, Buttons, PutSlot(page.value, index, Padded(value)))
    else t
  }

  /**
   * setMacro compares only the bytes it copies: a value whose bytes agree with
   * the start of the slot leaves the whole slot, trailing bytes included,
   * untouched and the page clean; any other value leaves exactly Padded(value).
   */
  lemma SetMacroComparesPrefix(s: Store, index: int, value: seq<Byte>)
    requires Wf(s) && 1 <= index <= MaxMacroNum
    requires Fetch(s, Buttons).1.Some?
    ensures var (t, page) := Fetch(s, Buttons);
            var slot := page.value[MacroOffset(index)..MacroOffset(index) + MaxMacroLength];
            var n := Min(MaxMacroLength, |value|);
            var u := SetMacro(s, index, value);
            && (slot[..n] == value[..n] ==> u == t)
            && (slot[..n] != value[..n] ==> Macro(u, index).1 == Some(Padded(value)) && IsDirty(u, Buttons))
  {
    var (t, page) := Fetch(s, Buttons);
    var off := MacroOffset(index);
    var n := Min(MaxMacroLength, |value|);
    assert page.value[off..off + MaxMacroLength][..n] == page.value[off..off + n];
  }

  /**
   * The input that shows setMacro keeping stale bytes: the slot holds 1 2 3,
   * the new macro is 1 2, and reading the slot back still gives 1 2 3.
   */
  lemma SetMacroKeepsStaleTail(s: Store)
    requires Wf(s) && InCache(s, Buttons)
    requires CachedPage(s, Buttons)[MacroOffset(1)..MacroOffset(1) + 3] == [1, 2, 3]
    ensures Macro(SetMacro(s, 1, [1, 2]), 1).1 != Some(Padded([1, 2]))
  {
    var page := CachedPage(s, Buttons);
    var off := MacroOffset(1);
    assert page[off..off + 2] == [1, 2] by {
      assert page[off..off + 2] == page[off..off + 3][..2];
    }
    assert SetMacro(s, 1, [1, 2]) == s;
    assert Macro(s, 1).1.value[2] == page[off + 2] == 3;
    assert Padded([1, 2])[2] == 0;
  }

  /** setMacro with the comparison covering the whole slot it writes. */
  function SetMacroWholeSlot(s: Store, index: int, value: seq<Byte>): (u: Store)
    requires Wf(s) && 1 <= index <= MaxMacroNum
    ensures Wf(u)
  {
    var (t, page) := Fetch(s, Buttons);
    var off := MacroOffset(index);
    if page.Some? && page.value[off..off + MaxMacroLength] != Padded(value) then
      Put(t, Buttons, PutSlot(page.value, index, Padded(value)))
    else t
  }

  /**
   * With the whole slot compared, macro after setMacro always reads back
   * Padded(value), and the page becomes dirty exactly when the slot changes.
   * No byte outside the slot moves: every other macro slot and every button
   * word reads as before, and the other pages keep their slots.
   */
  lemma SetMacroWholeSlotReadsBack(s: Store, index: int, value: seq<Byte>)
    requires Wf(s) && 1 <= index <= MaxMacroNum
    requires Fetch(s, Buttons).1.Some?
    ensures var (t, page) := Fetch(s, Buttons);
            var u := SetMacroWholeSlot(s, index, value);
            && Macro(u, index).1 == Some(Padded(value))
            && (IsDirty(u, Buttons) <==> IsDirty(t, Buttons) || page.value[MacroOffset(index)..MacroOffset(index) + MaxMacroLength] != Padded(value))
            && (forall j :: 1 <= j <= MaxMacroNum && j != index ==> Macro(u, j).1 == Macro(t, j).1)
            && (forall b :: 0 <= b < ButtonCount ==> Button(u, b).1 == Button(t, b).1)
            && (forall q :: q != Buttons ==> SlotOf(u, q) == SlotOf(s, q))
  {
    var (t, page) := Fetch(s, Buttons);
    var u := SetMacroWholeSlot(s, index, value);
    var off := MacroOffset(index);
    var after := CachedPage(u, Buttons);
    assert page.value == CachedPage(t, Buttons);
    assert forall i :: 0 <= i < |page.value| && !(off <= i < off + MaxMacroLength) ==> after[i] == page.value[i];
    OtherSlotsKept(t, u, index);
    ButtonWordsKept(t, u, index);
  }

  /** When only slot `index` of the cached Buttons page changed, every other slot reads as before. */
  lemma OtherSlotsKept(t: Store, u: Store, index: int)
    requires Wf(t) && Wf(u) && 1 <= index <= MaxMacroNum && InCache(t, Buttons) && InCache(u, Buttons)
    requires var off := MacroOffset(index);
             forall i :: 0 <= i < PageSize(Buttons) && !(off <= i < off + MaxMacroLength) ==>
               CachedPage(u, Buttons)[i] == CachedPage(t, Buttons)[i]
    ensures forall j :: 1 <= j <= MaxMacroNum && j != index ==> Macro(u, j).1 == Macro(t, j).1
  {
    var before, after := CachedPage(t, Buttons), CachedPage(u, Buttons);
    forall j | 1 <= j <= MaxMacroNum && j != index
      ensures Macro(u, j).1 == Macro(t, j).1
    {
      var o := MacroOffset(j);
      assert after[o..o + MaxMacroLength] == before[o..o + MaxMacroLength];
    }
  }

  /** When only slot `index` of the cached Buttons page changed, every button word reads as before. */
  lemma ButtonWordsKept(t: Store, u: Store, index: int)
    requires Wf(t) && Wf(u) && 1 <= index <= MaxMacroNum && InCache(t, Buttons) && InCache(u, Buttons)
    requires var off := MacroOffset(index);
             forall i :: 0 <= i < PageSize(Buttons) && !(off <= i < off + MaxMacroLength) ==>
               CachedPage(u, Buttons)[i] == CachedPage(t, Buttons)[i]
    ensures forall b :: 0 <= b < ButtonCount ==> Button(u, b).1 == Button(t, b).1
  {
    var before, after := CachedPage(t, Buttons), CachedPage(u, Buttons);
    forall b | 0 <= b < ButtonCount
      ensures Button(u, b).1 == Button(t, b).1
    {
      var o := ButtonOffset(b);
      assert after[o] == before[o] && after[o + 1] == before[o + 1];
      assert after[o + 2] == before[o + 2] && after[o + 3] == before[o + 3];
    }
  }

  // ---------------------------------------------------------------- light colours

  function ColorOffset(index: int): nat
    requires 0 <= index < MaxLightColor
  {
    LightColorOffset + 3 * index
  }

  // qRed, qGreen, qBlue of a 0xRRGGBB value
  function Red(rgb: int): Byte { rgb / 0x1_0000 % 0x100 }
  function Green(rgb: int): Byte { rgb / 0x100 % 0x100 }
  function Blue(rgb: int): Byte { rgb % 0x100 }

  /** Three bytes spell a 0xRRGGBB value exactly when they are its red, green and blue parts. */
  lemma RgbBytes(rgb: int, r: Byte, g: Byte, b: Byte)
    requires 0 <= rgb <= 0xFF_FFFF
    ensures r as int * 0x1_0000 + g as int * 0x100 + b as int == rgb <==> r == Red(rgb) && g == Green(rgb) && b == Blue(rgb)
  {
  }

  /** qRgba(r, g, b, 0) over the three bytes of colour `index`. */
  function ColorAt(buf: seq<Byte>, index: int): (rgb: int)
    requires |buf| == PageSize(Lighting) && 0 <= index < MaxLightColor
    ensures 0 <= rgb <= 0xFF_FFFF
  {
    var c := ColorOffset(index);
    buf[c] as int * 0x1_0000 + buf[c + 1] as int * 0x100 + buf[c + 2] as int
  }

  function PutColor(buf: seq<Byte>, index: int, rgb: int): (r: seq<Byte>)
    requires |buf| == PageSize(Lighting) && 0 <= index < MaxLightColor
    ensures |r| == |buf|
  {
    var c := ColorOffset(index);
    buf[c := Red(rgb)][c + 1 := Green(rgb)][c + 2 := Blue(rgb)]
  }

  /** Storing a colour changes that colour, keeps every other, and touches only its three bytes. */
  lemma PutColorAt(buf: seq<Byte>, index: int, rgb: int, j: int)
    requires |buf| == PageSize(Lighting) && 0 <= index < MaxLightColor && 0 <= j < MaxLightColor
    requires 0 <= rgb <= 0xFF_FFFF
    ensures ColorAt(PutColor(buf, index, rgb), j) == if j == index then rgb else ColorAt(buf, j)
  {
    var r := PutColor(buf, index, rgb);
    if j == index {
      assert r[ColorOffset(j)] == Red(rgb) && r[ColorOffset(j) + 1] == Green(rgb) && r[ColorOffset(j) + 2] == Blue(rgb);
      RgbBytes(rgb, Red(rgb), Green(rgb), Blue(rgb));
    } else {
      var d := ColorOffset(j);
      assert r[d] == buf[d] && r[d + 1] == buf[d + 1] && r[d + 2] == buf[d + 2];
    }
  }

  /** lightColor: 0xRRGGBB, or -1 when the Lighting page cannot be had. */
  function LightColor(s: Store, index: int): (r: (Store, int))
    requires Wf(s) && 0 <= index < MaxLightColor
    ensures r.0 == Fetch(s, Lighting).0
    ensures -1 <= r.1 <= 0xFF_FFFF && (r.1 == -1 <==> Fetch(s, Lighting).1.None?)
  {
    var (t, page) := Fetch(s, Lighting);
    (t, if page.None? then -1 else ColorAt(page.value, index))
  }

  /** setLightColor: store R, G, B; dirty only when one of the three bytes differs. */
  function SetLightColor(s: Store, index: int, rgb: int): (u: Store)
    requires Wf(s) && 0 <= index < MaxLightColor && 0 <= rgb <= 0xFF_FFFF
    ensures Wf(u)
  {
    var (t, page) := Fetch(s, Lighting);
    var c := ColorOffset(index);
    if page.None? then t
    else if page.value[c] != Red(rgb) || page.value[c + 1] != Green(rgb) || page.value[c + 2] != Blue(rgb) then
      Put(t, Lighting, PutColor(page.value, index, rgb))
    else t
  }

  /**
   * setLightColor then lightColor gives back the same 0xRRGGBB; the bytes sit
   * at 23 + 3 * index in R, G, B order, no other byte moves, and the page is
   * dirty exactly when the colour changed.
   */
  lemma LightColorRoundTrip(s: Store, index: int, rgb: int)
    requires Wf(s) && 0 <= index < MaxLightColor && 0 <= rgb <= 0xFF_FFFF
    requires Fetch(s, Lighting).1.Some?
    ensures var (t, page) := Fetch(s, Lighting);
            var u := SetLightColor(s, index, rgb);
            var c := ColorOffset(index);
            && LightColor(u, index) == (u, rgb)
            && InCache(u, Lighting)
            && CachedPage(u, Lighting)[c] == rgb / 0x1_0000 && CachedPage(u, Lighting)[c + 1] == rgb / 0x100 % 0x100
            && CachedPage(u, Lighting)[c + 2] == rgb % 0x100
            && (forall i :: 0 <= i < |page.value| && !(c <= i < c + 3) ==> CachedPage(u, Lighting)[i] == page.value[i])
            && (IsDirty(u, Lighting) <==> IsDirty(t, Lighting) || ColorAt(page.value, index) != rgb)
  {
    var page := Fetch(s, Lighting).1.value;
    var c := ColorOffset(index);
    var r := PutColor(page, index, rgb);
    assert ColorAt(r, index) == rgb;
    assert ColorAt(page, index) == rgb <==> page[c] == Red(rgb) && page[c + 1] == Green(rgb) && page[c + 2] == Blue(rgb);
  }

  // ---------------------------------------------------------------- the DPI byte of a profile

  // C++ bit operations on an int, two's complement (exact for negative operands too)
  function And7F(b: int): int { b % 0x80 }
  function Or80(v: int): int { if v % 0x100 < 0x80 then v + 0x80 else v }
  function Has80(b: int): bool { b % 0x100 >= 0x80 }
  function And0F(b: int): int { b % 0x10 }

  /** On a byte, bit 7 is set exactly from 0x80 on. */
  lemma Has80Byte(b: int)
    requires 0 <= b < 0x100
    ensures Has80(b) <==> b >= 0x80
  {
  }

  function DpiByteOffset(profile: int): nat
    requires 0 <= profile < MaxProfile
  {
    DpiOffset + profile
  }

  /** Where a profile's colour index sits in the Lighting page. */
  function ColorIndexOffset(profile: int): nat
    requires 0 <= profile < MaxProfile
  {
    ProfileColorOffset + profile
  }

  /**
   * profileEnabled: bit 7 of the DPI byte is clear. A page that cannot be had
   * reads as -1, whose bit 7 is set, so the profile reads as disabled.
   */
  function ProfileEnabled(s: Store, profile: int): (r: (Store, bool))
    requires Wf(s) && 0 <= profile < MaxProfile
    ensures var (t, b) := ReadByte(s, Lighting, DpiByteOffset(profile));
            r.0 == t && (r.1 <==> 0 <= b < 0x80)
  {
    var (t, b) := ReadByte(s, Lighting, DpiByteOffset(profile));
    (t, !Has80(b))
  }

  /** setProfileEnabled: read the DPI byte, clear or set bit 7, write it back. */
  function SetProfileEnabled(s: Store, profile: int, enabled: bool): (u: Store)
    requires Wf(s) && 0 <= profile < MaxProfile
    ensures Wf(u)
  {
    var (t, b) := ReadByte(s, Lighting, DpiByteOffset(profile));
    WriteByte(t, Lighting, DpiByteOffset(profile), if enabled then And7F(b) else Or80(b))
  }

  /** profileDpi: the low nibble of the DPI byte; 15, the low nibble of -1, when the page cannot be had. */
  function ProfileDpi(s: Store, profile: int): (r: (Store, int))
    requires Wf(s) && 0 <= profile < MaxProfile
    ensures var (t, b) := ReadByte(s, Lighting, DpiByteOffset(profile));
            r.0 == t && 0 <= r.1 < 0x10 && (b == -1 ==> r.1 == 15) && (b != -1 ==> r.1 == b % 0x10)
  {
    var (t, b) := ReadByte(s, Lighting, DpiByteOffset(profile));
    (t, And0F(b))
  }

  /** setProfileDpi: write the new value, carrying over bit 7 of the current DPI byte. */
  function SetProfileDpi(s: Store, profile: int, value: int): (u: Store)
    requires Wf(s) && 0 <= profile < MaxProfile
    ensures Wf(u)
  {
    var (t, b) := ReadByte(s, Lighting, DpiByteOffset(profile));
    WriteByte(t, Lighting, DpiByteOffset(profile), if Has80(b) then Or80(value) else value)
  }

  /**
   * The DPI byte of an available page: enabled iff bit 7 is clear;
   * setProfileEnabled touches bit 7 only; setProfileDpi replaces the value but
   * keeps bit 7 (0x80 with 5 becomes 0x85); profileDpi is the low nibble.
   */
  lemma DpiByteFields(s: Store, profile: int, enabled: bool, value: int)
    requires Wf(s) && 0 <= profile < MaxProfile && 0 <= value < 0x80
    requires Fetch(s, Lighting).1.Some?
    ensures var b := Fetch(s, Lighting).1.value[DpiByteOffset(profile)];
            var off := DpiByteOffset(profile);
            var e := SetProfileEnabled(s, profile, enabled);
            var d := SetProfileDpi(s, profile, value);
            && ProfileEnabled(s, profile).1 == (b < 0x80)
            && ProfileDpi(s, profile).1 == b % 0x10
            && InCache(e, Lighting) && CachedPage(e, Lighting)[off] == (if enabled then b % 0x80 else b % 0x80 + 0x80)
            && InCache(d, Lighting) && CachedPage(d, Lighting)[off] == (if b >= 0x80 then value + 0x80 else value)
  {
    var off := DpiByteOffset(profile);
    var (t, b) := ReadByte(s, Lighting, off);
    DpiByteBits(b, value);
    WriteByteCached(t, Lighting, off, if enabled then And7F(b) else Or80(b));
    WriteByteCached(t, Lighting, off, if Has80(b) then Or80(value) else value);
  }

  /** The bit operations on a DPI byte b and a new value below 0x80. */
  lemma DpiByteBits(b: Byte, value: int)
    requires 0 <= value < 0x80
    ensures Has80(b) <==> b >= 0x80
    ensures Low8(And7F(b)) == b % 0x80
    ensures Low8(Or80(b)) == b % 0x80 + 0x80
    ensures Low8(if Has80(b) then Or80(value) else value) == if b >= 0x80 then value + 0x80 else value
  {
  }

  /** When the Lighting page cannot be had, a profile reads as disabled with DPI 15, never -1. */
  lemma DpiByteUnavailable(s: Store, profile: int)
    requires Wf(s) && 0 <= profile < MaxProfile
    requires Fetch(s, Lighting).1.None?
    ensures !ProfileEnabled(s, profile).1 && ProfileDpi(s, profile).1 == 15
  {
  }

  /** A fresh Lighting page whose bytes after the tag are all zero. */
  function BlankLighting(): (page: seq<Byte>)
    ensures Fits(Lighting, page)
  {
    [Tag(Lighting)] + Zeros(PageSize(Lighting) - 1)
  }

  /**
   * setProfileEnabled asks the device twice when the page is not cached: if
   * the first request fails and the second succeeds, the failed read's -1 is
   * what gets masked and stored: "enable" writes 0x7F and "disable" 0xFF
   * (`-1 | 0x80` truncated to a char), and either way the DPI nibble becomes
   * 15 although the device held 0.
   */
  lemma SetProfileEnabledAfterFailedRead(l: Link, enabled: bool)
    requires l.replies == [None, Some(BlankLighting())]
    ensures var u := SetProfileEnabled(Store(Missing, Missing, Missing, l), 0, enabled);
            && InCache(u, Lighting) && CachedPage(u, Lighting)[DpiByteOffset(0)] == (if enabled then 0x7F else 0xFF)
            && IsDirty(u, Lighting)
            && ProfileEnabled(u, 0).1 == enabled
            && ProfileDpi(u, 0).1 == 15
  {
    var s := Store(Missing, Missing, Missing, l);
    var (t, b) := ReadByte(s, Lighting, DpiByteOffset(0));
    assert b == -1;
    assert Fetch(t, Lighting).1 == Some(BlankLighting());
  }

  // ---------------------------------------------------------------- unsavedChanges, save

  // ---------------------------------------------------------------- writePage

  /** writePage: send a page's worth of bytes; it succeeded only if all of them went out. */
  function WritePage(l: Link, data: seq<Byte>, p: Page): (r: (Link, bool))
    ensures r.0 == Send(l, data).0
    ensures r.1 <==> Send(l, data).1 == PageSize(p)
  {
    var (link, sent) := Send(l, data);
    (link, sent == PageSize(p))
  }

  /** unsavedChanges: some page is dirty, which is when save has something to send. */
  predicate UnsavedChanges(s: Store): (b: bool)
    ensures b <==> Flushes(s, PageOrder) != []
  {
    assert Flushes(s, PageOrder) != [] <==> IsDirty(s, Lighting) || IsDirty(s, Buttons) || IsDirty(s, Profile) by {
      assert PageOrder[1..] == [Buttons, Profile] && [Buttons, Profile][1..] == [Profile] && [Profile][1..] == [];
      assert Flushes(s, [Profile]) != [] <==> IsDirty(s, Profile);
      assert Flushes(s, [Buttons, Profile]) != [] <==> IsDirty(s, Buttons) || IsDirty(s, Profile);
    }
    exists p :: IsDirty(s, p)
  }

  /** The Set_Report requests that flushing `pages` in order would issue. */
  function Flushes(s: Store, pages: seq<Page>): seq<Request>
  {
    if pages == [] then []
    else if IsDirty(s, pages[0]) then [SetReport(CachedPage(s, pages[0]))] + Flushes(s, pages[1..])
    else Flushes(s, pages[1..])
  }

  /** The store with the cached page p marked clean. */
  function Clean(s: Store, p: Page): Store
    requires InCache(s, p)
  {
    WithSlot(s, p, Cached(CachedPage(s, p), false))
  }

  /** Two stores cache the same pages with the same bytes. */
  predicate SamePages(s: Store, t: Store)
  {
    forall q :: InCache(s, q) == InCache(t, q) && (InCache(s, q) ==> CachedPage(s, q) == CachedPage(t, q))
  }

  /**
   * save over the remaining pages, in order: clean or uncached pages are
   * skipped, a dirty page is sent whole and becomes clean only when every byte
   * went out, and the first short write ends the run with false.
   */
  function SaveFrom(s: Store, pages: seq<Page>): (r: (Store, bool))
    requires Wf(s)
    ensures Wf(r.0)
    decreases |pages|
  {
    if pages == [] then (s, true)
    else
      var p := pages[0];
      if !IsDirty(s, p) then SaveFrom(s, pages[1..])
      else
        var (link, ok) := WritePage(s.link, CachedPage(s, p), p);
        if ok then SaveFrom(Clean(s, p).(link := link), pages[1..])
        else (s.(link := link), false)
  }

  /** save: flush the cached pages in ascending tag order. */
  function Save(s: Store): (r: (Store, bool))
    requires Wf(s)
    ensures Wf(r.0)
  {
    SaveFrom(s, PageOrder)
  }

  /** A save run never touches the cached bytes. */
  lemma {:induction false} SaveFromKeepsPages(s: Store, pages: seq<Page>)
    requires Wf(s)
    ensures SamePages(s, SaveFrom(s, pages).0)
    decreases |pages|
  {
    if pages != [] {
      var p := pages[0];
      if !IsDirty(s, p) {
        SaveFromKeepsPages(s, pages[1..]);
      } else {
        var (link, ok) := WritePage(s.link, CachedPage(s, p), p);
        if ok {
          SaveFromKeepsPages(Clean(s, p).(link := link), pages[1..]);
        }
      }
    }
  }

  /** A save run never raises a flag, and the flags of pages it does not visit stay as they were. */
  lemma {:induction false} SaveFromFlags(s: Store, pages: seq<Page>)
    requires Wf(s)
    ensures var t := SaveFrom(s, pages).0;
            && (forall p :: IsDirty(t, p) ==> IsDirty(s, p))
            && (forall p :: p !in pages ==> IsDirty(t, p) == IsDirty(s, p))
    decreases |pages|
  {
    if pages != [] {
      var p := pages[0];
      if !IsDirty(s, p) {
        SaveFromFlags(s, pages[1..]);
      } else {
        var (link, ok) := WritePage(s.link, CachedPage(s, p), p);
        if ok {
          SaveFromFlags(Clean(s, p).(link := link), pages[1..]);
        }
      }
    }
  }

  /** A save run never touches the cached bytes and never raises a flag. */
  lemma SaveFromFrame(s: Store, pages: seq<Page>)
    requires Wf(s)
    ensures var t := SaveFrom(s, pages).0;
            && SamePages(s, t)
            && (forall p :: IsDirty(t, p) ==> IsDirty(s, p))
            && (forall p :: p !in pages ==> IsDirty(t, p) == IsDirty(s, p))
  {
    SaveFromKeepsPages(s, pages);
    SaveFromFlags(s, pages);
  }

  predicate Distinct(pages: seq<Page>)
  {
    forall i, j :: 0 <= i < j < |pages| ==> pages[i] != pages[j]
  }

  /** Flushes only looks at the pages listed. */
  lemma {:induction false} FlushesFrame(s: Store, t: Store, pages: seq<Page>)
    requires forall i :: 0 <= i < |pages| ==> SlotOf(s, pages[i]) == SlotOf(t, pages[i])
    ensures Flushes(s, pages) == Flushes(t, pages)
    decreases |pages|
  {
    if pages != [] {
      FlushesFrame(s, t, pages[1..]);
    }
  }

  /**
   * A successful save of distinct pages sent exactly the dirty ones, whole and
   * in list order, and left every one of them clean.
   */
  lemma {:induction false} SaveFromSucceeds(s: Store, pages: seq<Page>)
    requires Wf(s) && Distinct(pages)
    ensures var (t, ok) := SaveFrom(s, pages);
            ok ==> t.link.log == s.link.log + Flushes(s, pages) && forall p :: p in pages ==> !IsDirty(t, p)
    decreases |pages|
  {
    if pages != [] {
      var p := pages[0];
      var rest := pages[1..];
      assert Distinct(rest);
      if !IsDirty(s, p) {
        SaveFromSucceeds(s, rest);
        SaveFromFrame(s, rest);
      } else {
        var (link, ok) := WritePage(s.link, CachedPage(s, p), p);
        if ok {
          var s' := Clean(s, p).(link := link);
          SaveFromSucceeds(s', rest);
          SaveFromFrame(s', rest);
          assert forall i :: 0 <= i < |rest| ==> rest[i] != p by {
            forall i | 0 <= i < |rest| ensures rest[i] != p { assert rest[i] == pages[i + 1]; }
          }
          FlushesFrame(s, s', rest);
        }
      }
    }
  }

  /**
   * A save run from s to t that stopped at the dirty page pages[k]: the dirty
   * pages up to and including it were sent, those before it are clean, it and
   * every later page keep their flags.
   */
  predicate StoppedAt(s: Store, t: Store, pages: seq<Page>, k: int)
    requires 0 <= k < |pages|
  {
    && IsDirty(s, pages[k]) && IsDirty(t, pages[k])
    && t.link.log == s.link.log + Flushes(s, pages[..k + 1])
    && (forall i :: 0 <= i < k ==> !IsDirty(t, pages[i]))
    && (forall i :: k < i < |pages| ==> IsDirty(t, pages[i]) == IsDirty(s, pages[i]))
  }

  /** A run that leaves a page aside and goes on with the rest has the same log, shifted by one place. */
  lemma SkipKeepsStop(s: Store, t: Store, pages: seq<Page>, k: int)
    requires Wf(s) && 0 <= k < |pages| - 1 && StoppedAt(s, t, pages[1..], k)
    requires !IsDirty(s, pages[0]) && !IsDirty(t, pages[0])
    ensures StoppedAt(s, t, pages, k + 1)
  {
    assert pages[..k + 2] == [pages[0]] + pages[1..][..k + 1];
    assert Flushes(s, pages[..k + 2]) == Flushes(s, pages[1..][..k + 1]);
  }

  /** A run that sent a page and goes on with the rest: that page's request heads the log. */
  lemma SendKeepsStop(s: Store, s': Store, t: Store, pages: seq<Page>, k: int)
    requires Wf(s) && 0 <= k < |pages| - 1 && Distinct(pages)
    requires IsDirty(s, pages[0])
    requires s' == Clean(s, pages[0]).(link := s'.link)
    requires s'.link.log == s.link.log + [SetReport(CachedPage(s, pages[0]))]
    requires StoppedAt(s', t, pages[1..], k)
    requires !IsDirty(t, pages[0])
    ensures StoppedAt(s, t, pages, k + 1)
  {
    var p, rest := pages[0], pages[1..];
    assert pages[..k + 2] == [p] + rest[..k + 1];
    var sent := rest[..k + 1];
    assert forall i :: 0 <= i < |sent| ==> sent[i] != p by {
      forall i | 0 <= i < |sent| ensures sent[i] != p { assert sent[i] == pages[i + 1]; }
    }
    FlushesFrame(s, s', sent);
    forall i | k + 1 < i < |pages|
      ensures IsDirty(t, pages[i]) == IsDirty(s, pages[i])
    {
      assert pages[i] == rest[i - 1] && pages[i] != p;
    }
  }

  /**
   * A save of distinct pages that fails stopped at a dirty page k: the dirty
   * pages up to and including k were sent, those before k are clean, and k and
   * every later page keep their flags.
   */
  lemma {:induction false} SaveFromFails(s: Store, pages: seq<Page>)
    requires Wf(s) && Distinct(pages)
    ensures var (t, ok) := SaveFrom(s, pages);
            !ok ==> exists k :: 0 <= k < |pages| && StoppedAt(s, t, pages, k)
    decreases |pages|
  {
    if pages != [] {
      var p := pages[0];
      var rest := pages[1..];
      assert Distinct(rest);
      if !IsDirty(s, p) {
        SaveFromFails(s, rest);
        SaveFromFrame(s, rest);
        var (t, ok) := SaveFrom(s, rest);
        if !ok {
          var k :| 0 <= k < |rest| && StoppedAt(s, t, rest, k);
          SkipKeepsStop(s, t, pages, k);
        }
      } else {
        var (link, ok) := WritePage(s.link, CachedPage(s, p), p);
        if ok {
          var s' := Clean(s, p).(link := link);
          SaveFromFails(s', rest);
          SaveFromFrame(s', rest);
          var (t, ok) := SaveFrom(s', rest);
          if !ok {
            var k :| 0 <= k < |rest| && StoppedAt(s', t, rest, k);
            SendKeepsStop(s, s', t, pages, k);
          }
        } else {
          var t := s.(link := link);
          assert pages[..1] == [p];
          assert Flushes(s, [p]) == [SetReport(CachedPage(s, p))];
          assert t.link.log == s.link.log + Flushes(s, pages[..1]);
          assert forall q :: SlotOf(t, q) == SlotOf(s, q);
          assert StoppedAt(s, t, pages, 0);
        }
      }
    }
  }

  /** save with no dirty page issues no request at all and reports success. */
  lemma {:induction false} SaveCleanSendsNothing(s: Store, pages: seq<Page>)
    requires Wf(s)
    requires forall p :: !IsDirty(s, p)
    ensures SaveFrom(s, pages) == (s, true)
    decreases |pages|
  {
    if pages != [] {
      SaveCleanSendsNothing(s, pages[1..]);
    }
  }

  /**
   * save visits the pages in ascending tag order (Lighting, Buttons, Profile);
   * after a success nothing is unsaved; with nothing unsaved it sends nothing.
   */
  lemma SaveOrder(s: Store)
    requires Wf(s)
    ensures var (t, ok) := Save(s);
            && (ok ==> t.link.log == s.link.log + Flushes(s, [Lighting, Buttons, Profile]))
            && (ok ==> !UnsavedChanges(t))
            && (!UnsavedChanges(s) ==> t == s && ok)
  {
    assert Distinct(PageOrder);
    Layout.PageOrderAscending();
    SaveFromSucceeds(s, PageOrder);
    if !UnsavedChanges(s) {
      SaveCleanSendsNothing(s, PageOrder);
    }
  }

  // ---------------------------------------------------------------- backup and restore

  function TotalSize(pages: seq<Page>): nat
  {
    if pages == [] then 0 else PageSize(pages[0]) + TotalSize(pages[1..])
  }

  predicate AllCached(s: Store, pages: seq<Page>)
  {
    forall i :: 0 <= i < |pages| ==> InCache(s, pages[i])
  }

  /** The cached copies of the listed pages, end to end. */
  function Joined(s: Store, pages: seq<Page>): (blob: seq<Byte>)
    requires Wf(s) && AllCached(s, pages)
    ensures |blob| == TotalSize(pages)
  {
    if pages == [] then [] else CachedPage(s, pages[0]) + Joined(s, pages[1..])
  }

  /** backupConfig over the remaining pages: read each, append it to the blob, stop at the first failure. */
  function BackupFrom(s: Store, pages: seq<Page>, blob: seq<Byte>): (r: (Store, bool, seq<Byte>))
    requires Wf(s)
    ensures Wf(r.0)
    ensures forall q :: InCache(s, q) ==> InCache(r.0, q) && CachedPage(r.0, q) == CachedPage(s, q)
    decreases |pages|
  {
    if pages == [] then (s, true, blob)
    else
      var (t, page) := Fetch(s, pages[0]);
      if page.None? then (t, false, blob)
      else BackupFrom(t, pages[1..], blob + page.value)
  }

  /** backupConfig: Lighting, Profile, Buttons, concatenated. */
  function Backup(s: Store): (r: (Store, bool, seq<Byte>))
    requires Wf(s)
    ensures Wf(r.0)
  {
    BackupFrom(s, BackupOrder, [])
  }

  /**
   * A successful backup run appends the pages as cached at its end, in order.
   */
  lemma {:induction false} BackupFromOutcome(s: Store, pages: seq<Page>, blob: seq<Byte>)
    requires Wf(s)
    ensures var (t, ok, out) := BackupFrom(s, pages, blob);
            ok ==> AllCached(t, pages) && out == blob + Joined(t, pages)
    decreases |pages|
  {
    if pages != [] {
      var (t, page) := Fetch(s, pages[0]);
      if page.Some? {
        BackupFromOutcome(t, pages[1..], blob + page.value);
        var (u, ok, out) := BackupFrom(t, pages[1..], blob + page.value);
        if ok {
          assert out == blob + (page.value + Joined(u, pages[1..]));
        }
      }
    }
  }

  /** A backup of pages that are all cached asks the device nothing. */
  lemma {:induction false} BackupFromCache(s: Store, pages: seq<Page>, blob: seq<Byte>)
    requires Wf(s) && AllCached(s, pages)
    ensures BackupFrom(s, pages, blob) == (s, true, blob + Joined(s, pages))
    decreases |pages|
  {
    if pages != [] {
      assert AllCached(s, pages[1..]) by {
        forall i | 0 <= i < |pages[1..]| ensures InCache(s, pages[1..][i]) {
          assert pages[1..][i] == pages[i + 1];
        }
      }
      BackupFromCache(s, pages[1..], blob + CachedPage(s, pages[0]));
      assert Fetch(s, pages[0]) == (s, Some(CachedPage(s, pages[0])));
      assert blob + CachedPage(s, pages[0]) + Joined(s, pages[1..]) == blob + Joined(s, pages);
    } else {
      assert blob + [] == blob;
    }
  }

  /** restoreConfig over the remaining segments: check the tag, send the segment, stop at the first failure. */
  function RestoreFrom(l: Link, src: seq<Byte>, pages: seq<Page>): (r: (Link, bool))
    requires |src| == TotalSize(pages)
    ensures r.0.replies == l.replies
    ensures |l.log| <= |r.0.log| && r.0.log[..|l.log|] == l.log
    ensures r.1 ==> |r.0.log| == |l.log| + |pages|
    decreases |pages|
  {
    if pages == [] then (l, true)
    else
      var p := pages[0];
      var segment := src[..PageSize(p)];
      if segment[0] != Tag(p) then (l, false)
      else
        var (link, ok) := WritePage(l, segment, p);
        if !ok then (link, false)
        else RestoreFrom(link, src[PageSize(p)..], pages[1..])
  }

  /**
   * restoreConfig: a source of the wrong size is refused before anything is
   * sent; restore asks the device for nothing and only adds requests to the
   * log, one Set_Report per page when it succeeds.
   */
  function Restore(l: Link, src: seq<Byte>): (r: (Link, bool))
    ensures r.0.replies == l.replies
    ensures |l.log| <= |r.0.log| && r.0.log[..|l.log|] == l.log
    ensures r.1 ==> |src| == BackupSize && |r.0.log| == |l.log| + 3
  {
    if |src| != BackupSize then (l, false)
    else
      assert TotalSize(BackupOrder) == BackupSize;
      RestoreFrom(l, src, BackupOrder)
  }

  /** The Set_Report requests that send the listed cached pages verbatim. */
  function Sends(s: Store, pages: seq<Page>): seq<Request>
    requires AllCached(s, pages)
  {
    if pages == [] then [] else [SetReport(CachedPage(s, pages[0]))] + Sends(s, pages[1..])
  }

  /**
   * Restoring pages joined end to end, on a device that accepts every byte of
   * each, sends each page verbatim, in order, and succeeds.
   */
  lemma {:induction false} RestoreJoined(l: Link, s: Store, pages: seq<Page>)
    requires Wf(s) && AllCached(s, pages)
    requires |pages| <= |l.counts| && forall i :: 0 <= i < |pages| ==> l.counts[i] == PageSize(pages[i])
    ensures RestoreFrom(l, Joined(s, pages), pages)
            == (l.(log := l.log + Sends(s, pages), counts := l.counts[|pages|..]), true)
    decreases |pages|
  {
    if pages != [] {
      var p := pages[0];
      var page := CachedPage(s, p);
      var src := Joined(s, pages);
      assert src[..PageSize(p)] == page;
      assert src[PageSize(p)..] == Joined(s, pages[1..]);
      var (link, ok) := WritePage(l, page, p);
      assert AllCached(s, pages[1..]) by {
        forall i | 0 <= i < |pages[1..]| ensures InCache(s, pages[1..][i]) {
          assert pages[1..][i] == pages[i + 1];
        }
      }
      assert forall i :: 0 <= i < |pages[1..]| ==> link.counts[i] == PageSize(pages[1..][i]) by {
        forall i | 0 <= i < |pages[1..]| ensures link.counts[i] == PageSize(pages[1..][i]) {
          assert link.counts[i] == l.counts[i + 1] && pages[1..][i] == pages[i + 1];
        }
      }
      RestoreJoined(link, s, pages[1..]);
      assert ok;
      assert RestoreFrom(l, src, pages) == RestoreFrom(link, Joined(s, pages[1..]), pages[1..]);
      assert link.log == l.log + [SetReport(page)];
      Appended(l.log, [SetReport(page)], Sends(s, pages[1..]), link.log, link.log + Sends(s, pages[1..]));
      assert link.counts[|pages[1..]|..] == l.counts[|pages|..];
    } else {
      assert l.log + [] == l.log && l.counts[0..] == l.counts;
    }
  }

  /** All three pages are cached. */
  predicate AllThree(s: Store)
  {
    InCache(s, Lighting) && InCache(s, Profile) && InCache(s, Buttons)
  }

  /** The backup blob of cached pages: Lighting, Profile, Buttons, tags at 0, 59 and 68. */
  lemma JoinedBackup(s: Store)
    requires Wf(s) && AllThree(s)
    ensures AllCached(s, BackupOrder)
    ensures var blob := Joined(s, BackupOrder);
            blob == CachedPage(s, Lighting) + CachedPage(s, Profile) + CachedPage(s, Buttons)
            && |blob| == BackupSize && blob[0] == 4 && blob[59] == 8 && blob[68] == 6
  {
    var rest := BackupOrder[1..];
    assert rest[1..][1..] == [];
    assert Joined(s, rest[1..]) == CachedPage(s, Buttons);
  }

  /**
   * A successful backup is the 1213 bytes of Lighting, Profile and Buttons as
   * cached afterwards, each segment starting with its tag; a backup of pages
   * already cached asks the device nothing.
   */
  lemma BackupLayout(s: Store)
    requires Wf(s)
    ensures var (t, ok, blob) := Backup(s);
            && (ok ==> AllThree(t)
                       && blob == CachedPage(t, Lighting) + CachedPage(t, Profile) + CachedPage(t, Buttons)
                       && |blob| == BackupSize && blob[0] == 4 && blob[59] == 8 && blob[68] == 6)
            && (AllThree(s) ==> t == s && ok)
  {
    BackupFromOutcome(s, BackupOrder, []);
    var (t, ok, blob) := Backup(s);
    if ok {
      assert Lighting == BackupOrder[0] && Profile == BackupOrder[1] && Buttons == BackupOrder[2];
      JoinedBackup(t);
    }
    if AllThree(s) {
      JoinedBackup(s);
      BackupFromCache(s, BackupOrder, []);
    }
  }

  /** Restoring the three cached pages, joined in backup order, sends them back verbatim. */
  lemma RestoreBackupBlob(l: Link, s: Store)
    requires Wf(s) && AllThree(s)
    requires |l.counts| >= 3 && l.counts[0] == 59 && l.counts[1] == 9 && l.counts[2] == 1145
    ensures Restore(l, CachedPage(s, Lighting) + CachedPage(s, Profile) + CachedPage(s, Buttons))
            == (l.(log := l.log + [SetReport(CachedPage(s, Lighting)), SetReport(CachedPage(s, Profile)), SetReport(CachedPage(s, Buttons))],
                   counts := l.counts[3..]), true)
  {
    JoinedBackup(s);
    RestoreJoined(l, s, BackupOrder);
    var rest := BackupOrder[1..];
    assert rest[1..][1..] == [];
    assert Sends(s, rest[1..]) == [SetReport(CachedPage(s, Buttons))];
    assert Sends(s, BackupOrder) == [SetReport(CachedPage(s, Lighting)), SetReport(CachedPage(s, Profile)), SetReport(CachedPage(s, Buttons))];
  }

  /**
   * Backup then restore reproduces the pages: restoring a blob that backup
   * produced, on a device that accepts every byte, sends the three cached
   * pages verbatim, in backup order, and nothing else.
   */
  lemma BackupThenRestore(s: Store, l: Link)
    requires Wf(s) && Backup(s).1
    requires |l.counts| >= 3 && l.counts[0] == 59 && l.counts[1] == 9 && l.counts[2] == 1145
    ensures var (t, _, blob) := Backup(s);
            var (l', ok) := Restore(l, blob);
            && ok && AllThree(t)
            && l'.log == l.log + [SetReport(CachedPage(t, Lighting)), SetReport(CachedPage(t, Profile)), SetReport(CachedPage(t, Buttons))]
            && l'.replies == l.replies && l'.counts == l.counts[3..]
  {
    BackupLayout(s);
    var t := Backup(s).0;
    RestoreBackupBlob(l, t);
  }

  /** The segments restore cuts from src, one per page, in order. */
  function Segments(src: seq<Byte>, pages: seq<Page>): (segs: seq<seq<Byte>>)
    requires |src| == TotalSize(pages)
    ensures |segs| == |pages|
    ensures forall i :: 0 <= i < |pages| ==> |segs[i]| == PageSize(pages[i])
    decreases |pages|
  {
    if pages == [] then [] else [src[..PageSize(pages[0])]] + Segments(src[PageSize(pages[0])..], pages[1..])
  }

  /** The Set_Report requests that send the segments verbatim, in order. */
  function Reports(segs: seq<seq<Byte>>): (r: seq<Request>)
    ensures |r| == |segs|
  {
    if segs == [] then [] else [SetReport(segs[0])] + Reports(segs[1..])
  }

  /**
   * restoreConfig stops at the first segment k whose tag is wrong or that is
   * not sent whole: the segments before k went out verbatim, in order;
   * segment k went out only when its tag was right; nothing after it was
   * sent, and the result is false.
   */
  lemma {:induction false} RestoreFromStops(l: Link, src: seq<Byte>, pages: seq<Page>, k: nat)
    requires |src| == TotalSize(pages) && k < |pages|
    requires forall i :: 0 <= i < k ==> Segments(src, pages)[i][0] == Tag(pages[i])
    requires k <= |l.counts| && forall i :: 0 <= i < k ==> l.counts[i] == PageSize(pages[i])
    requires Segments(src, pages)[k][0] != Tag(pages[k]) || k == |l.counts| || l.counts[k] != PageSize(pages[k])
    ensures var segs := Segments(src, pages);
            var (l', ok) := RestoreFrom(l, src, pages);
            && !ok && l'.replies == l.replies
            && l'.log == l.log + Reports(segs[..k]) + (if segs[k][0] == Tag(pages[k]) then [SetReport(segs[k])] else [])
    decreases k
  {
    var segs := Segments(src, pages);
    var p := pages[0];
    var rest := src[PageSize(p)..];
    assert segs[0] == src[..PageSize(p)];
    if k == 0 {
      assert segs[..0] == [];
    } else {
      var (link, ok) := WritePage(l, segs[0], p);
      assert ok && link.log == l.log + [SetReport(segs[0])] && link.replies == l.replies;
      assert RestoreFrom(l, src, pages) == RestoreFrom(link, rest, pages[1..]);
      var tail := Segments(rest, pages[1..]);
      assert tail == segs[1..];
      forall i | 0 <= i < k - 1
        ensures tail[i][0] == Tag(pages[1..][i]) && link.counts[i] == PageSize(pages[1..][i])
      {
        assert tail[i] == segs[i + 1] && pages[1..][i] == pages[i + 1] && link.counts[i] == l.counts[i + 1];
      }
      assert tail[k - 1] == segs[k] && pages[1..][k - 1] == pages[k];
      assert k - 1 < |link.counts| ==> link.counts[k - 1] == l.counts[k];
      RestoreFromStops(link, rest, pages[1..], k - 1);
      var sent := Reports(tail[..k - 1]);
      ReportsPrefix(segs, k);
      Appended(l.log, [SetReport(segs[0])], sent, link.log, link.log + sent);
    }
  }

  /** The reports of the first k segments: the first segment's, then those of the next k - 1. */
  lemma ReportsPrefix(segs: seq<seq<Byte>>, k: nat)
    requires 0 < k <= |segs|
    ensures Reports(segs[..k]) == [SetReport(segs[0])] + Reports(segs[1..][..k - 1])
  {
    assert segs[..k][1..] == segs[1..][..k - 1];
  }

  /**
   * restore refuses a source of the wrong size before sending anything, and
   * never sends a segment whose first byte is not its page's tag, nor
   * anything after it: a wrong Lighting tag sends nothing, a wrong Profile
   * tag at byte 59 sends only the Lighting segment, a wrong Buttons tag at
   * byte 68 sends only the Lighting and Profile segments.
   */
  lemma RestoreChecksTags(l: Link, src: seq<Byte>)
    ensures |src| != BackupSize ==> Restore(l, src) == (l, false)
    ensures |src| == BackupSize && src[0] != Tag(Lighting) ==> Restore(l, src) == (l, false)
    ensures |src| == BackupSize && src[0] == Tag(Lighting) && src[59] != Tag(Profile)
            && |l.counts| >= 1 && l.counts[0] == 59 ==>
              Restore(l, src) == (l.(log := l.log + [SetReport(src[..59])], counts := l.counts[1..]), false)
    ensures |src| == BackupSize && src[0] == Tag(Lighting) && src[59] == Tag(Profile) && src[68] != Tag(Buttons)
            && |l.counts| >= 2 && l.counts[0] == 59 && l.counts[1] == 9 ==>
              Restore(l, src) == (l.(log := l.log + [SetReport(src[..59]), SetReport(src[59..68])], counts := l.counts[2..]), false)
  {
    if |src| == BackupSize && src[0] == Tag(Lighting) && |l.counts| >= 1 && l.counts[0] == 59 {
      var rest := src[59..];
      assert rest[0] == src[59] && rest[..9] == src[59..68] && rest[9..][0] == src[68];
      var (link, _) := WritePage(l, src[..59], Lighting);
      assert RestoreFrom(l, src, BackupOrder) == RestoreFrom(link, rest, BackupOrder[1..]);
      if rest[0] == Tag(Profile) && |l.counts| >= 2 && l.counts[1] == 9 {
        var (link2, _) := WritePage(link, rest[..9], Profile);
        assert RestoreFrom(link, rest, BackupOrder[1..]) == RestoreFrom(link2, rest[9..], BackupOrder[2..]);
        assert link2.counts == l.counts[2..];
        assert link2.log == l.log + [SetReport(src[..59]), SetReport(src[59..68])];
      }
    }
  }

  /** The Get_Report requests that reading `pages` in order would issue: one per page not yet cached. */
  function Reads(s: Store, pages: seq<Page>): seq<Request>
  {
    if pages == [] then []
    else if InCache(s, pages[0]) then Reads(s, pages[1..])
    else [GetReport(Tag(pages[0]), PageSize(pages[0]))] + Reads(s, pages[1..])
  }

  /** Reads only looks at whether the listed pages are cached. */
  lemma {:induction false} ReadsFrame(s: Store, t: Store, pages: seq<Page>)
    requires forall i :: 0 <= i < |pages| ==> InCache(s, pages[i]) == InCache(t, pages[i])
    ensures Reads(s, pages) == Reads(t, pages)
    decreases |pages|
  {
    if pages != [] {
      ReadsFrame(s, t, pages[1..]);
    }
  }

  /** Joining one more page of the list: the pages up to k + 1 are the first page and the rest's first k. */
  lemma JoinedStep(s: Store, pages: seq<Page>, k: nat)
    requires Wf(s) && k < |pages| - 1 && InCache(s, pages[0]) && AllCached(s, pages[1..][..k])
    ensures AllCached(s, pages[..k + 1])
    ensures Joined(s, pages[..k + 1]) == CachedPage(s, pages[0]) + Joined(s, pages[1..][..k])
  {
    var done := pages[..k + 1];
    var later := pages[1..][..k];
    assert done[1..] == later;
    forall i | 0 <= i < |done| ensures InCache(s, done[i]) {
      if i > 0 {
        assert done[i] == later[i - 1];
      }
    }
  }

  /**
   * The requests of reading one more page of a distinct list: the first page's
   * own request, if any, then those of the rest, which the first read does not
   * affect.
   */
  lemma ReadsStep(s: Store, t: Store, pages: seq<Page>, k: nat)
    requires Distinct(pages) && k < |pages| - 1
    requires forall q :: q != pages[0] ==> InCache(t, q) == InCache(s, q)
    ensures Reads(s, pages[..k + 2]) == Reads(s, [pages[0]]) + Reads(t, pages[1..][..k + 1])
  {
    var asked := pages[1..][..k + 1];
    forall i | 0 <= i < |asked| ensures InCache(s, asked[i]) == InCache(t, asked[i]) {
      assert asked[i] == pages[i + 1] != pages[0];
    }
    ReadsFrame(s, t, asked);
    assert pages[..k + 2][1..] == asked && pages[..k + 2][0] == pages[0];
  }

  /** A sequence that grew by a, then by b, grew by a + b. */
  lemma Appended<T>(start: seq<T>, a: seq<T>, b: seq<T>, mid: seq<T>, last: seq<T>)
    requires mid == start + a && last == mid + b
    ensures last == start + (a + b)
  {
  }

  /**
   * A backup of distinct pages that fails stopped at a page k that could not
   * be had: the pages before it were read and appended, in order, k is still
   * not cached, and the device was asked for no page after k.
   */
  lemma {:induction false} BackupFromFails(s: Store, pages: seq<Page>, blob: seq<Byte>)
    requires Wf(s) && Distinct(pages)
    ensures var (t, ok, out) := BackupFrom(s, pages, blob);
            !ok ==> exists k :: 0 <= k < |pages| && !InCache(t, pages[k])
                                && AllCached(t, pages[..k]) && out == blob + Joined(t, pages[..k])
                                && t.link.log == s.link.log + Reads(s, pages[..k + 1])
    decreases |pages|
  {
    var (t, ok, out) := BackupFrom(s, pages, blob);
    if pages != [] && !ok {
      var p := pages[0];
      var (t1, page) := Fetch(s, p);
      if page.None? {
        assert pages[..1] == [p] && pages[..0] == [];
        assert !InCache(s, p);
        assert Reads(s, [p]) == [GetReport(Tag(p), PageSize(p))];
        assert AllCached(t, pages[..0]);
        assert out == blob + Joined(t, pages[..0]);
      } else {
        var rest := pages[1..];
        assert Distinct(rest);
        BackupFromFails(t1, rest, blob + page.value);
        var k :| 0 <= k < |rest| && !InCache(t, rest[k])
                 && AllCached(t, rest[..k]) && out == blob + page.value + Joined(t, rest[..k])
                 && t.link.log == t1.link.log + Reads(t1, rest[..k + 1]);
        assert CachedPage(t, p) == page.value;
        JoinedStep(t, pages, k);
        assert forall q :: q != p ==> InCache(t1, q) == InCache(s, q);
        ReadsStep(s, t1, pages, k);
        assert t1.link.log == s.link.log + Reads(s, [p]);
        Appended(blob, page.value, Joined(t, rest[..k]), blob + page.value, out);
        Appended(s.link.log, Reads(s, [p]), Reads(t1, rest[..k + 1]), t1.link.log, t.link.log);
        assert pages[k + 1] == rest[k] && pages[..k + 1 + 1] == pages[..k + 2];
        assert 0 <= k + 1 < |pages| && !InCache(t, pages[k + 1])
               && AllCached(t, pages[..k + 1]) && out == blob + Joined(t, pages[..k + 1])
               && t.link.log == s.link.log + Reads(s, pages[..k + 1 + 1]);
      }
    }
  }
}
