/**
 * The lighting page of the configurator: it shows the Lighting page's effect
 * type, speed, direction, random-colour flag and the seven colour slots, and
 * writes them back. Saving compacts the checked colours into the first slots
 * and stores their count as the light value.
 */
module LightPage {
  import opened Layout
  import opened PageStore
  import Mouse

  /**
   * The widgets of the page: the effect combo (an index into the twelve
   * LightType items, -1 when nothing is selected), the direction combo (0 Up,
   * 1 Down), the speed slider, the random-colour check box, and one colour
   * button and one check box per colour slot.
   */
  datatype LightUi = LightUi(
    lightType: int,
    direction: int,
    speed: int,
    randomColor: bool,
    colors: seq<int>,
    checked: seq<bool>)

  /** One colour button and one check box per colour slot. */
  predicate Shaped(u: LightUi)
  {
    |u.colors| == MaxLightColor && |u.checked| == MaxLightColor
  }

  /** A 0xRRGGBB value. */
  predicate IsRgb(x: int)
  {
    0 <= x <= 0xFF_FFFF
  }

  predicate AllRgb(c: seq<int>)
  {
    forall k :: 0 <= k < |c| ==> IsRgb(c[k])
  }

  /**
   * What save may be given: an effect is selected, the speed fits the low
   * nibble, and every colour is a 0xRRGGBB value.
   */
  predicate Saveable(u: LightUi)
  {
    && Shaped(u)
    && 0 <= u.lightType <= MaxLightType
    && 0 <= u.speed < 0x10
    && AllRgb(u.colors)
  }

  /** The page as constructed: first item of each combo, no colour checked. */
  const InitialUi: LightUi := LightUi(LightOff, 0, 0, false, [0, 0, 0, 0, 0, 0, 0], [false, false, false, false, false, false, false])

  /**
   * How many colour slots load checks for an effect type and a light value:
   * one or two for Steady and Fliker, the value for the effects whose value
   * counts colours, none otherwise.
   */
  function EnabledColors(t: int, value: int): (n: int)
    ensures 0 <= value ==> 0 <= n
    ensures value <= MaxLightColor ==> n <= MaxLightColor
    ensures n > 2 ==> n == value
  {
    if t == LightSteady then 1
    else if t == LightBreathing || t == LightColorfulSteady || t == LightResponse then value
    else if t == LightFliker then 2
    else 0
  }

  /** cbType's setCurrentIndex: an index past the last item selects nothing. */
  function TypeIndex(t: int): (i: int)
    ensures -1 <= i <= MaxLightType
    ensures 0 <= t <= MaxLightType ==> i == t
  {
    if 0 <= t <= MaxLightType then t else -1
  }

  predicate IsStreaming(t: int)
  {
    t == LightColorfulStreaming || t == LightStreaming
  }


  // ---------------------------------------------------------------- load

  /** One pass of the colour loop of load: button i takes lightColor(i), box i is checked when i < enabled. */
  function LoadStep(s: Store, u: LightUi, enabled: int, i: nat): (r: (Store, LightUi))
    requires Wf(s) && Shaped(u) && i < MaxLightColor
    ensures Wf(r.0) && Shaped(r.1)
  {
    var (t, c) := LightColor(s, i);
    (t, u.(colors := u.colors[i := c], checked := u.checked[i := i < enabled]))
  }

  /** The colour loop of load, from slot i on. */
  function LoadColors(s: Store, u: LightUi, enabled: int, i: nat): (r: (Store, LightUi))
    requires Wf(s) && Shaped(u) && i <= MaxLightColor
    ensures Wf(r.0) && Shaped(r.1)
    decreases MaxLightColor - i
  {
    if i == MaxLightColor then (s, u)
    else
      var (t, v) := LoadStep(s, u, enabled, i);
      LoadColors(t, v, enabled, i + 1)
  }

  /**
   * load: fails, leaving the widgets alone, when the light type or the light
   * value cannot be read; otherwise splits the type byte into effect and
   * speed, shows the direction (Up for a non-zero value), the random flag
   * (bit 7 of the value) and the colours.
   */
  function LoadPage(s: Store, u: LightUi): (r: (Store, LightUi, bool))
    requires Wf(s) && Shaped(u)
    ensures Wf(r.0) && Shaped(r.1)
    ensures !r.2 ==> r.1 == u
  {
    var (s1, lt) := ReadByte(s, Lighting, LightTypeOffset);
    var (s2, value) := ReadByte(s1, Lighting, LightValueOffset);
    if lt < 0 || value < 0 then (s2, u, false)
    else
      var t := lt / 0x10;
      var shown := u.(lightType := TypeIndex(t), direction := if value != 0 then 0 else 1,
                      speed := lt % 0x10, randomColor := Has80(value));
      var (s3, v) := LoadColors(s2, shown, EnabledColors(t, value), 0);
      (s3, v, true)
  }

  // ---------------------------------------------------------------- save

  /** The checked colours from slot i on, in slot order. */
  function Compact(u: LightUi, i: nat): (c: seq<int>)
    requires Shaped(u) && i <= MaxLightColor
    ensures |c| <= MaxLightColor - i
    decreases MaxLightColor - i
  {
    if i == MaxLightColor then []
    else if u.checked[i] then [u.colors[i]] + Compact(u, i + 1)
    else Compact(u, i + 1)
  }

  /** The colour loop of save, from slot i on: every checked colour goes to the next free slot. */
  function StoreColors(s: Store, u: LightUi, i: nat, slot: int): (r: Store)
    requires Wf(s) && Saveable(u) && 0 <= slot <= i <= MaxLightColor
    ensures Wf(r)
    decreases MaxLightColor - i
  {
    if i == MaxLightColor then s
    else if u.checked[i] then StoreColors(SetLightColor(s, slot, u.colors[i]), u, i + 1, slot + 1)
    else StoreColors(s, u, i + 1, slot)
  }

  /** Colours are part of what save stores: any effect but a streaming one or random Response. */
  predicate StoresColors(u: LightUi)
  {
    !IsStreaming(u.lightType) && !(u.lightType == LightResponse && u.randomColor)
  }

  /** The type byte save stores, `type << 4 | speed`. */
  function TypeByte(u: LightUi): (b: int)
    requires Saveable(u)
    ensures 0 <= b < 0x100
  {
    u.lightType * 0x10 + u.speed
  }

  /**
   * The light value save stores: a streaming effect its direction (0x80 Up,
   * 0 Down), Response with random colours 0x80, any other effect the number
   * of checked colours.
   */
  function SavedValue(u: LightUi): (v: int)
    requires Shaped(u)
    ensures 0 <= v <= 0x80
  {
    if IsStreaming(u.lightType) then (if u.direction > 0 then 0 else 0x80)
    else if u.lightType == LightResponse && u.randomColor then 0x80
    else |Compact(u, 0)|
  }

  /** The first stage of save: the colour loop, run only for a colour effect. */
  function ColorStage(s: Store, u: LightUi): (r: Store)
    requires Wf(s) && Saveable(u)
    ensures Wf(r)
  {
    if StoresColors(u) then StoreColors(s, u, 0, 0) else s
  }

  /**
   * save: for a colour effect the checked colours go to the first slots;
   * then the type byte `type << 4 | speed` and the light value are written.
   */
  function SavePage(s: Store, u: LightUi): (r: Store)
    requires Wf(s) && Saveable(u)
    ensures Wf(r)
  {
    FinishSave(ColorStage(s, u), TypeByte(u), SavedValue(u))
  }

  /** The two byte writes that end save: the type byte, then the light value. */
  function FinishSave(s: Store, typeByte: int, value: int): (r: Store)
    requires Wf(s)
    ensures Wf(r)
  {
    WriteByte(WriteByte(s, Lighting, LightTypeOffset, typeByte), Lighting, LightValueOffset, value)
  }

  // ---------------------------------------------------------------- the colour slots of a page

  /** The colours c written into a Lighting page from slot `slot` on. */
  function PutColors(page: seq<Byte>, c: seq<int>, slot: int): (r: seq<Byte>)
    requires |page| == PageSize(Lighting) && 0 <= slot && slot + |c| <= MaxLightColor
    ensures |r| == |page|
    decreases |c|
  {
    if c == [] then page else PutColors(PutColor(page, slot, c[0]), c[1..], slot + 1)
  }

  /** Outside the colour slots. */
  predicate OffColors(o: int)
  {
    o < LightColorOffset || LightColorOffset + 3 * MaxLightColor <= o
  }

  /**
   * The colours of `after` are those of `before` with `c` written from slot
   * `slot` on.
   */
  predicate ColorsSpliced(after: seq<Byte>, before: seq<Byte>, slot: int, c: seq<int>)
    requires |after| == |before| == PageSize(Lighting)
  {
    forall j :: 0 <= j < MaxLightColor ==>
      ColorAt(after, j) == if slot <= j < slot + |c| then c[j - slot] else ColorAt(before, j)
  }

  /** Writing one colour, then the rest after it, writes them all. */
  lemma SpliceStep(page: seq<Byte>, after: seq<Byte>, slot: int, x: int, rest: seq<int>)
    requires |page| == |after| == PageSize(Lighting) && 0 <= slot < MaxLightColor && IsRgb(x)
    requires ColorsSpliced(after, PutColor(page, slot, x), slot + 1, rest)
    ensures ColorsSpliced(after, page, slot, [x] + rest)
  {
    forall j | 0 <= j < MaxLightColor
      ensures ColorAt(after, j) == if slot <= j < slot + 1 + |rest| then ([x] + rest)[j - slot] else ColorAt(page, j)
    {
      PutColorAt(page, slot, x, j);
    }
  }

  /** Writing colours puts each into its slot and keeps every other slot. */
  lemma {:induction false} PutColorsWrites(page: seq<Byte>, c: seq<int>, slot: int)
    requires |page| == PageSize(Lighting) && 0 <= slot && slot + |c| <= MaxLightColor && AllRgb(c)
    ensures ColorsSpliced(PutColors(page, c, slot), page, slot, c)
    decreases |c|
  {
    if c != [] {
      PutColorsWrites(PutColor(page, slot, c[0]), c[1..], slot + 1);
      assert c == [c[0]] + c[1..];
      SpliceStep(page, PutColors(page, c, slot), slot, c[0], c[1..]);
    }
  }

  /** Writing colours changes no byte outside the colour slots. */
  lemma {:induction false} PutColorsOff(page: seq<Byte>, c: seq<int>, slot: int)
    requires |page| == PageSize(Lighting) && 0 <= slot && slot + |c| <= MaxLightColor
    ensures forall o :: 0 <= o < |page| && OffColors(o) ==> PutColors(page, c, slot)[o] == page[o]
    decreases |c|
  {
    if c != [] {
      PutColorsOff(PutColor(page, slot, c[0]), c[1..], slot + 1);
    }
  }

  /** A colour depends only on its own three bytes. */
  lemma ColorKept(a: seq<Byte>, b: seq<Byte>, j: int)
    requires |a| == |b| == PageSize(Lighting) && 0 <= j < MaxLightColor
    requires forall o :: LightColorOffset <= o < LightColorOffset + 3 * MaxLightColor ==> a[o] == b[o]
    ensures ColorAt(a, j) == ColorAt(b, j)
  {
    var d := ColorOffset(j);
    assert a[d] == b[d] && a[d + 1] == b[d + 1] && a[d + 2] == b[d + 2];
  }

  /** The checked colours of a saveable page are 0xRRGGBB values. */
  lemma {:induction false} CompactRgb(u: LightUi, i: nat)
    requires Shaped(u) && AllRgb(u.colors) && i <= MaxLightColor
    ensures AllRgb(Compact(u, i))
    decreases MaxLightColor - i
  {
    if i < MaxLightColor {
      CompactRgb(u, i + 1);
      if u.checked[i] {
        var rest := Compact(u, i + 1);
        assert forall k :: 1 <= k < 1 + |rest| ==> ([u.colors[i]] + rest)[k] == rest[k - 1];
      }
    }
  }

  // ---------------------------------------------------------------- on a cached Lighting page

  /**
   * setLightColor on a cached Lighting page stores the colour into its slot
   * of the cached page and sends nothing.
   */
  lemma SetLightColorCached(s: Store, index: int, rgb: int)
    requires Wf(s) && InCache(s, Lighting) && 0 <= index < MaxLightColor && IsRgb(rgb)
    ensures var u := SetLightColor(s, index, rgb);
            && InCache(u, Lighting) && u.link == s.link
            && CachedPage(u, Lighting) == PutColor(CachedPage(s, Lighting), index, rgb)
  {
    var page := CachedPage(s, Lighting);
    var c := ColorOffset(index);
    if page[c] == Red(rgb) && page[c + 1] == Green(rgb) && page[c + 2] == Blue(rgb) {
      assert PutColor(page, index, rgb) == page;
    }
  }

  /**
   * The colour loop of save on a cached Lighting page sends nothing and
   * writes the checked colours, in order, from slot `slot` on.
   */
  lemma {:induction false} StoreColorsCached(s: Store, u: LightUi, i: nat, slot: int)
    requires Wf(s) && Saveable(u) && 0 <= slot <= i <= MaxLightColor && InCache(s, Lighting)
    ensures var t := StoreColors(s, u, i, slot);
            && InCache(t, Lighting) && t.link == s.link
            && CachedPage(t, Lighting) == PutColors(CachedPage(s, Lighting), Compact(u, i), slot)
    decreases MaxLightColor - i
  {
    if i == MaxLightColor {
      assert StoreColors(s, u, i, slot) == s;
      assert Compact(u, i) == [];
    } else if u.checked[i] {
      var s1 := SetLightColor(s, slot, u.colors[i]);
      SetLightColorCached(s, slot, u.colors[i]);
      StoreColorsCached(s1, u, i + 1, slot + 1);
      StoreCheckedColor(s, u, i, slot);
    } else {
      assert StoreColors(s, u, i, slot) == StoreColors(s, u, i + 1, slot);
      assert Compact(u, i) == Compact(u, i + 1);
      StoreColorsCached(s, u, i + 1, slot);
    }
  }

  /** One checked colour of the colour loop of save, given what the rest of the loop does. */
  lemma StoreCheckedColor(s: Store, u: LightUi, i: nat, slot: int)
    requires Wf(s) && Saveable(u) && 0 <= slot <= i < MaxLightColor && InCache(s, Lighting) && u.checked[i]
    requires var s1 := SetLightColor(s, slot, u.colors[i]);
             var t := StoreColors(s1, u, i + 1, slot + 1);
             && InCache(s1, Lighting) && InCache(t, Lighting) && t.link == s1.link
             && CachedPage(t, Lighting) == PutColors(CachedPage(s1, Lighting), Compact(u, i + 1), slot + 1)
    ensures var t := StoreColors(s, u, i, slot);
            && InCache(t, Lighting) && t.link == s.link
            && CachedPage(t, Lighting) == PutColors(CachedPage(s, Lighting), Compact(u, i), slot)
  {
    SetLightColorCached(s, slot, u.colors[i]);
    PutCheckedColor(CachedPage(s, Lighting), u, i, slot);
  }

  /** A checked colour goes to the next free slot, the colours after it to the slots after that. */
  lemma PutCheckedColor(page: seq<Byte>, u: LightUi, i: nat, slot: int)
    requires |page| == PageSize(Lighting) && Saveable(u) && 0 <= slot <= i < MaxLightColor && u.checked[i]
    ensures PutColors(page, Compact(u, i), slot)
         == PutColors(PutColor(page, slot, u.colors[i]), Compact(u, i + 1), slot + 1)
  {
    var c := Compact(u, i);
    assert c[0] == u.colors[i] && c[1..] == Compact(u, i + 1);
  }

  /** The colour stage of save on a cached Lighting page sends nothing and, for a colour effect, writes the checked colours. */
  lemma ColorStageCached(s: Store, u: LightUi)
    requires Wf(s) && Saveable(u) && InCache(s, Lighting)
    ensures var s1 := ColorStage(s, u);
            var page := CachedPage(s, Lighting);
            && InCache(s1, Lighting) && s1.link == s.link
            && CachedPage(s1, Lighting) == if StoresColors(u) then PutColors(page, Compact(u, 0), 0) else page
  {
    if StoresColors(u) {
      StoreColorsCached(s, u, 0, 0);
    }
  }

  /**
   * The Lighting page as save leaves it: for a colour effect the checked
   * colours in the first slots, then the type byte `type << 4 | speed` at 21
   * and the light value at 22.
   */
  function SavedPage(page: seq<Byte>, u: LightUi): (r: seq<Byte>)
    requires |page| == PageSize(Lighting) && Saveable(u)
    ensures |r| == |page|
  {
    var colored := if StoresColors(u) then PutColors(page, Compact(u, 0), 0) else page;
    colored[LightTypeOffset := TypeByte(u)][LightValueOffset := SavedValue(u)]
  }

  /** The two byte writes that end save, on a cached Lighting page, set bytes 21 and 22 and send nothing. */
  lemma FinishCached(s: Store, typeByte: Byte, value: Byte)
    requires Wf(s) && InCache(s, Lighting)
    ensures var t := FinishSave(s, typeByte, value);
            && InCache(t, Lighting) && t.link == s.link
            && CachedPage(t, Lighting) == CachedPage(s, Lighting)[LightTypeOffset := typeByte][LightValueOffset := value]
  {
    WriteByteCached(s, Lighting, LightTypeOffset, typeByte);
    WriteByteCached(WriteByte(s, Lighting, LightTypeOffset, typeByte), Lighting, LightValueOffset, value);
  }

  /** save on a cached Lighting page sends nothing and leaves the page as SavedPage says. */
  lemma SaveCached(s: Store, u: LightUi)
    requires Wf(s) && Saveable(u) && InCache(s, Lighting)
    ensures var t := SavePage(s, u);
            && InCache(t, Lighting) && t.link == s.link
            && CachedPage(t, Lighting) == SavedPage(CachedPage(s, Lighting), u)
  {
    ColorStageCached(s, u);
    FinishCached(ColorStage(s, u), TypeByte(u), SavedValue(u));
  }

  /**
   * save on a cached Lighting page changes no byte of it outside the colour
   * slots and the type and value bytes; a streaming effect or random Response
   * leaves the colour slots alone too.
   */
  lemma SaveTouchesOnly(s: Store, u: LightUi)
    requires Wf(s) && Saveable(u) && InCache(s, Lighting)
    ensures var t := SavePage(s, u);
            var page := CachedPage(s, Lighting);
            && InCache(t, Lighting)
            && (forall o :: 0 <= o < |page| && o != LightTypeOffset && o != LightValueOffset && (OffColors(o) || !StoresColors(u)) ==>
                  CachedPage(t, Lighting)[o] == page[o])
  {
    SaveCached(s, u);
    if StoresColors(u) {
      PutColorsOff(CachedPage(s, Lighting), Compact(u, 0), 0);
    }
  }

  /** The colour loop of load on a cached Lighting page reads the slots from the cache and sends nothing. */
  lemma {:induction false} LoadColorsCached(s: Store, u: LightUi, enabled: int, i: nat)
    requires Wf(s) && Shaped(u) && i <= MaxLightColor && InCache(s, Lighting)
    ensures var (t, v) := LoadColors(s, u, enabled, i);
            && t == s
            && v == u.(colors := v.colors, checked := v.checked)
            && forall j :: 0 <= j < MaxLightColor ==>
                 && v.colors[j] == (if j < i then u.colors[j] else ColorAt(CachedPage(s, Lighting), j))
                 && v.checked[j] == (if j < i then u.checked[j] else j < enabled)
    decreases MaxLightColor - i
  {
    if i < MaxLightColor {
      LoadColorsCached(s, LoadStep(s, u, enabled, i).1, enabled, i + 1);
    }
  }

  /**
   * load reads exactly the two bytes it needs and fails only when the
   * Lighting page cannot be had; a cached page is read without traffic.
   */
  lemma LoadOutcome(s: Store, u: LightUi)
    requires Wf(s) && Shaped(u)
    ensures var (t, v, ok) := LoadPage(s, u);
            && (ok <==> Fetch(s, Lighting).1.Some?)
            && (ok ==> InCache(t, Lighting))
            && (InCache(s, Lighting) ==> t == s && ok)
  {
    var (s1, lt) := ReadByte(s, Lighting, LightTypeOffset);
    var (s2, value) := ReadByte(s1, Lighting, LightValueOffset);
    if lt >= 0 && value >= 0 {
      var t := lt / 0x10;
      var shown := u.(lightType := TypeIndex(t), direction := if value != 0 then 0 else 1,
                      speed := lt % 0x10, randomColor := Has80(value));
      LoadColorsCached(s2, shown, EnabledColors(t, value), 0);
    }
  }

  /**
   * load of a cached Lighting page sends nothing, splits the type byte into
   * effect and speed, and shows the page's colours with the first boxes
   * checked, as many as the effect and the light value enable.
   */
  lemma LoadCached(s: Store, w: LightUi)
    requires Wf(s) && Shaped(w) && InCache(s, Lighting)
    ensures var (t, v, ok) := LoadPage(s, w);
            var page := CachedPage(s, Lighting);
            var lt, value := page[LightTypeOffset], page[LightValueOffset];
            && t == s && ok
            && v.lightType == TypeIndex(lt / 0x10) && v.speed == lt % 0x10
            && v.direction == (if value != 0 then 0 else 1) && v.randomColor == Has80(value)
            && forall j :: 0 <= j < MaxLightColor ==>
                 v.colors[j] == ColorAt(page, j) && (v.checked[j] <==> j < EnabledColors(lt / 0x10, value))
  {
    var page := CachedPage(s, Lighting);
    var lt, value := page[LightTypeOffset], page[LightValueOffset];
    var t := lt / 0x10;
    var shown := w.(lightType := TypeIndex(t), direction := if value != 0 then 0 else 1,
                    speed := lt % 0x10, randomColor := Has80(value));
    LoadColorsCached(s, shown, EnabledColors(t, value), 0);
  }

  /**
   * load of a Lighting page that save produced from `page` gives back the
   * effect and the speed; a streaming effect its direction; Response with
   * random colours its flag; any other effect the checked colours, compacted
   * into the first slots, with as many boxes checked as the effect shows.
   */
  lemma LoadOfSaved(t: Store, page: seq<Byte>, u: LightUi, w: LightUi)
    requires Wf(t) && Saveable(u) && Shaped(w) && InCache(t, Lighting)
    requires |page| == PageSize(Lighting) && CachedPage(t, Lighting) == SavedPage(page, u)
    ensures var (t', v, ok) := LoadPage(t, w);
            && ok && t' == t
            && v.lightType == u.lightType && v.speed == u.speed
            && (IsStreaming(u.lightType) ==> (v.direction == 0 <==> u.direction <= 0))
            && (u.lightType == LightResponse && u.randomColor ==> v.randomColor)
            && (StoresColors(u) ==>
                  var c := Compact(u, 0);
                  && !v.randomColor
                  && (forall j :: 0 <= j < |c| ==> v.colors[j] == c[j])
                  && (forall j :: 0 <= j < MaxLightColor ==> (v.checked[j] <==> j < EnabledColors(u.lightType, |c|))))
  {
    LoadCached(t, w);
    SavedPageBytes(page, u);
    if StoresColors(u) {
      SavedPageColors(page, u);
    }
  }

  /** The type and value bytes of a saved page: effect and speed in the nibbles, bit 7 set only for 0x80. */
  lemma SavedPageBytes(page: seq<Byte>, u: LightUi)
    requires |page| == PageSize(Lighting) && Saveable(u)
    ensures var saved := SavedPage(page, u);
            var lt, value := saved[LightTypeOffset], saved[LightValueOffset];
            && lt / 0x10 == u.lightType && lt % 0x10 == u.speed
            && value == SavedValue(u)
            && (Has80(value) <==> value == 0x80)
  {
    var saved := SavedPage(page, u);
    var lt := saved[LightTypeOffset];
    assert lt == TypeByte(u);
    TypeByteSplit(u);
    var value := saved[LightValueOffset];
    assert value == SavedValue(u);
    Has80Byte(value);
  }

  /** The colour slots of a page saved for a colour effect hold the checked colours, in order. */
  lemma SavedPageColors(page: seq<Byte>, u: LightUi)
    requires |page| == PageSize(Lighting) && Saveable(u) && StoresColors(u)
    ensures var saved, c := SavedPage(page, u), Compact(u, 0);
            forall j :: 0 <= j < |c| ==> ColorAt(saved, j) == c[j]
  {
    var saved, c := SavedPage(page, u), Compact(u, 0);
    CompactRgb(u, 0);
    PutColorsWrites(page, c, 0);
    forall j | 0 <= j < |c|
      ensures ColorAt(saved, j) == c[j]
    {
      ColorKept(PutColors(page, c, 0), saved, j);
    }
  }

  /**
   * save then load on a cached Lighting page sends nothing and gives back
   * what LoadOfSaved lists: one box checked for Steady, two for Fliker, all
   * the stored colours for Breathing, Colorful Steady and Response, none for
   * the rest.
   */
  lemma SaveThenLoad(s: Store, u: LightUi, w: LightUi)
    requires Wf(s) && Saveable(u) && Shaped(w) && InCache(s, Lighting)
    ensures var (t, v, ok) := LoadPage(SavePage(s, u), w);
            && ok && t.link == s.link
            && v.lightType == u.lightType && v.speed == u.speed
            && (IsStreaming(u.lightType) ==> (v.direction == 0 <==> u.direction <= 0))
            && (u.lightType == LightResponse && u.randomColor ==> v.randomColor)
            && (StoresColors(u) ==>
                  var c := Compact(u, 0);
                  && !v.randomColor
                  && (forall j :: 0 <= j < |c| ==> v.colors[j] == c[j])
                  && (forall j :: 0 <= j < MaxLightColor ==> (v.checked[j] <==> j < EnabledColors(u.lightType, |c|))))
  {
    SaveCached(s, u);
    LoadOfSaved(SavePage(s, u), CachedPage(s, Lighting), u, w);
  }

  /** The type byte splits back into the effect and the speed. */
  lemma TypeByteSplit(u: LightUi)
    requires Saveable(u)
    ensures TypeByte(u) / 0x10 == u.lightType && TypeByte(u) % 0x10 == u.speed
  {
  }

  // ---------------------------------------------------------------- the page object

  /** The lighting page's widgets, updated in place by load. */
  class PageLight {
    var lightType: int
    var direction: int
    var speed: int
    var randomColor: bool
    var colors: seq<int>
    var checked: seq<bool>

    function View(): LightUi
      reads this
    {
      LightUi(lightType, direction, speed, randomColor, colors, checked)
    }

    constructor ()
      ensures View() == InitialUi
    {
      lightType, direction, speed, randomColor := LightOff, 0, 0, false;
      colors := [0, 0, 0, 0, 0, 0, 0];
      checked := [false, false, false, false, false, false, false];
    }

    method Load(mice: Mouse.MS794) returns (ok: bool)
      requires mice.Valid() && Shaped(View())
      modifies this, mice, mice.device
      ensures mice.Valid()
      ensures (mice.State(), View(), ok) == LoadPage(old(mice.State()), old(View()))
    {
      var lt := mice.LightType();
      var value := mice.LightValue();
      if lt < 0 || value < 0 {
        return false;
      }
      var t := lt / 0x10;
      lightType := TypeIndex(t);
      direction := if value != 0 then 0 else 1;
      speed := lt % 0x10;
      randomColor := Has80(value);
      ShowColors(mice, EnabledColors(t, value));
      ok := true;
    }

    /** The colour loop of load. */
    method ShowColors(mice: Mouse.MS794, enabled: int)
      requires mice.Valid() && Shaped(View())
      modifies this, mice, mice.device
      ensures mice.Valid()
      ensures (mice.State(), View()) == LoadColors(old(mice.State()), old(View()), enabled, 0)
    {
      ghost var target := LoadColors(mice.State(), View(), enabled, 0);
      var i := 0;
      while i < MaxLightColor
        invariant 0 <= i <= MaxLightColor && mice.Valid() && Shaped(View())
        invariant LoadColors(mice.State(), View(), enabled, i) == target
        decreases MaxLightColor - i
      {
        ShowColor(mice, enabled, i);
        i := i + 1;
      }
    }

    /** One pass of the colour loop of load. */
    method ShowColor(mice: Mouse.MS794, enabled: int, i: int)
      requires mice.Valid() && Shaped(View()) && 0 <= i < MaxLightColor
      modifies this, mice, mice.device
      ensures mice.Valid()
      ensures (mice.State(), View()) == LoadStep(old(mice.State()), old(View()), enabled, i)
    {
      var c := mice.LightColor(i);
      colors := colors[i := c];
      checked := checked[i := i < enabled];
    }

    method Save(mice: Mouse.MS794)
      requires mice.Valid() && Saveable(View())
      modifies mice, mice.device
      ensures mice.Valid()
      ensures mice.State() == SavePage(old(mice.State()), old(View()))
    {
      var u := View();
      ghost var s0 := mice.State();
      var value := SaveColors(mice, u);
      ghost var s1 := mice.State();
      TypeByteSplit(u);
      WriteTypeAndValue(mice, TypeByte(u), value, s1);
    }

    /** The two byte writes that end save. */
    static method WriteTypeAndValue(mice: Mouse.MS794, typeByte: int, value: int, ghost s1: Store)
      requires mice.Valid() && typeByte >= 0 && typeByte / 16 <= MaxLightType && mice.State() == s1
      modifies mice, mice.device
      ensures mice.Valid()
      ensures mice.State() == FinishSave(s1, typeByte, value)
    {
      mice.SetLightType(typeByte);
      mice.SetLightValue(value);
    }

    /** The part of save before the two byte writes: the light value, and the colours for a colour effect. */
    static method SaveColors(mice: Mouse.MS794, u: LightUi) returns (value: int)
      requires mice.Valid() && Saveable(u)
      modifies mice, mice.device
      ensures mice.Valid()
      ensures mice.State() == ColorStage(old(mice.State()), u)
      ensures value == SavedValue(u)
    {
      if IsStreaming(u.lightType) {
        value := if u.direction > 0 then 0 else 0x80;
      } else if u.lightType == LightResponse && u.randomColor {
        value := 0x80;
      } else {
        value := StoreCheckedColors(mice, u);
      }
    }

    /** The colour loop of save: returns how many colours it stored. */
    static method StoreCheckedColors(mice: Mouse.MS794, u: LightUi) returns (count: int)
      requires mice.Valid() && Saveable(u)
      modifies mice, mice.device
      ensures mice.Valid()
      ensures mice.State() == StoreColors(old(mice.State()), u, 0, 0)
      ensures count == |Compact(u, 0)|
    {
      ghost var target := StoreColors(mice.State(), u, 0, 0);
      count := 0;
      var i := 0;
      while i < MaxLightColor
        invariant 0 <= count <= i <= MaxLightColor && mice.Valid()
        invariant StoreColors(mice.State(), u, i, count) == target
        invariant count + |Compact(u, i)| == |Compact(u, 0)|
        decreases MaxLightColor - i
      {
        count := StoreColor(mice, u, i, count);
        i := i + 1;
      }
    }

    /** One pass of the colour loop of save. */
    static method StoreColor(mice: Mouse.MS794, u: LightUi, i: int, count: int) returns (next: int)
      requires mice.Valid() && Saveable(u) && 0 <= count <= i < MaxLightColor
      modifies mice, mice.device
      ensures mice.Valid()
      ensures mice.State() == if u.checked[i] then SetLightColor(old(mice.State()), count, u.colors[i]) else old(mice.State())
      ensures next == if u.checked[i] then count + 1 else count
    {
      next := count;
      if u.checked[i] {
        mice.SetLightColor(count, u.colors[i]);
        next := count + 1;
      }
    }
  }
}
