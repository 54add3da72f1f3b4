/**
 * The editor of one DPI profile: a radio button that makes it the active
 * profile, an "Enabled" check box, a DPI slider with a label showing the DPI
 * of the selected preset, and a colour combo. Loading reads the profile's
 * DPI byte (bit 7 "disabled", low nibble the preset) and its colour index
 * from the Lighting page; saving writes them back in three steps.
 */
module ProfileEditor {
  import opened Wrappers
  import opened Layout
  import opened PageStore
  import opened Transport
  import Mouse

  /** The DPI of each preset; preset 0 is not a setting the slider offers. */
  const DpiTable: seq<int> := [0, 500, 750, 1000, 1250, 1500, 1750, 2000, 2500, 3000, 3500, 4000]

  /** The colours of the colour combo, one item per profile colour index. */
  datatype GlobalColor = Black | Red | Green | Blue | Cyan | Yellow | Magenta | White

  const ProfileColors: seq<GlobalColor> := [Black, Red, Green, Blue, Cyan, Yellow, Magenta, White]

  /** The direct child widgets of the editor, in the order they are created. */
  datatype Child = ActiveButton | EnabledBox | DpiLabel | DpiSlider | ColorLabel | ColorCombo

  const Children: seq<Child> := [ActiveButton, EnabledBox, DpiLabel, DpiSlider, ColorLabel, ColorCombo]

  /**
   * The state of the widgets: the radio button, the check box, whether each
   * child widget is enabled, the slider position, the DPI shown by the label
   * (None before any is shown) and the combo's current index (-1: none).
   */
  datatype ProfileUi = ProfileUi(
    active: bool,
    enabled: bool,
    widgets: seq<bool>,
    slider: int,
    dpiText: Option<int>,
    color: int)

  predicate Formed(u: ProfileUi)
  {
    |u.widgets| == |Children|
  }

  /**
   * The editor as constructed: nothing checked, every child enabled, the
   * slider pulled from 0 to the bottom of its range 1..MaxDpi, an empty label
   * and the first colour.
   */
  const InitialProfile: ProfileUi := ProfileUi(false, false, [true, true, true, true, true, true], 1, None, 0)

  /** The DPI preset table covers the slider range and rises strictly over it. */
  lemma DpiTableShape()
    ensures |DpiTable| == MaxDpi + 1 && DpiTable[0] == 0
    ensures DpiTable[1] == 500 && DpiTable[MaxDpi] == 4000
    ensures forall i, j :: 1 <= i < j <= MaxDpi ==> DpiTable[i] < DpiTable[j]
  {
  }

  /** One palette entry per profile colour index, all different. */
  lemma PaletteShape()
    ensures |ProfileColors| == MaxProfileColor
    ensures forall i, j :: 0 <= i < j < |ProfileColors| ==> ProfileColors[i] != ProfileColors[j]
  {
  }

  /** setCurrentIndex on the colour combo: an index with no item selects nothing. */
  function ComboIndex(c: int): (r: int)
    ensures -1 <= r < |ProfileColors|
    ensures r == c || r == -1
  {
    if 0 <= c < |ProfileColors| then c else -1
  }

  // ---------------------------------------------------------------- onEnableProfile

  /** The enabled state of the children after onEnableProfile: all but the check box follow `enabled`. */
  function EnableChildren(w: seq<bool>, enabled: bool): (r: seq<bool>)
    requires |w| == |Children|
    ensures |r| == |w|
  {
    seq(|w|, k requires 0 <= k < |w| => if Children[k] == EnabledBox then w[k] else enabled)
  }

  /** onEnableProfile: disabling deselects the radio button; every child but the check box follows. */
  function EnableProfile(u: ProfileUi, enabled: bool): (r: ProfileUi)
    requires Formed(u)
    ensures Formed(r)
  {
    u.(active := u.active && enabled, widgets := EnableChildren(u.widgets, enabled))
  }

  /**
   * A disabled profile is never the active one; enabling keeps the radio
   * button as it was; the check box keeps its own enabled state (so it can
   * be checked again) and every other child is enabled exactly when the
   * profile is. The check box, the slider, the label and the colour do not
   * change.
   */
  lemma EnableProfileEffects(u: ProfileUi, enabled: bool)
    requires Formed(u)
    ensures var r := EnableProfile(u, enabled);
            && (r.active <==> u.active && enabled)
            && r.widgets[1] == u.widgets[1]
            && (forall k :: 0 <= k < |Children| && k != 1 ==> r.widgets[k] == enabled)
            && r.enabled == u.enabled && r.slider == u.slider && r.dpiText == u.dpiText && r.color == u.color
  {
    assert Children[1] == EnabledBox;
  }

  /** onEnableProfile a second time with the same value changes nothing, so the toggled signal is harmless. */
  lemma EnableProfileIdempotent(u: ProfileUi, enabled: bool)
    requires Formed(u)
    ensures EnableProfile(EnableProfile(u, enabled), enabled) == EnableProfile(u, enabled)
  {
    var r := EnableProfile(u, enabled);
    assert EnableChildren(r.widgets, enabled) == r.widgets;
  }

  // ---------------------------------------------------------------- load

  /** What the label's lookup `DPI[value]` reads: None past the end of the table. */
  function DpiAt(value: int): (r: Option<int>)
    ensures r.Some? <==> 0 <= value <= MaxDpi
  {
    if 0 <= value < |DpiTable| then Some(DpiTable[value]) else None
  }

  /**
   * The widgets after a successful load: onEnableProfile, then the check box
   * (its toggled signal runs onEnableProfile again when the state changes),
   * the slider pulled into 1..MaxDpi with its preset's DPI in the label, and
   * the colour combo.
   */
  function Show(u: ProfileUi, enabled: bool, dpi: int, color: int): (r: ProfileUi)
    requires Formed(u)
    ensures Formed(r)
  {
    var u1 := EnableProfile(u, enabled);
    var u2 := if u1.enabled != enabled then EnableProfile(u1.(enabled := enabled), enabled) else u1;
    var slider := Clamp(dpi, 1, MaxDpi);
    u2.(slider := slider, dpiText := DpiAt(slider), color := ComboIndex(color))
  }

  /**
   * load: reads the DPI nibble, the enabled bit and the colour index of the
   * profile; fails, leaving the widgets alone, when the DPI or the colour
   * read fails.
   */
  function LoadProfile(s: Store, index: int, u: ProfileUi): (r: (Store, ProfileUi, bool))
    requires Wf(s) && 0 <= index < MaxProfile && Formed(u)
    ensures Wf(r.0) && Formed(r.1)
    ensures !r.2 ==> r.1 == u
  {
    var (s1, dpi) := ProfileDpi(s, index);
    var (s2, enabled) := ProfileEnabled(s1, index);
    var (s3, color) := ReadByte(s2, Lighting, ColorIndexOffset(index));
    if dpi < 0 || color < 0 then (s3, u, false)
    else (s3, Show(u, enabled, dpi, color), true)
  }

  /**
   * The DPI test of load never fails, since profileDpi is a nibble: load
   * succeeds exactly when its colour read finds the Lighting page, which is
   * then cached.
   */
  lemma LoadProfileOutcome(s: Store, index: int, u: ProfileUi)
    requires Wf(s) && 0 <= index < MaxProfile && Formed(u)
    ensures 0 <= ProfileDpi(s, index).1 < 0x10
    ensures var (t, v, ok) := LoadProfile(s, index, u);
            ok <==> InCache(t, Lighting)
  {
    var (s1, b) := ReadByte(s, Lighting, DpiByteOffset(index));
    assert 0 <= And0F(b) < 0x10;
  }

  /**
   * load of a cached Lighting page sends nothing; the check box shows bit 7
   * clear, a disabled profile loses the radio button, the slider shows the
   * DPI nibble pulled into 1..MaxDpi and the label that preset's DPI, and the
   * combo the colour index when it names a palette entry.
   */
  lemma LoadProfileCached(s: Store, index: int, u: ProfileUi)
    requires Wf(s) && 0 <= index < MaxProfile && Formed(u) && InCache(s, Lighting)
    ensures var (t, v, ok) := LoadProfile(s, index, u);
            var b := CachedPage(s, Lighting)[DpiByteOffset(index)];
            var c := CachedPage(s, Lighting)[ColorIndexOffset(index)];
            && ok && t == s
            && (v.enabled <==> b < 0x80)
            && (v.active <==> u.active && b < 0x80)
            && v.slider == Clamp(b % 0x10, 1, MaxDpi)
            && v.dpiText == Some(DpiTable[v.slider])
            && v.color == ComboIndex(c)
  {
    var b := CachedPage(s, Lighting)[DpiByteOffset(index)];
    Has80Byte(b);
    EnableProfileEffects(u, b < 0x80);
    EnableProfileIdempotent(u, b < 0x80);
  }

  /**
   * What load as written shows in the label: `onDpiChanged(dpi)` with the
   * nibble as read, not the slider's value; None where `DPI[dpi]` reads past
   * the twelve entries of the table.
   */
  function LoadedLabelAsWritten(s: Store, index: int): (r: Option<int>)
    requires Wf(s) && 0 <= index < MaxProfile
    ensures r.Some? <==> ProfileDpi(s, index).1 <= MaxDpi
  {
    LoadProfileOutcome(s, index, InitialProfile);
    DpiAt(ProfileDpi(s, index).1)
  }

  /** A cached Lighting page whose first DPI byte is `b`. */
  function PageWithDpi(b: Byte): (page: seq<Byte>)
    ensures Fits(Lighting, page) && page[DpiByteOffset(0)] == b
  {
    [Tag(Lighting), 0, 0, 0, 0, b] + Zeros(PageSize(Lighting) - 6)
  }

  /**
   * A profile whose DPI nibble is 12 loads, the slider sits at 11, and the
   * label as written looks up DPI[12], past the table; a nibble of 0 puts
   * the slider at 1 (500 DPI) while the label as written says 0.
   */
  lemma LoadedLabelOverrunsTable(l: Link)
    ensures var s := Store(Cached(PageWithDpi(0x0C), false), Missing, Missing, l);
            && LoadProfile(s, 0, InitialProfile).2
            && LoadProfile(s, 0, InitialProfile).1.slider == MaxDpi
            && LoadedLabelAsWritten(s, 0).None?
    ensures var s := Store(Cached(PageWithDpi(0), false), Missing, Missing, l);
            && LoadProfile(s, 0, InitialProfile).1.dpiText == Some(500)
            && LoadedLabelAsWritten(s, 0) == Some(0)
  {
    var s := Store(Cached(PageWithDpi(0x0C), false), Missing, Missing, l);
    LoadProfileCached(s, 0, InitialProfile);
    var z := Store(Cached(PageWithDpi(0), false), Missing, Missing, l);
    LoadProfileCached(z, 0, InitialProfile);
  }

  /** With the label fed from the slider, load always shows a preset of the table: the one the slider selects. */
  lemma LoadShowsSliderDpi(s: Store, index: int, u: ProfileUi)
    requires Wf(s) && 0 <= index < MaxProfile && Formed(u)
    ensures var (t, v, ok) := LoadProfile(s, index, u);
            ok ==> 1 <= v.slider <= MaxDpi && v.dpiText == DpiAt(v.slider) && v.dpiText.value >= 500
  {
    DpiTableShape();
  }

  // ---------------------------------------------------------------- save

  /** save: setProfileDpi with the slider, then setProfileEnabled with the check box, then the colour index. */
  function SaveProfile(s: Store, index: int, u: ProfileUi): (r: Store)
    requires Wf(s) && 0 <= index < MaxProfile && 0 <= u.color <= MaxProfileColor
    ensures Wf(r)
  {
    var s1 := SetProfileDpi(s, index, u.slider);
    var s2 := SetProfileEnabled(s1, index, u.enabled);
    WriteByte(s2, Lighting, ColorIndexOffset(index), u.color)
  }

  /** setProfileDpi on a cached page keeps bit 7 of the DPI byte and puts the value below it. */
  lemma SetDpiCached(s: Store, index: int, value: int)
    requires Wf(s) && 0 <= index < MaxProfile && InCache(s, Lighting) && 0 <= value < 0x80
    ensures var t := SetProfileDpi(s, index, value);
            var off := DpiByteOffset(index);
            var page := CachedPage(s, Lighting);
            && InCache(t, Lighting) && t.link == s.link
            && CachedPage(t, Lighting) == page[off := if page[off] >= 0x80 then value + 0x80 else value]
  {
    var off := DpiByteOffset(index);
    var b := CachedPage(s, Lighting)[off];
    DpiByteBits(b, value);
    WriteByteCached(s, Lighting, off, if Has80(b) then Or80(value) else value);
  }

  /** setProfileEnabled on a cached page sets or clears bit 7 of the DPI byte and keeps the rest. */
  lemma SetEnabledCached(s: Store, index: int, enabled: bool)
    requires Wf(s) && 0 <= index < MaxProfile && InCache(s, Lighting)
    ensures var t := SetProfileEnabled(s, index, enabled);
            var off := DpiByteOffset(index);
            var page := CachedPage(s, Lighting);
            && InCache(t, Lighting) && t.link == s.link
            && CachedPage(t, Lighting) == page[off := if enabled then page[off] % 0x80 else page[off] % 0x80 + 0x80]
  {
    var off := DpiByteOffset(index);
    var b := CachedPage(s, Lighting)[off];
    DpiByteBits(b, 0);
    WriteByteCached(s, Lighting, off, if enabled then And7F(b) else Or80(b));
  }

  /**
   * save on a cached Lighting page sends nothing and, for a DPI value below
   * 0x80, leaves the DPI byte `dpi | (enabled ? 0 : 0x80)` and the colour
   * index in its byte; no other byte changes.
   */
  lemma SaveProfileCached(s: Store, index: int, u: ProfileUi)
    requires Wf(s) && 0 <= index < MaxProfile && InCache(s, Lighting)
    requires 0 <= u.color <= MaxProfileColor && 0 <= u.slider < 0x80
    ensures var t := SaveProfile(s, index, u);
            var page := CachedPage(s, Lighting);
            && InCache(t, Lighting) && t.link == s.link
            && CachedPage(t, Lighting) ==
                 page[DpiByteOffset(index) := u.slider + (if u.enabled then 0 else 0x80)][ColorIndexOffset(index) := u.color]
  {
    var off := DpiByteOffset(index);
    SetDpiCached(s, index, u.slider);
    var s1 := SetProfileDpi(s, index, u.slider);
    SetEnabledCached(s1, index, u.enabled);
    var s2 := SetProfileEnabled(s1, index, u.enabled);
    var b1 := CachedPage(s1, Lighting)[off];
    assert b1 % 0x80 == u.slider;
    WriteByteCached(s2, Lighting, ColorIndexOffset(index), u.color);
  }

  /**
   * save then load on a cached Lighting page gives back the check box, the
   * slider with its preset's DPI, and the colour when it names a palette
   * entry; a disabled profile comes back without the radio button.
   */
  lemma SaveThenLoadProfile(s: Store, index: int, u: ProfileUi, w: ProfileUi)
    requires Wf(s) && 0 <= index < MaxProfile && InCache(s, Lighting) && Formed(w)
    requires 0 <= u.color <= MaxProfileColor && 1 <= u.slider <= MaxDpi
    ensures var t := SaveProfile(s, index, u);
            var (t', v, ok) := LoadProfile(t, index, w);
            && ok && t' == t
            && v.enabled == u.enabled && (v.active <==> w.active && u.enabled)
            && v.slider == u.slider && v.dpiText == Some(DpiTable[u.slider])
            && v.color == ComboIndex(u.color)
  {
    SaveProfileCached(s, index, u);
    var t := SaveProfile(s, index, u);
    LoadProfileCached(t, index, w);
    var b := u.slider + (if u.enabled then 0 else 0x80);
    assert CachedPage(t, Lighting)[DpiByteOffset(index)] == b;
    assert CachedPage(t, Lighting)[ColorIndexOffset(index)] == u.color;
    assert b % 0x10 == u.slider;
  }

  // ---------------------------------------------------------------- the widget

  /** The editor of profile `index`: its widgets' state, updated in place by its slots. */
  class ProfileEdit {
    const index: int
    var active: bool
    var enabled: bool
    var widgets: seq<bool>
    var slider: int
    var dpiText: Option<int>
    var color: int

    function View(): ProfileUi
      reads this
    {
      ProfileUi(active, enabled, widgets, slider, dpiText, color)
    }

    constructor (index: int)
      requires 0 <= index < MaxProfile
      ensures this.index == index && View() == InitialProfile
    {
      this.index := index;
      active, enabled, slider, dpiText, color := false, false, 1, None, 0;
      widgets := [true, true, true, true, true, true];
    }

    method Load(mice: Mouse.MS794) returns (ok: bool)
      requires mice.Valid() && Formed(View()) && 0 <= index < MaxProfile
      modifies this, mice, mice.device
      ensures mice.Valid()
      ensures (mice.State(), View(), ok) == LoadProfile(old(mice.State()), index, old(View()))
    {
      var dpi := mice.ProfileDpi(index);
      var isEnabled := mice.ProfileEnabled(index);
      var c := mice.ProfileColorIndex(index);
      if dpi < 0 || c < 0 {
        return false;
      }
      OnEnableProfile(isEnabled);
      if enabled != isEnabled {
        enabled := isEnabled;
        OnEnableProfile(isEnabled);
      }
      slider := Clamp(dpi, 1, MaxDpi);
      OnDpiChanged(slider);
      color := ComboIndex(c);
      ok := true;
    }

    method Save(mice: Mouse.MS794)
      requires mice.Valid() && 0 <= index < MaxProfile && 0 <= color <= MaxProfileColor
      modifies mice, mice.device
      ensures mice.Valid()
      ensures mice.State() == SaveProfile(old(mice.State()), index, View())
    {
      mice.SetProfileDpi(index, slider);
      mice.SetProfileEnabled(index, enabled);
      mice.SetProfileColorIndex(index, color);
    }

    method Enabled() returns (r: bool)
      ensures r == View().enabled
    {
      r := enabled;
    }

    method Active() returns (r: bool)
      ensures r == View().active
    {
      r := active;
    }

    method SetActive(value: bool)
      modifies this
      ensures View() == old(View()).(active := value)
    {
      active := value;
    }

    /** onDpiChanged: the label shows the DPI of preset `value`; None stands for a read past the table. */
    method OnDpiChanged(value: int)
      modifies this
      ensures View() == old(View()).(dpiText := DpiAt(value))
    {
      if 0 <= value < |DpiTable| {
        dpiText := Some(DpiTable[value]);
      } else {
        dpiText := None;  // DPI[value] reads past the table
      }
    }

    /** onEnableProfile: the loop over the direct children enables or disables all but the check box. */
    method OnEnableProfile(isEnabled: bool)
      requires Formed(View())
      modifies this
      ensures View() == EnableProfile(old(View()), isEnabled)
    {
      if !isEnabled {
        active := false;
      }
      var w := widgets;
      var k := 0;
      while k < |w|
        invariant 0 <= k <= |w| == |Children|
        invariant forall j :: 0 <= j < |w| ==> w[j] == if j < k then EnableChildren(widgets, isEnabled)[j] else widgets[j]
        decreases |w| - k
      {
        if Children[k] != EnabledBox {
          w := w[k := isEnabled];
        }
        k := k + 1;
      }
      widgets := w;
    }
  }
}
