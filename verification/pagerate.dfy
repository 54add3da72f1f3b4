/**
 * The report-rate page: a slider holding the rate code of the Profile page
 * and a label showing the polling rate it stands for, 125 Hz doubled for
 * every step above code 1.
 */
module RatePage {
  import opened Wrappers
  import opened Layout
  import opened PageStore

  /** 2 to the power k. */
  function Pow2(k: nat): (r: nat)
    ensures r >= 1
  {
    if k == 0 then 1 else 2 * Pow2(k - 1)
  }

  /**
   * onReportRateChanged: `125 * (1 << (value - 1))` Hz. None where the C++
   * expression is undefined on a 32-bit int: a negative shift (code 0 or
   * less) or a product past 2^31 - 1 (code 26 or more).
   */
  function RateHz(rate: int): (r: Option<int>)
    ensures r.Some? <==> 1 <= rate <= 25
  {
    if 1 <= rate <= 25 then Some(125 * Pow2(rate - 1)) else None
  }

  /** The four rate codes the device takes show 125, 250, 500 and 1000 Hz. */
  lemma RateLabels()
    ensures RateHz(1) == Some(125) && RateHz(2) == Some(250)
    ensures RateHz(3) == Some(500) && RateHz(MaxReportRate) == Some(1000)
  {
    assert Pow2(3) == 8;
  }

  /** Every defined rate lies between 125 Hz and the 2097152000 Hz of code 25, inside a 32-bit int. */
  lemma RateHzBounds(rate: int)
    requires 1 <= rate <= 25
    ensures 125 <= RateHz(rate).value <= RateHz(25).value == 2_097_152_000 <= 0x7FFF_FFFF
  {
    if rate < 25 {
      RateHzRises(rate, 25);
    }
    Pow2Of24();
  }

  lemma Pow2Of24()
    ensures Pow2(24) == 0x100_0000
  {
    Pow2Add(12, 12);
    assert Pow2(12) == 0x1000;
  }

  /** Powers of two multiply by adding exponents. */
  lemma {:induction false} Pow2Add(a: nat, b: nat)
    ensures Pow2(a + b) == Pow2(a) * Pow2(b)
    decreases a
  {
    if a > 0 {
      Pow2Add(a - 1, b);
    }
  }

  /** One step up the slider doubles the rate, so distinct codes show distinct rates. */
  lemma {:induction false} RateHzRises(a: int, b: int)
    requires 1 <= a < b <= 25
    ensures RateHz(b).value >= 2 * RateHz(a).value
    decreases b - a
  {
    if b - 1 > a {
      RateHzRises(a, b - 1);
    }
  }

  /** The widgets: the slider's position and the rate its label shows (None: none shown). */
  datatype RateUi = RateUi(slider: int, hz: Option<int>)

  /** load: fails, leaving the widgets alone, when the rate byte cannot be read; else shows the byte as read. */
  function LoadRate(s: Store, u: RateUi): (r: (Store, RateUi, bool))
    requires Wf(s)
    ensures Wf(r.0)
    ensures !r.2 ==> r.1 == u
  {
    var (t, rate) := ReadByte(s, Profile, ReportRateOffset);
    if rate < 0 then (t, u, false) else (t, RateUi(rate, RateHz(rate)), true)
  }

  /** save: the slider's value goes to setReportRate unchanged. */
  function SaveRate(s: Store, u: RateUi): (r: Store)
    requires Wf(s) && 0 < u.slider <= MaxReportRate
    ensures Wf(r)
  {
    WriteByte(s, Profile, ReportRateOffset, u.slider)
  }

  /**
   * load succeeds exactly when the Profile page can be had; the slider then
   * holds the rate byte of the page and the label its rate.
   */
  lemma LoadRateOutcome(s: Store, u: RateUi)
    requires Wf(s)
    ensures var (t, v, ok) := LoadRate(s, u);
            && (ok <==> Fetch(s, Profile).1.Some?)
            && (ok ==> InCache(t, Profile) && v.slider == CachedPage(t, Profile)[ReportRateOffset] && v.hz == RateHz(v.slider))
            && (InCache(s, Profile) ==> ok && t == s)
  {
  }

  /** save on a cached Profile page sends nothing and changes the rate byte only. */
  lemma SaveRateCached(s: Store, u: RateUi)
    requires Wf(s) && 0 < u.slider <= MaxReportRate && InCache(s, Profile)
    ensures var t := SaveRate(s, u);
            && InCache(t, Profile) && t.link == s.link
            && CachedPage(t, Profile) == CachedPage(s, Profile)[ReportRateOffset := u.slider]
  {
    WriteByteCached(s, Profile, ReportRateOffset, u.slider);
  }

  /** save then load on a cached Profile page gives the slider back, labelled with its rate. */
  lemma SaveThenLoadRate(s: Store, u: RateUi, w: RateUi)
    requires Wf(s) && 0 < u.slider <= MaxReportRate && InCache(s, Profile)
    ensures var t := SaveRate(s, u);
            LoadRate(t, w) == (t, RateUi(u.slider, Some(125 * Pow2(u.slider - 1))), true)
  {
    SaveRateCached(s, u);
  }
}
