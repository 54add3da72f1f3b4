/**
 * The MS794 device object: a page cache and dirty flags that its methods
 * update in place, on top of an opened HID device. Every method is proved to
 * leave the object, and the device's request log, in the state the matching
 * function of PageStore computes; what those functions promise is proved there.
 */
module Mouse {
  import opened Wrappers
  import opened Layout
  import opened Transport
  import PageStore

  class MS794 {
    /** The pages read so far, each the full page with its tag in byte 0. */
    var cache: map<Page, seq<Byte>>
    /** One flag per cached page: changed since it was read or last saved. */
    var dirty: map<Page, bool>
    const device: HidDevice

    predicate Valid()
      reads this
    {
      PageStore.Consistent(cache, dirty)
    }

    function State(): PageStore.Store
      reads this, device
    {
      PageStore.FromMaps(cache, dirty, device.State())
    }

    /** A new object starts with nothing cached and nothing dirty. */
    constructor (device: HidDevice)
      ensures Valid() && this.device == device
      ensures cache == map[] && dirty == map[]
    {
      this.device := device;
      cache := map[];
      dirty := map[];
    }

    /** Store buf as the cached copy of page p with the given dirty flag. */
    method Keep(p: Page, buf: seq<Byte>, flag: bool)
      requires Valid() && PageStore.Fits(p, buf)
      modifies this
      ensures Valid()
      ensures State() == PageStore.WithSlot(old(State()), p, PageStore.Cached(buf, flag))
    {
      PageStore.FromMapsUpdate(cache, dirty, device.State(), p, buf, flag);
      cache := cache[p := buf];
      dirty := dirty[p := flag];
    }

    method ReadPage(p: Page) returns (r: Option<seq<Byte>>)
      requires Valid()
      modifies this, device
      ensures Valid()
      ensures (State(), r) == PageStore.Fetch(old(State()), p)
    {
      if p in cache {
        return Some(cache[p]);
      }
      var reply := device.GetFeatureReport(Tag(p), PageSize(p));
      if reply.Some? && PageStore.Fits(p, reply.value) {
        Keep(p, reply.value, false);
        r := reply;
      } else {
        r := None;
      }
    }

    method WritePage(data: seq<Byte>, p: Page) returns (ok: bool)
      modifies device
      ensures (device.State(), ok) == PageStore.WritePage(old(device.State()), data, p)
    {
      var sent := device.SendFeatureReport(data);
      ok := sent == PageSize(p);
    }

    method Button(btn: int) returns (r: int)
      requires Valid() && 0 <= btn < ButtonCount
      modifies this, device
      ensures Valid()
      ensures (State(), r) == PageStore.Button(old(State()), btn)
    {
      var page := ReadPage(Buttons);
      if page.None? {
        return -1;
      }
      r := PageStore.Signed32(PageStore.WordAt(page.value, PageStore.ButtonOffset(btn)));
    }

    method SetButton(btn: int, value: int)
      requires Valid() && 0 <= btn < ButtonCount && PageStore.IsInt32(value)
      modifies this, device
      ensures Valid()
      ensures State() == PageStore.SetButton(old(State()), btn, value)
    {
      var page := ReadPage(Buttons);
      if page.Some? {
        var off := PageStore.ButtonOffset(btn);
        if PageStore.Signed32(PageStore.WordAt(page.value, off)) != value {
          Keep(Buttons, PageStore.PutWord(page.value, off, PageStore.Unsigned32(value)), true);
        }
      }
    }

    method Macro(index: int) returns (r: Option<seq<Byte>>)
      requires Valid() && 1 <= index <= MaxMacroNum
      modifies this, device
      ensures Valid()
      ensures (State(), r) == PageStore.Macro(old(State()), index)
    {
      var page := ReadPage(Buttons);
      if page.None? {
        return None;
      }
      var off := PageStore.MacroOffset(index);
      r := Some(page.value[off..off + MaxMacroLength]);
    }

    method SetMacro(index: int, value: seq<Byte>)
      requires Valid() && 1 <= index <= MaxMacroNum
      modifies this, device
      ensures Valid()
      ensures State() == PageStore.SetMacro(old(State()), index, value)
    {
      var page := ReadPage(Buttons);
      var off := PageStore.MacroOffset(index);
      var n := PageStore.Min(MaxMacroLength, |value|);
      if page.Some? && page.value[off..off + n] != value[..n] {
        Keep(Buttons, PageStore.PutSlot(page.value, index, PageStore.Padded(value)), true);
      }
    }

    method ReadByte(p: Page, off: nat) returns (r: int)
      requires Valid() && off < PageSize(p)
      modifies this, device
      ensures Valid()
      ensures (State(), r) == PageStore.ReadByte(old(State()), p, off)
    {
      var page := ReadPage(p);
      r := if page.Some? then page.value[off] else -1;
    }

    method WriteByte(p: Page, off: nat, v: int)
      requires Valid() && 1 <= off < PageSize(p)
      modifies this, device
      ensures Valid()
      ensures State() == PageStore.WriteByte(old(State()), p, off, v)
    {
      var page := ReadPage(p);
      if page.Some? && page.value[off] != PageStore.Low8(v) {
        Keep(p, page.value[off := PageStore.Low8(v)], true);
      }
    }

    method LightColor(index: int) returns (r: int)
      requires Valid() && 0 <= index < MaxLightColor
      modifies this, device
      ensures Valid()
      ensures (State(), r) == PageStore.LightColor(old(State()), index)
    {
      var page := ReadPage(Lighting);
      if page.None? {
        return -1;
      }
      r := PageStore.ColorAt(page.value, index);
    }

    method SetLightColor(index: int, value: int)
      requires Valid() && 0 <= index < MaxLightColor && 0 <= value <= 0xFF_FFFF
      modifies this, device
      ensures Valid()
      ensures State() == PageStore.SetLightColor(old(State()), index, value)
    {
      var page := ReadPage(Lighting);
      if page.Some? {
        var c := PageStore.ColorOffset(index);
        if page.value[c] != PageStore.Red(value) || page.value[c + 1] != PageStore.Green(value)
          || page.value[c + 2] != PageStore.Blue(value)
        {
          Keep(Lighting, PageStore.PutColor(page.value, index, value), true);
        }
      }
    }

    method ReportRate() returns (r: int)
      requires Valid()
      modifies this, device
      ensures Valid()
      ensures (State(), r) == PageStore.ReadByte(old(State()), Profile, ReportRateOffset)
    {
      r := ReadByte(Profile, ReportRateOffset);
    }

    method SetReportRate(value: int)
      requires Valid() && 0 < value <= MaxReportRate
      modifies this, device
      ensures Valid()
      ensures State() == PageStore.WriteByte(old(State()), Profile, ReportRateOffset, value)
    {
      WriteByte(Profile, ReportRateOffset, value);
    }

    method ActiveProfile() returns (r: int)
      requires Valid()
      modifies this, device
      ensures Valid()
      ensures (State(), r) == PageStore.ReadByte(old(State()), Profile, ActiveProfileOffset)
    {
      r := ReadByte(Profile, ActiveProfileOffset);
    }

    method SetActiveProfile(value: int)
      requires Valid() && 0 < value <= MaxProfile
      modifies this, device
      ensures Valid()
      ensures State() == PageStore.WriteByte(old(State()), Profile, ActiveProfileOffset, value)
    {
      WriteByte(Profile, ActiveProfileOffset, value);
    }

    method NumProfiles() returns (r: int)
      requires Valid()
      modifies this, device
      ensures Valid()
      ensures (State(), r) == PageStore.ReadByte(old(State()), Lighting, NumProfilesOffset)
    {
      r := ReadByte(Lighting, NumProfilesOffset);
    }

    method SetNumProfiles(value: int)
      requires Valid() && 0 <= value <= MaxProfile
      modifies this, device
      ensures Valid()
      ensures State() == PageStore.WriteByte(old(State()), Lighting, NumProfilesOffset, value)
    {
      WriteByte(Lighting, NumProfilesOffset, value);
    }

    method LightType() returns (r: int)
      requires Valid()
      modifies this, device
      ensures Valid()
      ensures (State(), r) == PageStore.ReadByte(old(State()), Lighting, LightTypeOffset)
    {
      r := ReadByte(Lighting, LightTypeOffset);
    }

    /** The byte holds the light type in its high nibble and the speed in its low one. */
    method SetLightType(value: int)
      requires Valid() && value >= 0 && value / 16 <= MaxLightType
      modifies this, device
      ensures Valid()
      ensures State() == PageStore.WriteByte(old(State()), Lighting, LightTypeOffset, value)
    {
      WriteByte(Lighting, LightTypeOffset, value);
    }

    method LightValue() returns (r: int)
      requires Valid()
      modifies this, device
      ensures Valid()
      ensures (State(), r) == PageStore.ReadByte(old(State()), Lighting, LightValueOffset)
    {
      r := ReadByte(Lighting, LightValueOffset);
    }

    method SetLightValue(value: int)
      requires Valid()
      modifies this, device
      ensures Valid()
      ensures State() == PageStore.WriteByte(old(State()), Lighting, LightValueOffset, value)
    {
      WriteByte(Lighting, LightValueOffset, value);
    }

    method ProfileEnabled(profile: int) returns (r: bool)
      requires Valid() && 0 <= profile < MaxProfile
      modifies this, device
      ensures Valid()
      ensures (State(), r) == PageStore.ProfileEnabled(old(State()), profile)
    {
      var b := ReadByte(Lighting, PageStore.DpiByteOffset(profile));
      r := !PageStore.Has80(b);
    }

    method SetProfileEnabled(profile: int, value: bool)
      requires Valid() && 0 <= profile < MaxProfile
      modifies this, device
      ensures Valid()
      ensures State() == PageStore.SetProfileEnabled(old(State()), profile, value)
    {
      var b := ReadByte(Lighting, PageStore.DpiByteOffset(profile));
      if value {
        b := PageStore.And7F(b);
      } else {
        b := PageStore.Or80(b);
      }
      WriteByte(Lighting, PageStore.DpiByteOffset(profile), b);
    }

    method ProfileDpi(profile: int) returns (r: int)
      requires Valid() && 0 <= profile < MaxProfile
      modifies this, device
      ensures Valid()
      ensures (State(), r) == PageStore.ProfileDpi(old(State()), profile)
    {
      var b := ReadByte(Lighting, PageStore.DpiByteOffset(profile));
      r := PageStore.And0F(b);
    }

    method SetProfileDpi(profile: int, value: int)
      requires Valid() && 0 <= profile < MaxProfile
      modifies this, device
      ensures Valid()
      ensures State() == PageStore.SetProfileDpi(old(State()), profile, value)
    {
      var b := ReadByte(Lighting, PageStore.DpiByteOffset(profile));
      var v := value;
      if PageStore.Has80(b) {
        v := PageStore.Or80(v);
      }
      WriteByte(Lighting, PageStore.DpiByteOffset(profile), v);
    }

    method ProfileColorIndex(profile: int) returns (r: int)
      requires Valid() && 0 <= profile < MaxProfile
      modifies this, device
      ensures Valid()
      ensures (State(), r) == PageStore.ReadByte(old(State()), Lighting, PageStore.ColorIndexOffset(profile))
    {
      r := ReadByte(Lighting, PageStore.ColorIndexOffset(profile));
    }

    method SetProfileColorIndex(profile: int, value: int)
      requires Valid() && 0 <= profile < MaxProfile && 0 <= value <= MaxProfileColor
      modifies this, device
      ensures Valid()
      ensures State() == PageStore.WriteByte(old(State()), Lighting, PageStore.ColorIndexOffset(profile), value)
    {
      WriteByte(Lighting, PageStore.ColorIndexOffset(profile), value);
    }

    /** The blink byte is 2 for on and 1 for off. */
    method Blink(value: bool)
      requires Valid()
      modifies this, device
      ensures Valid()
      ensures State() == PageStore.WriteByte(old(State()), Profile, BlinkOffset, if value then 2 else 1)
    {
      WriteByte(Profile, BlinkOffset, if value then 2 else 1);
    }

    /** The device answers when its Profile page can be had. */
    method Ping() returns (r: bool)
      requires Valid()
      modifies this, device
      ensures Valid()
      ensures var (s, page) := PageStore.Fetch(old(State()), Profile);
              State() == s && (r <==> page.Some?)
    {
      var page := ReadPage(Profile);
      r := page.Some?;
    }

    /** A search over the flags, in page order, for one that is set. */
    method UnsavedChanges() returns (r: bool)
      requires Valid()
      ensures r <==> PageStore.UnsavedChanges(State())
    {
      var i := 0;
      r := false;
      while i < |PageOrder| && !r
        invariant 0 <= i <= |PageOrder|
        invariant r <==> exists j :: 0 <= j < i && PageStore.IsDirty(State(), PageOrder[j])
      {
        var p := PageOrder[i];
        r := p in dirty && dirty[p];
        assert r == PageStore.IsDirty(State(), p);
        i := i + 1;
      }
      if !r {
        forall p ensures !PageStore.IsDirty(State(), p) {
          match p
          case Lighting => assert PageOrder[0] == p;
          case Buttons => assert PageOrder[1] == p;
          case Profile => assert PageOrder[2] == p;
        }
      }
    }

    /** Write the dirty cached pages back in tag order, stopping at the first failure. */
    method Save() returns (ok: bool)
      requires Valid()
      modifies this, device
      ensures Valid()
      ensures (State(), ok) == PageStore.Save(old(State()))
    {
      var i := 0;
      while i < |PageOrder|
        invariant 0 <= i <= |PageOrder|
        invariant Valid()
        invariant PageStore.SaveFrom(State(), PageOrder[i..]) == PageStore.Save(old(State()))
      {
        var p := PageOrder[i];
        assert PageOrder[i..][1..] == PageOrder[i + 1..];
        if p in cache && p in dirty && dirty[p] {
          var sent := WritePage(cache[p], p);
          if !sent {
            return false;
          }
          Keep(p, cache[p], false);
        }
        i := i + 1;
      }
      ok := true;
    }

    /** Read Lighting, Profile and Buttons, in that order, into one blob; stop at the first failure. */
    method BackupConfig() returns (ok: bool, blob: seq<Byte>)
      requires Valid()
      modifies this, device
      ensures Valid()
      ensures (State(), ok, blob) == PageStore.Backup(old(State()))
    {
      blob := [];
      var i := 0;
      while i < |BackupOrder|
        invariant 0 <= i <= |BackupOrder|
        invariant Valid()
        invariant PageStore.BackupFrom(State(), BackupOrder[i..], blob) == PageStore.Backup(old(State()))
      {
        assert BackupOrder[i..][1..] == BackupOrder[i + 1..];
        var page := ReadPage(BackupOrder[i]);
        if page.None? {
          return false, blob;
        }
        blob := blob + page.value;
        i := i + 1;
      }
      ok := true;
    }

    /** Send a backup blob back segment by segment; the cache is left as it was. */
    method RestoreConfig(src: seq<Byte>) returns (ok: bool)
      modifies device
      ensures (device.State(), ok) == PageStore.Restore(old(device.State()), src)
    {
      if |src| != BackupSize {
        return false;
      }
      var rest := src;
      var i := 0;
      while i < |BackupOrder|
        invariant 0 <= i <= |BackupOrder|
        invariant |rest| == PageStore.TotalSize(BackupOrder[i..])
        invariant PageStore.RestoreFrom(device.State(), rest, BackupOrder[i..]) == PageStore.Restore(old(device.State()), src)
      {
        var p := BackupOrder[i];
        assert BackupOrder[i..][1..] == BackupOrder[i + 1..];
        var segment := rest[..PageSize(p)];
        if segment[0] != Tag(p) {
          return false;
        }
        var sent := WritePage(segment, p);
        if !sent {
          return false;
        }
        rest := rest[PageSize(p)..];
        i := i + 1;
      }
      ok := true;
    }
  }
}
