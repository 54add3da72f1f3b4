/**
 * Page tags, page sizes, field offsets and the code tables of the HV-MS794
 * firmware, as declared by the MS794 class header. Everything here is a
 * constant; the lemmas check that the layout is consistent.
 */
module Layout {

  /** One byte of a firmware page. */
  type Byte = b: int | 0 <= b < 0x100

  /** The three firmware pages; each is addressed by the tag carried in its byte 0. */
  datatype Page = Lighting | Buttons | Profile

  /** The enum value of a page: 4, 6 and 8, one per page. */
  function Tag(p: Page): (t: Byte)
    ensures t == 4 <==> p == Lighting
    ensures t == 6 <==> p == Buttons
    ensures t == 8 <==> p == Profile
  {
    match p
    case Lighting => 4
    case Buttons => 6
    case Profile => 8
  }

  /** getPageSize: the fixed length of each page (the switch has no other case to fall into). */
  function PageSize(p: Page): (n: nat)
    ensures 9 <= n <= 1145
  {
    match p
    case Lighting => 59
    case Buttons => 1145
    case Profile => 9
  }

  /** The order in which a std::map keyed by the tags visits the pages. */
  const PageOrder: seq<Page> := [Lighting, Buttons, Profile]

  /** The order of the segments of a backup blob. */
  const BackupOrder: seq<Page> := [Lighting, Profile, Buttons]

  const BackupSize: nat := 1213

  // Constants
  const MaxMacroNum: int := 8
  const MaxMacroLength: int := 128
  const MaxReportRate: int := 4
  const MaxLightColor: int := 7
  const MaxLightType: int := 11
  const MaxProfile: int := 8
  const MaxProfileColor: int := 8
  const MaxDpi: int := 11

  // Event: the mode nibble (bits 4-7) of a button action
  const EventButton: int := 0x10
  const EventSequence: int := 0x20
  const EventTripleClick: int := 0x30
  const EventProfile: int := 0x40
  const EventDisabled: int := 0x50
  const EventKey: int := 0x60
  const EventMacro: int := 0x90
  const EventCustom: int := 0xFE

  /** The modes the firmware defines (every Event except the editor-only Custom). */
  const FirmwareEvents: seq<int> :=
    [EventButton, EventSequence, EventTripleClick, EventProfile, EventDisabled, EventKey, EventMacro]

  // ButtonIndex: the seven physical buttons, numbered from 0
  const ButtonCount: int := 7

  // MouseButton: the codes a Button action can emulate
  const MouseLeftButton: int := 0xF0
  const MouseRightButton: int := 0xF1
  const MouseMiddleButton: int := 0xF2
  const MouseBackButton: int := 0xF3
  const MouseForwardButton: int := 0xF4

  // LightType
  const LightOff: int := 0
  const LightColorfulStreaming: int := 1
  const LightSteady: int := 2
  const LightBreathing: int := 3
  const LightTail: int := 4
  const LightNeon: int := 5
  const LightColorfulSteady: int := 6
  const LightFliker: int := 7
  const LightResponse: int := 8
  const LightStreaming: int := 9
  const LightWave: int := 10
  const LightTrailing: int := 11

  // ProfileChange
  const NextProfile: int := 0x20
  const PreviousProfile: int := 0x40
  const CycleProfile: int := 0x00
  const LockToProfile: int := 0x80

  // MacroRepeatMode
  const MacroRepeatCount: int := 1
  const MacroRepeatUntilNextKey: int := 2
  const MacroRepeatWhileHold: int := 4

  // ButtonsPage offsets
  const MacrosOffset: int := 1
  const ButtonsOffset: int := MacrosOffset + MaxMacroNum * MaxMacroLength

  // ProfilePage offsets
  const BlinkOffset: int := 1
  const ReportRateOffset: int := 2
  const ActiveProfileOffset: int := 5

  // LightingPage offsets
  const NumProfilesOffset: int := 2
  const DpiOffset: int := 5
  const LightTypeOffset: int := 21
  const LightValueOffset: int := 22
  const LightColorOffset: int := 23
  const ProfileColorOffset: int := 44

  /** A run of bytes inside a page. */
  datatype Field = Field(offset: int, length: nat)

  predicate Apart(a: Field, b: Field)
  {
    a.offset + a.length <= b.offset || b.offset + b.length <= a.offset
  }

  /** The fields lie after the tag byte, inside the page, and pairwise apart. */
  predicate Laid(fields: seq<Field>, p: Page)
  {
    && (forall i :: 0 <= i < |fields| ==> 1 <= fields[i].offset && fields[i].offset + fields[i].length <= PageSize(p))
    && (forall i, j :: 0 <= i < j < |fields| ==> Apart(fields[i], fields[j]))
  }

  function MacroField(index: int): Field
  {
    Field(MacrosOffset + (index - 1) * MaxMacroLength, MaxMacroLength)
  }

  function ButtonField(btn: int): Field
  {
    Field(ButtonsOffset + 4 * btn, 4)
  }

  const LightingFields: seq<Field> := [
    Field(NumProfilesOffset, 1),
    Field(DpiOffset, MaxProfile),
    Field(LightTypeOffset, 1),
    Field(LightValueOffset, 1),
    Field(LightColorOffset, 3 * MaxLightColor),
    Field(ProfileColorOffset, MaxProfile)
  ]

  const ProfileFields: seq<Field> := [
    Field(BlinkOffset, 1),
    Field(ReportRateOffset, 1),
    Field(ActiveProfileOffset, 1)
  ]

  lemma TagsIdentifyPages(p: Page, q: Page)
    ensures Tag(p) == Tag(q) ==> p == q
  {
  }

  lemma PageOrderAscending()
    ensures forall i, j :: 0 <= i < j < |PageOrder| ==> Tag(PageOrder[i]) < Tag(PageOrder[j])
    ensures forall p: Page :: p in PageOrder
  {
    forall p: Page ensures p in PageOrder {
      match p
      case Lighting => assert PageOrder[0] == p;
      case Buttons => assert PageOrder[1] == p;
      case Profile => assert PageOrder[2] == p;
    }
  }

  lemma BackupCoversEveryPage()
    ensures forall p: Page :: p in BackupOrder
    ensures PageSize(BackupOrder[0]) + PageSize(BackupOrder[1]) + PageSize(BackupOrder[2]) == BackupSize
  {
    forall p: Page ensures p in BackupOrder {
      match p
      case Lighting => assert BackupOrder[0] == p;
      case Profile => assert BackupOrder[1] == p;
      case Buttons => assert BackupOrder[2] == p;
    }
  }

  /** The eight macro slots and the seven 4-byte button words never overlap and fit in the page. */
  lemma ButtonsPageLaid(i: int, j: int, a: int, b: int)
    requires 1 <= i <= MaxMacroNum && 1 <= j <= MaxMacroNum && i != j
    requires 0 <= a < ButtonCount && 0 <= b < ButtonCount && a != b
    ensures Laid([MacroField(i), MacroField(j), ButtonField(a), ButtonField(b)], Buttons)
    ensures ButtonsOffset == 1025 && ButtonsOffset + 4 * ButtonCount == 1053
  {
  }

  lemma LightingPageLaid()
    ensures Laid(LightingFields, Lighting)
  {
  }

  lemma ProfilePageLaid()
    ensures Laid(ProfileFields, Profile)
  {
  }

  /** The mode nibble of the low byte of a button action: `low & 0xF0`. */
  function ModeNibble(low: Byte): int
  {
    low / 16 * 16
  }

  /** A macro number moved into the high nibble of a byte: `n << 4`. */
  function IntoHighNibble(n: int): int
  {
    n * 16
  }

  /** A slider's or spin box's setValue: out-of-range values are pulled to the nearest bound. */
  function Clamp(x: int, lo: int, hi: int): (r: int)
    requires lo <= hi
    ensures lo <= r <= hi && (lo <= x <= hi ==> r == x)
  {
    if x < lo then lo else if x > hi then hi else x
  }

  function LockTo(n: int): int
  {
    LockToProfile + n
  }

  /**
   * Every firmware mode has a zero low nibble and its own high nibble, while
   * Custom does not: a mode nibble taken from a value never equals Custom.
   */
  lemma EventCodesAreNibbles()
    ensures forall i :: 0 <= i < |FirmwareEvents| ==> FirmwareEvents[i] % 16 == 0 && 0 < FirmwareEvents[i] < 0x100
    ensures forall i, j :: 0 <= i < j < |FirmwareEvents| ==> FirmwareEvents[i] / 16 != FirmwareEvents[j] / 16
    ensures EventCustom % 16 != 0
    ensures forall v: Byte :: ModeNibble(v) != EventCustom
  {
  }

  /** Repeat modes fit in the low nibble, macro numbers in the high nibble. */
  lemma MacroCodesFitNibbles()
    ensures forall m :: m in [MacroRepeatCount, MacroRepeatUntilNextKey, MacroRepeatWhileHold] ==> 0 < m < 16
    ensures forall n :: 1 <= n <= MaxMacroNum ==> IntoHighNibble(n) / 16 == n && IntoHighNibble(n) % 16 == 0 && IntoHighNibble(n) < 0x100
  {
  }

  /** The profile-change codes, LockTo+N for N = 1..MaxDpi included, are distinct bytes. */
  lemma ProfileChangeCodesDistinct()
    ensures |{CycleProfile, NextProfile, PreviousProfile}| == 3
    ensures forall n :: 1 <= n <= MaxDpi ==>
              LockTo(n) < 0x100 && LockTo(n) != CycleProfile && LockTo(n) != NextProfile && LockTo(n) != PreviousProfile
  {
  }

  lemma MouseButtonsConsecutive()
    ensures MouseRightButton == MouseLeftButton + 1 && MouseMiddleButton == MouseLeftButton + 2
    ensures MouseBackButton == MouseLeftButton + 3 && MouseForwardButton == MouseLeftButton + 4
    ensures MouseForwardButton < 0x100
  {
  }
}
