# MS794 configuration core, modelled in Dafny

The hv-ms794-config tool configures a programmable gaming mouse over HID feature
reports. The firmware keeps its settings in three fixed pages:

* Lighting: tag 4, 59 bytes;
* Buttons: tag 6, 1145 bytes;
* Profile: tag 8, 9 bytes.

The `MS794` object reads each page once, answers every getter from a cached copy,
and marks a page dirty when a setter changes one of its bytes. `save` writes the
dirty pages back. The editor widgets pack and unpack the bit fields kept in those
pages:

* `ButtonEdit`: the 32-bit button action words;
* `PageLight`: the light type, speed, direction and colours;
* `ProfileEdit`: the DPI nibble, the enabled bit and the colour index of a profile;
* `PageRate`: the report rate.

The model has one module per part of the program:

* `Wrappers`: `Option`.
* `Transport`: the HID device. `HidDevice` is a class whose Get_Report and
  Set_Report calls consume a script of replies and byte counts and append to a
  request log. The script is arbitrary, so every proof holds for any device
  behaviour.
* `Layout`: the page tags, sizes and byte offsets, and the constants of `ms794.h`.
* `PageStore`: what each `MS794` operation does to the cache, the dirty flags and
  the device, as pure functions over a `Store`. The properties of the object are
  lemmas about these functions.
* `Mouse`: the class `MS794`. Its fields `cache` and `dirty` are maps keyed by
  page, and its methods update them in place. Every method is proved to leave
  `State()` as the matching `PageStore` function says.
* `ButtonEditor`: the functions `Decode` (setValue), `Extract`/`Value`
  (extractValue/value) and `SwitchMode` (onModeChanged) over an `Editor`
  datatype of widget values, the round-trip lemmas between them, and the class
  `ButtonEdit` whose methods follow those functions.
* `LightPage`, `ProfileEditor`, `RatePage`: load and save of the three setting
  pages as functions of the store and the widget values, the save-then-load
  lemmas, and the classes `PageLight` and `ProfileEdit` whose loops are proved
  against those functions.

A page's dirty flag, once set, stays set until `save` flushes the page, even
when a later write restores the old byte (`PageStore.WriteByteOnChange`).

## Model

| member | source | states |
|---|---|---|
| Transport.Get | src/ms794.cpp:94 | A Get_Report request is logged; the reply is the next scripted one, or none once the device stops answering |
| Transport.Send | src/ms794.cpp:110 | A Set_Report request carrying the data is logged; the byte count is the next scripted one, or -1 |
| Transport.HidDevice.GetFeatureReport | src/ms794.cpp:94 | The device's log and script move as `Get` says |
| Transport.HidDevice.SendFeatureReport | src/ms794.cpp:110 | The device's log and script move as `Send` says |
| Layout.Tag | src/ms794.h:38-43 | The Page enum: Lighting is 4, Buttons 6 and Profile 8, one value per page |
| Layout.PageSize | src/ms794.cpp:67-80 | getPageSize: every page has a size from 9 to 1145 bytes, so its default 0 is never returned |
| Layout.TagsIdentifyPages | src/ms794.h:38-43 | Distinct pages have distinct tags |
| Layout.PageOrderAscending | src/ms794.cpp:356-370 | The save order visits every page once, in ascending tag order, as std::map iteration does |
| Layout.BackupCoversEveryPage | src/ms794.cpp:372-384 | The backup order holds every page, and the sizes add up to 1213 bytes |
| Layout.ButtonsPageLaid | src/ms794.h:174-178 | The eight 128-byte macro slots and the seven button words are disjoint and inside the 1145-byte Buttons page; the words start at 1025 |
| Layout.LightingPageLaid | src/ms794.h:187-195 | The Lighting fields (profile count, DPI bytes, type, value, colours, colour indices) are disjoint and inside the 59-byte page |
| Layout.ProfilePageLaid | src/ms794.h:180-185 | The blink, report-rate and active-profile bytes are disjoint and inside the 9-byte page |
| Layout.Clamp | src/profileedit.cpp:105-119 | A slider's setValue result lies in its range and equals the value when that is already in range |
| Layout.EventCodesAreNibbles | src/ms794.h:58-68 | Every firmware mode has a clear low nibble and its own high nibble; Custom (0xFE) is never a mode nibble |
| Layout.MacroCodesFitNibbles | src/ms794.h:115-120 | Repeat modes fit the low nibble; macro numbers 1..8 shifted by 4 fit the high nibble and shift back |
| Layout.ProfileChangeCodesDistinct | src/ms794.h:106-113 | Cycle, Next and Previous are distinct, and LockTo+N for N = 1..11 is a byte different from all three |
| Layout.MouseButtonsConsecutive | src/ms794.h:81-88 | The mouse-button codes are 0xF0..0xF4 in order |
| PageStore.WithSlot | src/ms794.h:208-209 | Replacing the slot of one page leaves the slots of the other pages alone |
| PageStore.FromMaps | src/ms794.h:208-209 | The store that a cache map and a dirty map stand for is well formed: cached buffers have their page's size and tag |
| PageStore.FromMapsUpdate | src/ms794.h:208-209 | Updating page p in both maps changes the slot of p and no other |
| PageStore.Fetch | src/ms794.cpp:82-105 | A cached page comes back with no traffic. Otherwise exactly one Get_Report is sent, and the page is cached clean only when the reply has its size and tag; a failed read caches nothing |
| PageStore.ReadByte | src/ms794.cpp:176-180 | The byte is 0..255, or -1 when the page cannot be had |
| PageStore.WriteByte | src/ms794.cpp:182-193 | A write keeps every cached page at its size and tag |
| PageStore.WriteByteOnChange | src/ms794.cpp:182-193 | The write lands and dirties the page exactly when the low byte differs. An equal write, or a page that cannot be had, changes no byte and no flag, and a set flag stays set |
| PageStore.WriteByteCached | src/ms794.cpp:182-193 | On a cached page only that byte changes, and nothing is sent |
| PageStore.WriteByteTwice | src/ms794.cpp:176-193 | A written byte reads back as its low byte, and writing it again changes nothing |
| PageStore.WordRoundTrip | src/ms794.cpp:120-146 | An int stored as a 4-byte word reads back as the same int; no other byte moves |
| PageStore.Button | src/ms794.cpp:120-130 | Reading a button moves the store only as fetching the Buttons page does: it never dirties a page |
| PageStore.SetButton | src/ms794.cpp:132-146 | The store stays well formed |
| PageStore.SetButtonThenButton | src/ms794.cpp:120-146 | The word reads back as stored; the page becomes dirty exactly when the word differed; every other button keeps its word |
| PageStore.Macro | src/ms794.cpp:148-156 | Reading a macro moves the store only as fetching the Buttons page does, and a slot read is 128 bytes |
| PageStore.SetMacro | src/ms794.cpp:158-174 | setMacro as written keeps the store well formed; what it writes is stated by the two lemmas below |
| PageStore.SetMacroComparesPrefix | src/ms794.cpp:158-174 | A value that agrees with the start of the slot leaves the page and its flag untouched, whatever follows in the slot |
| PageStore.SetMacroKeepsStaleTail | src/ms794.cpp:158-174 | The counterexample: slot 1 2 3 and new macro 1 2 read back as 1 2 3, not 1 2 0 |
| PageStore.SetMacroWholeSlot | src/ms794.cpp:158-174 | The corrected setMacro, which compares the whole slot it would write, keeps the store well formed |
| PageStore.SetMacroWholeSlotReadsBack | src/ms794.cpp:148-174 | With the corrected compare, macro after setMacro always reads the padded value back. The page is dirtied exactly when the slot changed. Every other macro slot and every button word reads as before, and the other pages keep their slots |
| PageStore.RgbBytes | src/ms794.cpp:195-226 | Three bytes spell an RGB value exactly when they are its red, green and blue parts |
| PageStore.ColorAt | src/ms794.cpp:195-206 | A colour read from the page is a 24-bit value |
| PageStore.PutColorAt | src/ms794.cpp:208-226 | Storing a colour changes that colour, keeps every other, and touches only its three bytes |
| PageStore.LightColor | src/ms794.cpp:195-206 | 0xRRGGBB, or -1 when the Lighting page cannot be had |
| PageStore.SetLightColor | src/ms794.cpp:208-226 | The store stays well formed |
| PageStore.LightColorRoundTrip | src/ms794.cpp:195-226 | setLightColor then lightColor gives the same value. The bytes sit at 23 + 3*index in R, G, B order, and the page is dirtied exactly when one of them changed |
| PageStore.Has80Byte | src/ms794.cpp:286-292 | On a byte, bit 7 is set exactly from 0x80 on |
| PageStore.SetProfileEnabled | src/ms794.cpp:294-305 | The store stays well formed |
| PageStore.SetProfileDpi | src/ms794.cpp:314-324 | The store stays well formed |
| PageStore.DpiByteFields | src/ms794.cpp:286-324 | On an available page: enabled exactly when bit 7 is clear; setProfileEnabled touches only bit 7; setProfileDpi keeps bit 7 and stores the value below it; profileDpi is the low nibble |
| PageStore.DpiByteBits | src/ms794.cpp:294-324 | The mask arithmetic on a DPI byte and a value below 0x80 splits into bit 7 and the value |
| PageStore.DpiByteUnavailable | src/ms794.cpp:286-312 | When the Lighting page cannot be had, a profile reads as disabled with DPI 15, never -1 |
| PageStore.ProfileEnabled | src/ms794.cpp:286-292 | profileEnabled is true exactly when the DPI byte was read and its bit 7 is clear. A failed read (-1) reads as disabled |
| PageStore.ProfileDpi | src/ms794.cpp:307-312 | profileDpi is the low nibble of the DPI byte, always 0..15, and 15 when the read failed |
| PageStore.SetProfileEnabledAfterFailedRead | src/ms794.cpp:294-305 | When the first read fails and the second succeeds, the value built from -1 is stored: enable writes 0x7F and disable writes 0xFF. Either way the page is dirty, the enabled bit reads as requested, and the DPI nibble reads 15 |
| PageStore.WritePage | src/ms794.cpp:107-118 | One Set_Report goes out, and the write succeeds exactly when the whole page was sent |
| PageStore.SaveFrom | src/ms794.cpp:356-370 | The save loop keeps the store well formed |
| PageStore.Save | src/ms794.cpp:356-370 | save keeps the store well formed |
| PageStore.UnsavedChanges | src/ms794.cpp:350-354 | Some page is dirty exactly when save would send something |
| PageStore.SaveFromKeepsPages | src/ms794.cpp:356-370 | The save loop never changes a cached byte |
| PageStore.SaveFromFlags | src/ms794.cpp:356-370 | The save loop never raises a flag, and pages it does not visit keep theirs |
| PageStore.SaveFromFrame | src/ms794.cpp:356-370 | The save loop changes no cached byte and raises no flag |
| PageStore.SaveFromSucceeds | src/ms794.cpp:356-370 | A successful save sent exactly the dirty pages, whole and in order, and left all of them clean |
| PageStore.SaveFromFails | src/ms794.cpp:356-370 | A failed save stopped at a dirty page k. The dirty pages before k were sent and cleaned; k and every page after it keep their flags |
| PageStore.SaveCleanSendsNothing | src/ms794.cpp:350-370 | With no dirty page, save issues no request and succeeds |
| PageStore.SaveOrder | src/ms794.cpp:350-370 | save visits Lighting, Buttons, Profile; after a success nothing is unsaved |
| PageStore.Joined | src/ms794.cpp:372-384 | The joined pages are as long as their sizes add up to |
| PageStore.BackupFrom | src/ms794.cpp:372-384 | The backup loop keeps every page that was cached, byte for byte |
| PageStore.Backup | src/ms794.cpp:372-384 | backupConfig keeps the store well formed |
| PageStore.BackupFromOutcome | src/ms794.cpp:372-384 | A successful backup loop appends the pages as cached when it ends, in order |
| PageStore.BackupFromCache | src/ms794.cpp:372-384 | Backing up pages that are all cached asks the device nothing |
| PageStore.RestoreFrom | src/ms794.cpp:400-405 | The restore loop never consumes a reply and only appends to the log; a success appended one Set_Report per page |
| PageStore.Restore | src/ms794.cpp:386-408 | restoreConfig never consumes a reply and only appends to the log; a success needed a source of exactly 1213 bytes and sent three Set_Reports |
| PageStore.RestoreJoined | src/ms794.cpp:386-408 | Restoring joined pages, on a device that accepts every byte, sends each page verbatim, in order |
| PageStore.JoinedBackup | src/ms794.cpp:372-384 | The backup blob is Lighting, Profile, Buttons, with tags at 0, 59 and 68 |
| PageStore.BackupLayout | src/ms794.cpp:372-384 | A successful backup is 1213 bytes, each segment starting with its page's tag |
| PageStore.RestoreBackupBlob | src/ms794.cpp:386-408 | Restoring the three cached pages joined in backup order sends them back verbatim |
| PageStore.BackupThenRestore | src/ms794.cpp:372-408 | Restoring a blob that backup produced sends the device the three pages it read, unchanged |
| PageStore.RestoreChecksTags | src/ms794.cpp:386-408 | A source of the wrong size, or a wrong Lighting tag at byte 0, sends nothing and fails. A wrong Profile tag at byte 59 sends only the Lighting segment; a wrong Buttons tag at byte 68 sends only Lighting and Profile |
| PageStore.RestoreFromStops | src/ms794.cpp:400-405 | Restore stops at the first segment with a wrong tag or a short send, and fails. The earlier segments went out verbatim and in order; that segment went out only if its tag was right; nothing after it was sent |
| PageStore.BackupFromFails | src/ms794.cpp:372-384 | A failed backup stopped at a page that could not be had. The pages before it were read and appended in order, and the device was asked for no later page |
| Mouse.MS794.constructor | src/ms794.cpp:37-44 | A new object has nothing cached and nothing dirty |
| Mouse.MS794.Keep | src/ms794.cpp:82-105 | Storing a buffer and its flag updates that page's slot and no other |
| Mouse.MS794.ReadPage | src/ms794.cpp:82-105 | The cache, flags and device move as `Fetch` says |
| Mouse.MS794.WritePage | src/ms794.cpp:107-118 | The device and the result move as `PageStore.WritePage` says |
| Mouse.MS794.Button | src/ms794.cpp:120-130 | As `PageStore.Button` |
| Mouse.MS794.SetButton | src/ms794.cpp:132-146 | As `PageStore.SetButton` |
| Mouse.MS794.Macro | src/ms794.cpp:148-156 | As `PageStore.Macro` |
| Mouse.MS794.SetMacro | src/ms794.cpp:158-174 | As `PageStore.SetMacro` (as written) |
| Mouse.MS794.ReadByte | src/ms794.cpp:176-180 | As `PageStore.ReadByte` |
| Mouse.MS794.WriteByte | src/ms794.cpp:182-193 | As `PageStore.WriteByte` |
| Mouse.MS794.LightColor | src/ms794.cpp:195-206 | As `PageStore.LightColor` |
| Mouse.MS794.SetLightColor | src/ms794.cpp:208-226 | As `PageStore.SetLightColor` |
| Mouse.MS794.ReportRate | src/ms794.cpp:228-231 | Reads byte 2 of the Profile page |
| Mouse.MS794.SetReportRate | src/ms794.cpp:233-238 | Writes byte 2 of the Profile page, for a rate 1..4 |
| Mouse.MS794.ActiveProfile | src/ms794.cpp:240-243 | Reads byte 5 of the Profile page |
| Mouse.MS794.SetActiveProfile | src/ms794.cpp:245-250 | Writes byte 5 of the Profile page, for a profile 1..8 |
| Mouse.MS794.NumProfiles | src/ms794.cpp:252-255 | Reads byte 2 of the Lighting page |
| Mouse.MS794.SetNumProfiles | src/ms794.cpp:257-262 | Writes byte 2 of the Lighting page, for 0..8 |
| Mouse.MS794.LightType | src/ms794.cpp:264-267 | Reads byte 21 of the Lighting page |
| Mouse.MS794.SetLightType | src/ms794.cpp:269-274 | Writes byte 21 of the Lighting page, for a type nibble 0..11 |
| Mouse.MS794.LightValue | src/ms794.cpp:276-279 | Reads byte 22 of the Lighting page |
| Mouse.MS794.SetLightValue | src/ms794.cpp:281-284 | Writes byte 22 of the Lighting page |
| Mouse.MS794.ProfileEnabled | src/ms794.cpp:286-292 | As `PageStore.ProfileEnabled` |
| Mouse.MS794.SetProfileEnabled | src/ms794.cpp:294-305 | As `PageStore.SetProfileEnabled`, including both reads of the page |
| Mouse.MS794.ProfileDpi | src/ms794.cpp:307-312 | As `PageStore.ProfileDpi` |
| Mouse.MS794.SetProfileDpi | src/ms794.cpp:314-324 | As `PageStore.SetProfileDpi` |
| Mouse.MS794.ProfileColorIndex | src/ms794.cpp:326-330 | Reads byte 44 + profile of the Lighting page |
| Mouse.MS794.SetProfileColorIndex | src/ms794.cpp:332-338 | Writes byte 44 + profile of the Lighting page, for an index 0..8 |
| Mouse.MS794.Blink | src/ms794.cpp:340-343 | Writes 2 (on) or 1 (off) to byte 1 of the Profile page |
| Mouse.MS794.Ping | src/ms794.cpp:345-348 | True exactly when the Profile page can be had |
| Mouse.MS794.UnsavedChanges | src/ms794.cpp:350-354 | True exactly when some page is dirty |
| Mouse.MS794.Save | src/ms794.cpp:356-370 | The loop is proved against `PageStore.Save` |
| Mouse.MS794.BackupConfig | src/ms794.cpp:372-384 | The loop is proved against `PageStore.Backup`; the blob is its result |
| Mouse.MS794.RestoreConfig | src/ms794.cpp:386-408 | The loop is proved against `PageStore.Restore`; the cache is untouched |
| ButtonEditor.NibbleBits | src/buttonedit.cpp:145-151 | A nibble is the sum of its four bits |
| ButtonEditor.NibbleOr | src/buttonedit.cpp:229-276 | Bitwise OR of two nibbles is a nibble, with 0 as identity on either side |
| ButtonEditor.OrIndex | src/buttonedit.cpp:229-276 | `word \| index`, unsigned: -1 sets every bit, and an index is OR-ed into the low nibble |
| ButtonEditor.NibbleFloor | src/buttonedit.cpp:229-276 | A word with a clear low nibble leaves room for any index |
| ButtonEditor.ClearMode | src/buttonedit.cpp:283 | `x & ~0xF0` clears the mode nibble and keeps every other bit |
| ButtonEditor.CustomField | src/buttonedit.cpp:287-295 | Switching to Custom shows the cleared word with the old mode in its low byte |
| ButtonEditor.SplitThenPack | src/buttonedit.cpp:145-151 | A word is its fields packed together again |
| ButtonEditor.PackThenSplit | src/buttonedit.cpp:229-276 | Packing a firmware mode's fields keeps each field apart |
| ButtonEditor.Pack | src/buttonedit.cpp:275 | The packed word keeps each argument byte in its place, and the index is OR-ed into the mode's low nibble. An index of -1 gives the all-ones word |
| ButtonEditor.HornerBytes | src/buttonedit.cpp:275 | `(arg3 << 24) \| (arg2 << 16) \| (arg1 << 8) \| low` gives back each of its four bytes |
| ButtonEditor.MacroArgSplit | src/buttonedit.cpp:229-276 | The macro byte holds the macro number in its high nibble and the repeat mode in its low one |
| ButtonEditor.Decode | src/buttonedit.cpp:145-217 | setValue: the index and the hex field always take the word. The mode combo selects the word's mode, or Custom when the firmware does not know it. Widgets that could hold their values still can |
| ButtonEditor.Load | src/buttonedit.cpp:151-216 | The body of setValue over the word's fields: index and hex field set, mode or Custom selected, widgets kept well formed. A mode other than Key and Sequence leaves the first scan code alone |
| ButtonEditor.Value | src/buttonedit.cpp:219-222 | value never reaches the "Unhandled mode" assertion on widgets that can hold their values. For a firmware mode and a loaded index, the word carries that mode and index |
| ButtonEditor.Extract | src/buttonedit.cpp:229-276 | extractValue answers exactly for the modes of the combo, None standing for the "Unhandled mode" assertion. An index of -1 sets every bit of the word. A firmware mode's word carries that mode and the button index in its low byte |
| ButtonEditor.SetValueThenValue | src/buttonedit.cpp:145-276 | setValue then value returns the word exactly when it is `Representable`. That covers every Key word, every word of a mode setValue does not know, and every firmware-mode word whose arguments fit its mode's widgets: Sequence with a count of at least 2; Button, Profile and Macro with a known code; TripleClick and Disabled with their fixed arguments |
| ButtonEditor.Representable | src/buttonedit.cpp:145-276 | Every Key word and every word of an unknown mode is representable. Of the other firmware modes only Sequence uses the two upper argument bytes |
| ButtonEditor.PackedFieldsIff | src/buttonedit.cpp:229-276 | A word of a firmware mode comes back from value exactly when its arguments do |
| ButtonEditor.DecodedFieldsIff | src/buttonedit.cpp:145-276 | The arguments setValue shows pack back to the word exactly when it is representable |
| ButtonEditor.ValueThenSetValue | src/buttonedit.cpp:145-276 | For any mode but Custom, value then setValue leaves every widget as it was, except the hex field, which takes the word |
| ButtonEditor.PackedLowByte | src/buttonedit.cpp:229-276 | A packed word's low byte holds mode and index together |
| ButtonEditor.SwitchToCustomKeepsValue | src/buttonedit.cpp:278-302 | When the hex field names the selected mode, switching to Custom keeps the word |
| ButtonEditor.CustomWordRestores | src/buttonedit.cpp:287-295 | The hex field Custom shows gives the packed word back once the index is OR-ed in |
| ButtonEditor.SwitchMode | src/buttonedit.cpp:278-302 | onModeChanged fails exactly when the hex field's mode nibble is no mode of the combo, hitting the "Unhandled mode" assertion. A successful switch leaves widgets that can hold their values |
| ButtonEditor.SwitchModeLoadsOldArguments | src/buttonedit.cpp:278-302 | A successful switch to a firmware mode selects it and keeps the button index; the old mode's arguments are reloaded under the new mode |
| ButtonEditor.SwitchedWord | src/buttonedit.cpp:278-302 | The word a switch loads is the old arguments and index under the new mode nibble |
| ButtonEditor.RemodeExtract | src/buttonedit.cpp:278-302 | The fields of the re-moded word, for the old mode the hex field names |
| ButtonEditor.FirmwareModeLowNibble | src/buttonedit.cpp:34-143 | Every item of the mode combo but Custom has a clear low nibble |
| ButtonEditor.ExtractFirmware | src/buttonedit.cpp:229-276 | Proof step: `Extract` of a firmware mode unfolded to the `Pack` of that mode's arguments |
| ButtonEditor.Remode | src/buttonedit.cpp:278-302 | The re-moded word has the new mode nibble and the old word's other bits |
| ButtonEditor.ButtonEdit.constructor | src/buttonedit.cpp:34-143 | The widgets start at the first item of every combo and the lowest value of every spin box: mode Key, index -1 |
| ButtonEditor.ButtonEdit.SetValue | src/buttonedit.cpp:145-217 | The widgets become what `Decode` says |
| ButtonEditor.ButtonEdit.GetValue | src/buttonedit.cpp:219-222 | Returns the word `Value` defines for the widgets |
| ButtonEditor.ButtonEdit.GetIndex | src/buttonedit.cpp:224-227 | The loaded button index, -1 before any |
| ButtonEditor.ButtonEdit.OnModeChanged | src/buttonedit.cpp:278-302 | The widgets become what `SwitchMode` says |
| LightPage.EnabledColors | src/pagelight.cpp:76-90 | The number of boxes load checks is never negative for a read value, at most seven when the value is, and above two only where it is the value itself (Breathing, ColorfulSteady, Response) |
| LightPage.TypeIndex | src/pagelight.cpp:74 | The type combo selects the type when it is 0..11, and nothing (-1) otherwise |
| LightPage.LoadStep | src/pagelight.cpp:96-100 | One pass of the colour loop: button i shows colour i, and box i is checked when i is below the enabled count |
| LightPage.LoadColors | src/pagelight.cpp:96-100 | The colour loop keeps the widget shape and the store well formed |
| LightPage.LoadPage | src/pagelight.cpp:64-104 | load fails and leaves the widgets alone when the type or value byte cannot be read; otherwise the type byte is split into effect and speed |
| LightPage.Compact | src/pagelight.cpp:122-129 | The checked colours number at most the slots that remain |
| LightPage.StoreColors | src/pagelight.cpp:122-129 | The colour loop of save keeps the store well formed |
| LightPage.TypeByte | src/pagelight.cpp:132-133 | `type << 4 \| speed` is a byte |
| LightPage.SavedValue | src/pagelight.cpp:106-134 | The light value save stores is a byte no larger than 0x80 |
| LightPage.ColorStage | src/pagelight.cpp:106-129 | The colour loop runs exactly when `StoresColors` holds: for every effect except the two streaming ones and random Response, so Off, Tail, Neon, Wave and Trailing store their colours too |
| LightPage.SavePage | src/pagelight.cpp:106-134 | save keeps the store well formed |
| LightPage.FinishSave | src/pagelight.cpp:132-133 | The two byte writes keep the store well formed |
| LightPage.PutColors | src/pagelight.cpp:122-129 | Writing colours keeps the page's size and tag |
| LightPage.SpliceStep | src/pagelight.cpp:122-129 | Writing one colour, then the rest after it, writes them all |
| LightPage.PutColorsWrites | src/pagelight.cpp:122-129 | Each colour lands in its slot, and every other slot is kept |
| LightPage.PutColorsOff | src/pagelight.cpp:122-129 | No byte outside the colour slots changes |
| LightPage.ColorKept | src/ms794.cpp:195-206 | A colour depends only on its own three bytes |
| LightPage.CompactRgb | src/pagelight.cpp:122-129 | The checked colours of a saveable page are 0xRRGGBB values |
| LightPage.SetLightColorCached | src/ms794.cpp:208-226 | setLightColor on a cached page stores the colour into its slot and sends nothing |
| LightPage.StoreColorsCached | src/pagelight.cpp:122-129 | The colour loop on a cached page sends nothing and writes the checked colours in order |
| LightPage.StoreCheckedColor | src/pagelight.cpp:122-129 | One checked colour goes to the next free slot, given what the rest of the loop does |
| LightPage.PutCheckedColor | src/pagelight.cpp:122-129 | A checked colour goes to the next free slot, and the colours after it to the following slots |
| LightPage.ColorStageCached | src/pagelight.cpp:106-129 | The colour stage on a cached page sends nothing and writes the checked colours for a colour effect |
| LightPage.SavedPage | src/pagelight.cpp:106-134 | The saved page keeps its size and tag |
| LightPage.FinishCached | src/pagelight.cpp:132-133 | The two byte writes on a cached page set bytes 21 and 22 and send nothing |
| LightPage.SaveCached | src/pagelight.cpp:106-134 | save on a cached page sends nothing and leaves the page as `SavedPage` says |
| LightPage.SaveTouchesOnly | src/pagelight.cpp:106-134 | save changes no byte outside the colour slots and bytes 21-22; a streaming effect or random Response leaves the colours alone |
| LightPage.LoadColorsCached | src/pagelight.cpp:96-100 | The colour loop on a cached page reads the slots and sends nothing |
| LightPage.LoadOutcome | src/pagelight.cpp:64-104 | load reads the two bytes it needs and fails only when the Lighting page cannot be had; a cached page needs no traffic |
| LightPage.LoadCached | src/pagelight.cpp:64-104 | load of a cached page splits the type byte into effect and speed, and shows the page's colours with the first boxes checked |
| LightPage.LoadOfSaved | src/pagelight.cpp:64-134 | Loading a page that save produced gives back the effect and speed, a streaming direction, random Response, and the stored colours |
| LightPage.SavedPageBytes | src/pagelight.cpp:132-133 | The type and value bytes of a saved page: effect and speed in the nibbles, and bit 7 set only for 0x80 |
| LightPage.SavedPageColors | src/pagelight.cpp:122-129 | A page saved for a colour effect holds the checked colours, in order |
| LightPage.SaveThenLoad | src/pagelight.cpp:64-134 | save then load on a cached page sends nothing and gives back what `LoadOfSaved` lists: one box for Steady, two for Fliker, all the stored ones otherwise |
| LightPage.TypeByteSplit | src/pagelight.cpp:66-70 | The type byte splits back into effect and speed |
| LightPage.PageLight.constructor | src/pagelight.cpp:26-57 | Effect Off and no box checked. Every colour button starts black, which assumes the ColorButton widget's default colour; that widget is not part of this model |
| LightPage.PageLight.Load | src/pagelight.cpp:64-104 | The widgets and store become what `LoadPage` says |
| LightPage.PageLight.ShowColors | src/pagelight.cpp:96-100 | The loop is proved against `LoadColors` |
| LightPage.PageLight.ShowColor | src/pagelight.cpp:96-100 | One pass is proved against `LoadStep` |
| LightPage.PageLight.Save | src/pagelight.cpp:106-134 | The store becomes what `SavePage` says |
| LightPage.PageLight.WriteTypeAndValue | src/pagelight.cpp:132-133 | The two writes are as `FinishSave` |
| LightPage.PageLight.SaveColors | src/pagelight.cpp:106-129 | The light value is `SavedValue`, and the store is as `ColorStage` |
| LightPage.PageLight.StoreCheckedColors | src/pagelight.cpp:122-129 | The loop is proved against `StoreColors`; it returns the number of checked colours |
| LightPage.PageLight.StoreColor | src/pagelight.cpp:122-129 | A checked colour is stored at the next free slot, and the count advances |
| RatePage.Pow2 | src/pagerate.cpp:53-59 | A power of two is at least 1 |
| RatePage.RateHz | src/pagerate.cpp:53-59 | The label's rate is defined exactly for codes 1..25, where the shift and the 32-bit product are defined |
| RatePage.RateLabels | src/pagerate.cpp:53-59 | Codes 1..4 show 125, 250, 500 and 1000 Hz |
| RatePage.RateHzBounds | src/pagerate.cpp:53-59 | Every defined rate is between 125 Hz and 2097152000 Hz, inside a 32-bit int |
| RatePage.Pow2Add | src/pagerate.cpp:53-59 | Powers of two multiply by adding exponents |
| RatePage.RateHzRises | src/pagerate.cpp:53-59 | Each step up at least doubles the rate, so distinct codes show distinct rates |
| RatePage.LoadRate | src/pagerate.cpp:37-46 | A failed read leaves the widgets alone |
| RatePage.SaveRate | src/pagerate.cpp:48-51 | save keeps the store well formed |
| RatePage.LoadRateOutcome | src/pagerate.cpp:37-46 | load succeeds exactly when the Profile page can be had; the slider then holds the rate byte and the label its rate |
| RatePage.SaveRateCached | src/pagerate.cpp:48-51 | save on a cached page sends nothing and changes only the rate byte |
| RatePage.SaveThenLoadRate | src/pagerate.cpp:37-51 | save then load gives the slider back, labelled with its rate |
| ProfileEditor.DpiTableShape | src/profileedit.cpp:44-57 | The DPI table has an entry for every slider position 0..11, from 500 DPI at 1 to 4000 at 11, rising strictly |
| ProfileEditor.PaletteShape | src/profileedit.cpp:33-42 | Eight distinct palette entries, for colour indices 0..7. Index 8 (MaxProfileColor), which setProfileColorIndex accepts, has no entry, so its combo shows nothing |
| ProfileEditor.ComboIndex | src/profileedit.cpp:105-119 | An index with no item selects nothing (-1) |
| ProfileEditor.EnableChildren | src/profileedit.cpp:153-165 | There is one enabled state per child, as before |
| ProfileEditor.EnableProfile | src/profileedit.cpp:153-165 | Disabling deselects the radio button; every child but the check box follows |
| ProfileEditor.EnableProfileEffects | src/profileedit.cpp:153-165 | A disabled profile is never the active one; enabling keeps the radio button; the check box stays enabled |
| ProfileEditor.EnableProfileIdempotent | src/profileedit.cpp:153-165 | A second call with the same value changes nothing |
| ProfileEditor.DpiAt | src/profileedit.cpp:148-151 | `DPI[value]` is None past the end of the table |
| ProfileEditor.Show | src/profileedit.cpp:105-119 | The widgets after a successful load keep their shape |
| ProfileEditor.LoadProfile | src/profileedit.cpp:105-119 | load fails and leaves the widgets alone when the DPI or the colour read fails. Otherwise the label shows the preset of the clamped slider; this is the corrected line 116, see Findings and Left out |
| ProfileEditor.LoadProfileOutcome | src/profileedit.cpp:105-119 | load succeeds exactly when its colour read finds the Lighting page, since the DPI test cannot fail |
| ProfileEditor.LoadProfileCached | src/profileedit.cpp:105-119 | load of a cached page sends nothing; the box shows bit 7 clear, a disabled profile loses the radio button, and the slider shows the clamped DPI nibble |
| ProfileEditor.LoadedLabelAsWritten | src/profileedit.cpp:115-116 | As written, the label shows `DPI[nibble]`, None past the twelve presets |
| ProfileEditor.PageWithDpi | src/profileedit.cpp:105-119 | The page holds the given DPI byte |
| ProfileEditor.LoadedLabelOverrunsTable | src/profileedit.cpp:105-119 | The counterexample: nibble 12 puts the slider at 11 while the label reads DPI[12]; nibble 0 shows preset 0 while the slider sits at 1 |
| ProfileEditor.LoadShowsSliderDpi | src/profileedit.cpp:105-119 | Corrected: with the label fed from the slider, load always shows the preset the slider selects |
| ProfileEditor.SaveProfile | src/profileedit.cpp:121-126 | save keeps the store well formed |
| ProfileEditor.SetDpiCached | src/ms794.cpp:314-324 | On a cached page, setProfileDpi keeps bit 7 and stores the value below it |
| ProfileEditor.SetEnabledCached | src/ms794.cpp:294-305 | On a cached page, setProfileEnabled sets or clears bit 7 and keeps the rest |
| ProfileEditor.SaveProfileCached | src/profileedit.cpp:121-126 | save on a cached page sends nothing; the DPI byte becomes `dpi \| (enabled ? 0 : 0x80)`, and the colour index is stored |
| ProfileEditor.SaveThenLoadProfile | src/profileedit.cpp:105-126 | save then load gives back the check box, the slider with its preset's DPI, and the colour when it names a palette entry |
| ProfileEditor.ProfileEdit.constructor | src/profileedit.cpp:59-103 | A new editor is bound to its profile index |
| ProfileEditor.ProfileEdit.Load | src/profileedit.cpp:105-119 | The widgets and store become what `LoadProfile` says, including its corrected label: the label shows the clamped slider's preset, not line 116's raw nibble |
| ProfileEditor.ProfileEdit.Save | src/profileedit.cpp:121-126 | The store becomes what `SaveProfile` says |
| ProfileEditor.ProfileEdit.Enabled | src/profileedit.cpp:128-131 | The check box state |
| ProfileEditor.ProfileEdit.Active | src/profileedit.cpp:133-136 | The radio button state |
| ProfileEditor.ProfileEdit.SetActive | src/profileedit.cpp:138-141 | Only the radio button changes |
| ProfileEditor.ProfileEdit.OnDpiChanged | src/profileedit.cpp:148-151 | The label shows preset `value`, or None for an index past the twelve-entry table, where the C++ reads out of bounds |
| ProfileEditor.ProfileEdit.OnEnableProfile | src/profileedit.cpp:153-165 | The loop over the children is proved against `EnableProfile` |

## Left out

- Hot-plug handling: deviceArrival, deviceRemove, the HID monitor and the connectChanged signal. Opening the device is replaced by a `HidDevice` built from a script.
- The QHIDDevice transport itself: Get_Report and Set_Report are modelled by their effect on a scripted link.
- QIODevice storage: backupConfig returns the blob and restoreConfig takes it as a sequence; partial writes of the storage are not modelled.
- Widget layout, visibility, labels' translated text and number formatting, and `hideWidgets`. The model keeps the values the widgets hold.
- LightPage.LoadPage: keeps the speed nibble as read. The slider maximum that onLightTypeChanged sets (10 for Steady, 3 for the speed effects) would clamp it, and the slider's minimum lives in a `.ui` form that is not part of this model.
- onRandomColorToggled and the colour dialogs of PageLight: they only show or hide widgets and pick colours.
- onSelectProfile (src/profileedit.cpp:167-173): its loop over the sibling editors' radio buttons, which keeps at most one profile checked, is not modelled. Each editor's own `active` state is.
- RatePage.LoadRate: the slider takes the rate byte as read, because the slider's range lives in the `.ui` form; codes outside 1..25 give no label rate (None) instead of the undefined C++ shift.
- Q_ASSERT preconditions become `requires` clauses: the colour index, the profile index, the rate 1..4 and the other setter ranges. The "Unhandled mode" assertion of extractValue becomes `None`.
- A button index outside the `ButtonIndex` enum, or a macro index outside 1..8, is undefined behaviour in the source. `button`, `setButton`, `macro` and `setMacro` do unchecked pointer arithmetic on such an index. The model requires the index to be in range instead: see `PageStore.Button`, `PageStore.SetButton`, `PageStore.Macro`, `PageStore.SetMacro` and their `Mouse.MS794` wrappers.
- main.cpp and mainwindow.cpp (argument parsing, window assembly) are not part of this model. The mouse-button combo of mousebuttonbox.cpp is: its `setValue` selects the item whose data is the code and its `value` returns that item's data, or 0 when no item has the code (`ButtonEditor.Select` in `ButtonEditor.Load`).
- ProfileEditor.LoadProfile, ProfileEditor.ProfileEdit.Load: the label follows the clamped slider, `DPI[Clamp(nibble, 1, 11)]`, not the raw nibble that profileedit.cpp:116 passes to onDpiChanged. The code as written is modelled separately by `ProfileEditor.LoadedLabelAsWritten`, and `ProfileEditor.LoadedLabelOverrunsTable` shows where the two differ: nibble 0 shows DPI 0, and nibbles 12..15 read past the table. `ProfileEditor.ProfileEdit.OnDpiChanged` itself takes any index and shows None for one past the table.
- The scan-code editors (`UsbScanCodeEdit`, whose source is not part of this model) and the `QxtCheckComboBox` modifier mask are taken to hold any byte and return it unchanged (`scan0`, `scan1` and `modifiers` in `ButtonEditor.Load`). The Key and Sequence cases of `ButtonEditor.SetValueThenValue` and `ButtonEditor.Representable` rest on that assumption.

## Findings

| source | as written | input that shows it | evidently intended | confidence | as-written member | corrected member |
|---|---|---|---|---|---|---|
| src/ms794.cpp:158-174 | setMacro compares only the first min(128, length) bytes of the slot, then writes the new bytes padded with zeros | slot 1 holds 1 2 3, the new macro is 1 2: nothing is written, and macro(1) still reads 1 2 3 | compare the whole 128-byte slot it writes, so a shorter macro clears the stale tail | not executed | PageStore.SetMacroKeepsStaleTail | PageStore.SetMacroWholeSlotReadsBack |
| src/profileedit.cpp:115-116 | load calls onDpiChanged with the DPI nibble as read, not with the clamped slider value | a DPI nibble of 12..15 indexes DPI[12..15], past the 12-entry table; a nibble of 0 shows preset 0 while the slider sits at 1 | show the preset the slider holds, `DPI[slider]` | not executed | ProfileEditor.LoadedLabelOverrunsTable | ProfileEditor.LoadShowsSliderDpi |
