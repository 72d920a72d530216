# switcheroo — a verified model of the window switcher's core

switcheroo is a macOS window switcher. A hotkey opens a picker that lists
every window on some space of some display, filtered by a fuzzy query and
sorted by score, application name and window title. Confirming a row
brings that window's application to the front and makes the window the key
window. The model has one Dafny module per piece of the core:

- `Bytes` — bytes, fixed-width integers, and the little-endian encoding
  behind `to_ne_bytes`. Every macOS target is little-endian, so "native" is
  taken as little-endian.
- `KeyWindow` — the 0xF8-byte event record built by `make_key_window` and
  its two posts, modelled on an `array<byte>`.
- `AxResolver` — the 20-byte remote-token buffer (`init_ax_buffer`,
  `ax_request`), the `is_window` subrole test, and the bounded resolver
  loop `resolve_ax_for_pid`.
- `WindowCatalog` — the union of window ids over displays and spaces, and
  the order-preserving filter of the window list.
- `IconNormalizer` — the integer branches of `ns_image_to_rgba`.
- `Windows` — the inventory `Manager` (a class with three map fields and
  `refresh`), `App::new`, and the ordered, early-return focus protocol of
  `Window::focus`.
- `Listing` — `get_filtered_items`: collecting rows, the matcher, and the
  three-key stable sort.
- `Ui` — the `Switcheroo` state and its `update` transitions.
- `LegacyPicker` — the older immediate-mode picker of `src/app.rs`: its
  column width and the per-frame selection, arrow and enter logic.

Every operating-system call becomes an input:

- a list: the managed displays, the window list, the running applications;
- or a function-typed oracle: the windows of a space, the accessibility
  element for a token, the window server's answer to each post, the process
  serial number (PSN) for a pid, and the window bounds.

`HashMap` iteration order is not specified, so the loops over maps pick
their next key nondeterministically. Methods whose result depends on that
order return the order they used as a ghost value.

## Model

| member | source | states |
|---|---|---|
| Bytes.LeRoundTrip | src/macos.rs:227 | reading back the n little-endian bytes of a value below 256^n gives the value |
| Bytes.I32BitsRoundTrip | src/macos.rs:252 | the two's-complement bits of an i32 decode to the same i32 |
| KeyWindow.MakeKeyWindow | src/macos.rs:221-248 | posts the KeyDown record first, and the KeyUp record only if the first post succeeded; returns the failing post's error, otherwise success |
| KeyWindow.RecordFields | src/macos.rs:222-235 | the record is 0xF8 bytes: byte 0x04 is 0xF8, byte 0x3A is 0x10, bytes 0x20..0x2F are 0xFF, bytes 0x3C..0x3F are the window id; every other byte except 0x08 is zero |
| KeyWindow.RecordWindowId | src/macos.rs:227-232 | the window id can be decoded from bytes 0x3C..0x40 |
| KeyWindow.DownUpDifferOnlyInFlavour | src/macos.rs:235-243 | the two posted records differ only at byte 0x08, which is 0x01 then 0x02 |
| KeyWindow.RecordDeterminesWindow | src/macos.rs:221-235 | records of one flavour are equal exactly when their window ids are equal |
| KeyWindow.RecordUnique | src/macos.rs:221-235 | the layout fixes every byte of the record |
| AxResolver.InitAxBuffer | src/macos.rs:250-256 | a fresh 20-byte buffer: the pid at 0..4, zeros at 4..8, 0x636f636f at 8..12, zeros at 12..20 |
| AxResolver.AxRequest | src/macos.rs:258-265 | overwrites only bytes 12..20, with the probe index, and returns the element for the whole buffer |
| AxResolver.TokenPid | src/macos.rs:250-259 | the pid can be decoded from the first four bytes of every probe token |
| AxResolver.ProbeTokenInjective | src/macos.rs:250-259 | tokens for different (pid, index) pairs differ |
| AxResolver.IsWindow | src/macos.rs:297-312 | true exactly when the element has a nonzero window id and its subrole is the string "AXStandardWindow" or "AXDialog" |
| AxResolver.FirstMatch | src/macos.rs:184-201 | the least probe index below 100 that yields a window element for w; None when there is no such index |
| AxResolver.Resolution | src/macos.rs:177-205 | keys are a subset of the targets; each value is a window element of its own id; a target is resolved exactly when some probe below 100 yields it |
| AxResolver.ResolveAxForPid | src/macos.rs:177-205 | returns the reference resolution; the keys and the final `remaining` set are disjoint and together make up the targets; probes use indices 0,1,2,… in order, at most 100 of them, and stop once nothing remains |
| AxResolver.FoundBeforeStep | src/macos.rs:187-201 | a target is found before index i+1 exactly when it is found before i or at i |
| WindowCatalog.GetVisibleWindowIds | src/macos.rs:97-140 | the u32 truncation of every number listed for any space of any display |
| WindowCatalog.VisibleIdsMembership | src/macos.rs:106-137 | an id is visible exactly when some display has some space that lists it |
| WindowCatalog.GetWindowInfoList | src/macos.rs:142-175 | an error when the window list cannot be copied; otherwise the infos of the kept entries, in list order |
| WindowCatalog.ListedMembership | src/macos.rs:163-171 | an info is listed exactly when some entry is on layer 0, has a visible id, and has that info |
| WindowCatalog.ListedAppend | src/macos.rs:150-172 | the listing is a filter: listing a concatenation lists each part in turn |
| WindowCatalog.ListedWindowsAreVisible | src/macos.rs:97-175 | every listed window comes from a layer-0 entry of its pid and is listed on some space of some display |
| IconNormalizer.ExpandRgb | src/macos.rs:360-367 | each complete 3-byte chunk followed by 255, matching the reference expansion |
| IconNormalizer.ExpandedRgbLayout | src/macos.rs:360-367 | the output has 4·(n/3) bytes; every fourth byte is 255; the others are the input bytes in order |
| IconNormalizer.StripAlphaOfExpansion | src/macos.rs:360-367 | dropping every fourth byte of the expansion gives back the complete chunks of the input |
| IconNormalizer.Normalized | src/macos.rs:338-404 | nothing without image data; 24 bpp is expanded; 32 bpp is passed through; 64 bpp is decoded; any other depth gives None; width and height are truncated to u32 |
| IconNormalizer.NsImageToRgba | src/macos.rs:338-404 | returns the reference conversion |
| IconNormalizer.Rgb24Icon | src/macos.rs:360-367 | a 24-bpp image of n pixels gives 4n bytes, every fourth byte is opaque, and stripping alpha gives back the input |
| Windows.NewApp | src/windows.rs:111-119 | an application record with the running application's pid and name, and no windows yet |
| Windows.Restrict | src/windows.rs:62-63 | `retain`: keeps exactly the entries whose key is live, with their values unchanged |
| Windows.Manager.constructor | src/windows.rs:13-18 | the default manager: nothing published and nothing cached |
| Windows.Manager.New | src/windows.rs:21-25 | a refresh of the empty manager (`Windows.Refreshed` from the empty state): when the window list is unavailable the manager stays empty; otherwise the icon cache holds the fetched icons of the live pids, the handle cache is exactly what one resolver call per pid with uncached windows returns, and the kept applications are published with those handles |
| Windows.Manager.AppMap | src/windows.rs:93-95 | the published map; every application sits under its own pid, and every window carries the cached handle of its id |
| Windows.Manager.GetIcon | src/windows.rs:97-99 | the cached icon of the pid, if there is one |
| Windows.Manager.Refresh | src/windows.rs:27-91 | the new state is `Windows.Refreshed` of the old one: with no window list it fails and nothing changes; otherwise the caches are evicted to the live ids, icons are fetched, the resolver runs once per pid with uncached windows (the calls returned are those the handle cache is built from), and the published map is rebuilt; the cache invariant `Valid` is kept |
| Windows.Manager.CollectApps | src/windows.rs:36-59 | builds the map of tracked applications; an icon is stored only for a pid that has none |
| Windows.Manager.ResolveUncached | src/windows.rs:72-75 | one resolver call per pid that has uncached windows, each call for exactly that pid's uncached windows; the answers are merged into the cache and retained entries are kept |
| Windows.GroupUncached | src/windows.rs:65-70 | groups the listed windows without a cached handle by pid |
| Windows.UncachedMembership | src/windows.rs:65-70 | a pid is grouped exactly when it owns a listed window without a handle, and it is grouped with exactly those windows |
| Windows.AttachWindows | src/windows.rs:77-87 | appends each listed window that has a handle to its application, in list order |
| Windows.PublishedHandles | src/windows.rs:77-89 | every published application sits under its own pid, and every published window carries the cached handle of its id |
| Windows.CacheKeysLive | src/windows.rs:33-75 | after the resolver round every cached handle belongs to a listed window |
| Windows.FetchIconsKeepsExisting | src/windows.rs:53-57 | a cached icon is never replaced, and a new icon is the converted icon of a tracked application with that pid |
| Windows.KeptAppsMembership | src/windows.rs:38-59 | a pid is published exactly when some running application with that pid owns a listed window, has the Regular policy and is not terminated |
| Windows.WindowsOfMembership | src/windows.rs:77-87 | an application's published windows are exactly its listed windows that have a cached handle |
| Windows.FetchIconsMissing | src/windows.rs:38-57 | a pid still without an icon after the application loop had none before, and no tracked application with that pid has a convertible icon |
| Windows.FetchIconsStable | src/windows.rs:53-57 | the application loop stores nothing when no tracked application without a cached icon has a convertible one |
| Windows.IconsIdempotent | src/windows.rs:38-62 | fetching and evicting icons a second time over the same applications and listing leaves the icon cache as it is |
| Windows.UnresolvedStaysUnresolved | src/windows.rs:64-74 | a window still without a handle after a resolver round matched no probe of its pid, so probing that pid again does not resolve it |
| Windows.SecondRoundEmpty | src/windows.rs:64-74 | every resolver call of a second round, made for the windows still without a handle, resolves nothing |
| Windows.NothingResolved | src/windows.rs:71-74 | a resolver round whose calls all resolve nothing leaves the handle cache as retained |
| Windows.HandlesIdempotent | src/windows.rs:61-74 | a second resolver round over the same listing and element source adds no handle |
| Windows.EvictionKeepsRound | src/windows.rs:61-74 | after a resolver round, evicting again to the same listed windows removes nothing |
| Windows.RoundsKeepHandles | src/windows.rs:61-74 | two evict-then-resolve rounds over the same listing end with the same handle cache |
| Windows.RefreshIdempotent | src/windows.rs:27-91 | `refresh` is idempotent: a second refresh against the same system state leaves the published map, the handle cache and the icon cache unchanged |
| Windows.Centre | src/windows.rs:165-169 | the warp point is equally far from both edges on each axis |
| Windows.Focus | src/windows.rs:130-172 | the trace follows the protocol order: PSN lookup, set-front, key-down post, key-up post, raise, bounds, warp; every step but the last succeeded; the run passes exactly when all seven steps ran; otherwise it reports the failure of its last step |
| Windows.FocusPassesIffAllSucceed | src/windows.rs:135-171 | focus passes exactly when every system answer is a success, and then it performs the full seven-step trace |
| Windows.FocusPsnFailure | src/windows.rs:135-140 | a failed PSN lookup performs no later step |
| Windows.FocusFrontFailure | src/windows.rs:142-145 | a failed set-front returns its error code and posts no key-window record |
| Windows.FocusKeyWindowFailure | src/windows.rs:147-150 | a failed key-window post means no raise; a failed key-down post means no key-up post |
| Windows.FocusBoundsFailure | src/windows.rs:155-163 | a failed bounds query returns an error after the raise and does not warp |
| Listing.Candidate | src/ui.rs:324-343 | with the empty query every window is a row with score 0; otherwise a window is a row exactly when the matcher accepts "name title", with the matcher's score and indices |
| Listing.CollectMembership | src/ui.rs:324-344 | a row is listed exactly when it is the row of some window of some application |
| Listing.EmptyQueryListsEveryWindow | src/ui.rs:324-330 | with the empty query every window of every application is listed, with score 0, and nothing else is |
| Listing.QueryListsMatches | src/ui.rs:331-343 | with a query, exactly the windows the matcher accepts are listed, with the matcher's score and indices |
| Listing.NatCmp | src/ui.rs:347 | integer comparison |
| Listing.StrCmpEqual | src/ui.rs:348-349 | string comparison says Equal exactly for equal strings |
| Listing.StrCmpFlip | src/ui.rs:348-349 | string comparison is antisymmetric |
| Listing.StrCmpTrans | src/ui.rs:348-349 | string comparison is transitive |
| Listing.CompareFlip | src/ui.rs:346-350 | the three-key comparator is antisymmetric |
| Listing.CompareTrans | src/ui.rs:346-350 | the three-key comparator is transitive |
| Listing.InsertSorted | src/ui.rs:346-350 | inserting into a sorted list keeps it sorted |
| Listing.SortItemsCorrect | src/ui.rs:346-350 | the sort returns a permutation of its input, in descending score, then ascending name, then ascending title |
| Listing.GetFilteredItems | src/ui.rs:317-353 | the rows of every application (each visited once, in map order) sorted by the comparator; the same length and the same multiset as the unsorted rows |
| Ui.FreshSelection | src/ui.rs:66-71 | after relisting, the first row if there is one, otherwise nothing |
| Ui.NextSelection | src/ui.rs:111-119 | nothing changes on an empty list; otherwise no selection becomes row 0, and a row moves one down, stopping at the last; arrow down in src/app.rs:130-135 is the same transition |
| Ui.PrevSelection | src/ui.rs:121-130 | no selection on an empty list; otherwise a row moves one up, and row 0 or no selection becomes row 0 |
| Ui.TransitionsStayInRange | src/ui.rs:103-130 | every selection transition keeps "selected is None or below filtered_count" |
| Ui.PrevUndoesNext | src/ui.rs:111-130 | moving down and then up returns to the same row, except at the last row |
| Ui.NextUndoesPrev | src/ui.rs:111-130 | moving up and then down returns to the same row, except at the first row |
| Ui.NextReachesLast | src/ui.rs:111-119 | pressing SelectNext enough times reaches the last row and stays there |
| Ui.Switcheroo.Boot | src/ui.rs:36-47 | empty query, no selection, no picker, and a manager that is one refresh of the empty manager (`Windows.Refreshed`), so with no window list nothing is published |
| Ui.Switcheroo.Update | src/ui.rs:53-155 | per message: ShowPicker is a no-op while a picker is open; otherwise the manager is refreshed (`Windows.Refreshed`: unchanged when the window list is unavailable, rebuilt from the snapshot otherwise), and it clears the query, relists, selects row 0 if there is one, and opens the picker. HidePicker and Confirm clear query, selection and picker when a picker is open. QueryChanged relists and selects. SelectNext and SelectPrev move the selection. WindowClosed clears the picker only for its id. Confirm focuses exactly when the selection is inside the list. The selection stays in range |
| Ui.Switcheroo.FocusSelected | src/ui.rs:133-138 | focuses the selected row exactly when the selection lies inside the freshly built list |
| Ui.Switcheroo.ClosePickerWindow | src/ui.rs:92-98 | an open picker is closed, and the query and the selection are cleared |
| LegacyPicker.Utf8Len | src/app.rs:21 | `len()` of a string counts UTF-8 bytes: between one and four per character |
| LegacyPicker.Utf8LenAscii | src/app.rs:21 | the byte length equals the character count exactly for ASCII text |
| LegacyPicker.PickerApp.constructor | src/app.rs:18-30 | the given windows, an empty query, no selection, and the maximum name width of those windows |
| LegacyPicker.MaxWidth | src/app.rs:18-23 | the largest byte length of an application name, or 10 when there are no applications |
| LegacyPicker.MaxWidthUnique | src/app.rs:19-23 | the maximum width is unique |
| LegacyPicker.Clamped | src/app.rs:120-124 | a selection at or past the end of the list is reset to None; any other selection is kept |
| LegacyPicker.ArrowUp | src/app.rs:137-139 | a row moves one up; row 0 becomes None |
| LegacyPicker.ArrowUpUndoesDown | src/app.rs:130-139 | arrow up undoes arrow down except at the last row; arrow down is the same transition as `Ui.NextSelection` |
| LegacyPicker.FrameSelection | src/app.rs:120-139 | after one frame's keys the selection is None or inside the list |
| LegacyPicker.PickerApp.Update | src/app.rs:76-147 | lists and sorts the rows for the typed query; clamps the selection, then applies arrow down and arrow up; enter focuses the selected row only when it is inside the list; counts the close commands for escape and for enter |

## Left out

- Foreign calls: SkyLight, Accessibility, CoreGraphics and AppKit. Each one is an input list or an oracle function, as described above. The handle of an accessibility element is only an identity (`AxElement.ref`) plus the two attributes `is_window` reads.
- The 64-bpp icon branch is floating-point (f16 decoding, clamping, scaling). It is the `HalfFloatDecoder` parameter; the model only says that it is used.
- `Windows.Centre` uses exact reals instead of CGFloat. `CGWarpMouseCursorPosition` is recorded as a step, and nothing more is modelled of it.
- The main connection id passed to `SLSGetWindowBounds` is folded into the bounds oracle.
- `Listing.SortItems` models `sort_by` as a stable insertion sort. The model proves that the result is sorted and a permutation of the input. It does not prove stability, that is, that rows comparing equal keep their collection order.
- Map iteration order is nondeterministic in the model. Rust's `HashMap` order is arbitrary too, but it stays fixed between calls that do not change the map; the model does not capture that.
- Rendering, highlight spans, scrolling, opening and closing the picker window, and hotkey polling are not modelled (src/ui.rs:157-315, src/app.rs:149-303). `Ui.Task` only names the window task that `update` returns.
- `activate_application` and `hide_application` are foreign calls with no state in the model, so they are not recorded.
- src/main.rs is process setup only and is not part of this model.
- `LegacyPicker.PickerApp` omits the icon texture cache and the matcher object of `App`.
- `macos::App` is not defined in the macos.rs shown. `LegacyPicker` therefore uses `Windows.App` and `Windows.Window` in its place.
- `get_visible_window_ids` and `get_window_info_list` unwrap dictionary entries and panic when one is missing (src/macos.rs:214-219). The model takes well-formed entries as input, so those panics cannot occur.
- `get_visible_window_ids` never returns an error in the code: a null array from SkyLight is not checked. `WindowCatalog.GetVisibleWindowIds` therefore returns a set, not a result.
- `KeyWindow.MakeKeyWindow`: the post is given the record as a value, although `SLPSPostEventRecordTo` receives a `*mut u8` (src/macos.rs:237, src/macos.rs:243). The model assumes the post does not write into the buffer, so the second record is the key-up layout for the same window.
- The unused SkyLight externs, `get_ax_element` and `focus_ax` are not modelled.
- `focus` always performs AXRaise after the key-window step and never compares against the active space; the visible set holds only window ids, with no space descriptors or ordinals.
