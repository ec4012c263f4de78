# ControlBox — a Dafny model of the WPF title-bar controller

`ControlBox` is a static helper for WPF windows. It exposes four boolean
attached properties: `HasHelpButton`, `HasMaximizeButton`,
`HasMinimizeButton` and `HasSystemMenu`. It turns them into bits of the
window's native Win32 style words. When one of these properties changes on a
window, the helper does one of two things:

- If the native window exists, it rewrites the words at once.
- If the native window does not exist yet, it subscribes a handler to the
  window's `SourceInitialized` event. That handler rewrites the words once the
  native window is created and then unsubscribes itself.

The model has three modules.

- `Words` (words.dfy) is a C# `int` used as a 32-bit style word.
  - A word is represented as the set of its 1-bit positions, each below 32.
  - `|`, `&` and `~` become union, intersection and complement. Unary `-`
    becomes two's-complement negation.
  - `Value` reads a word as an unsigned number. `NotValue` and `NegValue`
    prove that `Not` and `Neg` agree with 32-bit arithmetic. So the
    `-~0x400 == 0x401` computation below is the real 32-bit result, not an
    artefact of the representation.
- `Win32Styles` (win32_styles.dfy) holds the pure parts of the update routines:
  - the index and mask constants;
  - the pair of native words that `GetWindowLong`/`SetWindowLong` read and
    write;
  - `ComputeStyle`, and the extended-style computation in two versions: as
    written and corrected.
- `ControlBox` (control_box.dfy) holds the stateful part:
  - the flag record with its defaults;
  - the property-changed callback and the `SourceInitialized` handler;
  - the count of subscribed handlers;
  - event sequences, with an invariant that every sequence preserves.

Each operation that writes the extended style word takes a `Variant`:

- `AsWritten` runs the help-off branch as line 165 is written, masking with 0x401.
- `Corrected` clears it by masking with `~0x400`.

A property that holds of the code is proved for both variants. A property that
holds only once the clear is corrected is proved for `Corrected`, and a
counterexample for `AsWritten` sits beside it.

Two points of the code shape the state machine:

- **One handler per change.** Each change made before the native handle exists
  subscribes one more handler (ControlBox.cs:101). Each handler removes only
  itself (ControlBox.cs:118). The model keeps a count, and all subscribed
  handlers run when the event is raised. `FiringManyEqualsFiringOnce` shows
  that running k ≥ 1 of them leaves the same words as running one.
- **No callback for an unchanged value.** WPF calls a property-changed callback
  only when the effective value changes. `SetFlag` is therefore a no-op
  when a property is set to the value it already has.

## Model

| member | source | states |
|---|---|---|
| `Words.NotValue` | ControlBox.cs:131 | C#'s `~` on a 32-bit word: the complement reads as 2^32 - 1 minus the word. |
| `Words.NegValue` | ControlBox.cs:165 | C#'s unary `-` on a 32-bit word: a nonzero word negates to 2^32 minus the word, and zero negates to zero. |
| `Win32Styles.MaskValues` | ControlBox.cs:15-18 | The four mask words are 0x10000, 0x20000, 0x400 and 0x80000 as 32-bit numbers. |
| `Win32Styles.HelpClearMaskAsWrittenIs0x401` | ControlBox.cs:165 | The literal clear mask `-~ContextHelp` is the word 0x401 (bits 0 and 10). `~ContextHelp` alone would be 0xFFFFFBFF. |
| `Win32Styles.NativeWords.SetWindowLong` | ControlBox.cs:171-178 | Writing one of the two words, GWL_STYLE (-16) or GWL_EXSTYLE (-20), makes `GetWindowLong` of that index read the new value. The other word reads as before. |
| `Win32Styles.ComputeStyle` | ControlBox.cs:121-153 | After the update, bit 0x10000 is set iff the maximize button is wanted. Likewise bit 0x20000 for the minimize button and bit 0x80000 for the system menu. Every other bit of the style word is unchanged. |
| `Win32Styles.ComputeStyleIsDetermined` | ControlBox.cs:121-153 | Any word with those three owned bits, and the rest of the input word, is exactly the computed word. |
| `Win32Styles.ComputeStyleLastWriteWins` | ControlBox.cs:121-153 | Updating with flags f and then with flags g gives the same word as updating with g alone. |
| `Win32Styles.ComputeStyleIdempotent` | ControlBox.cs:121-153 | A second update with the same flags changes nothing. |
| `Win32Styles.ComputeStyleKeepsAgreeingWord` | ControlBox.cs:121-153 | A word whose owned bits already match the flags is returned unchanged. Toggling the maximize button off and back on restores such a word. |
| `Win32Styles.ComputeExtendedStyle` | ControlBox.cs:155-169 | Corrected help-button update: bit 0x400 is set iff the help button is wanted, and every other bit is unchanged. |
| `Win32Styles.ComputeExtendedStyleIsDetermined` | ControlBox.cs:155-169 | Any word with the help bit as wanted and the other bits of the input is exactly the corrected result. |
| `Win32Styles.ComputeExtendedStyleLastWriteWins` | ControlBox.cs:155-169 | The last corrected help-button update overrides earlier ones, so the update is idempotent. |
| `Win32Styles.ComputeExtendedStyleAsWritten` | ControlBox.cs:155-169 | The update as written. Setting the help bit is right. The clear branch keeps bit 0x400 as it was, keeps bit 0, and clears every other bit. |
| `Win32Styles.ComputeExtendedStyleAsWrittenIdempotent` | ControlBox.cs:155-169 | The update as written is idempotent in both branches. |
| `Win32Styles.AsWrittenAgreesOnlyOnBitZero` | ControlBox.cs:163-166 | The written clear branch agrees with the intended one iff the word is 0 or 1. |
| `Win32Styles.AsWrittenClearBranchCounterexamples` | ControlBox.cs:163-166 | With help off, word 0x400 keeps its help bit, where the intended result clears it. Word 0x100 becomes 0, where the intended result keeps 0x100. |
| `ControlBox.Flags.With` | ControlBox.cs:44-90 | After a `SetHas…` accessor, the matching `GetHas…` accessor reads the new value and the other three properties read as before. |
| `ControlBox.FlagsAreDetermined` | ControlBox.cs:44-90 | Two flag records that the four `GetHas…` accessors cannot tell apart are equal. |
| `ControlBox.Fresh` | ControlBox.cs:20-42 | A new window reads the registered defaults: help off, and maximize, minimize and system menu on. It has no handle and no handler, and its words are the ones the native window will be created with. |
| `ControlBox.UpdateStyle` | ControlBox.cs:121-153 | Reading, updating and writing back the style word shows exactly the three flags, keeps every other style bit, and leaves the extended word alone. |
| `ControlBox.UpdateExtendedStyle` | ControlBox.cs:155-169 | Reading, updating and writing back the extended word leaves the style word alone. Setting the help bit keeps every other bit, as does the corrected clear. The clear as written keeps bits 0 and 10 as they were and drops every other bit. |
| `ControlBox.ShowsHelpUpdateResult` | ControlBox.cs:159-166 | The extended word after an update, in both variants: setting adds bit 10, the corrected clear removes it, and the clear as written intersects the word with {0, 10}. |
| `ControlBox.ApplyUpdates` | ControlBox.cs:105-106 | Both updates in turn leave the style word showing the three flags, with every other style bit kept. The extended word follows `UpdateExtendedStyle` in the chosen variant. The words show all four flags when corrected, and whenever help is on. |
| `ControlBox.ShowsUpdateIsDetermined` | ControlBox.cs:105-106 | In either variant, any words that fit the description of an update are exactly the words it computes. |
| `ControlBox.ApplyUpdatesIdempotent` | ControlBox.cs:115-116 | In both variants, a second run of both updates with the same flags changes nothing. |
| `ControlBox.ApplyUpdatesStyleLastWriteWins` | ControlBox.cs:105-106 | In both variants, the style word after updates with f and then g equals the word after g alone. |
| `ControlBox.ApplyUpdatesLastWriteWins` | ControlBox.cs:105-106 | Corrected, updating both words with f and then g is the same as updating with g alone. |
| `ControlBox.AsWrittenLastWriteDoesNotWin` | ControlBox.cs:105-106 | As written, the last update does not win. Help on then off leaves 0x400 where help off alone leaves 0. Help off then on turns 0x100 into 0x400 where help on alone gives 0x500. |
| `ControlBox.ApplyUpdatesKeepsSyncedWords` | ControlBox.cs:121-169 | Corrected, words that already show the flags are left exactly as they are. |
| `ControlBox.AsWrittenFixedPoints` | ControlBox.cs:121-169 | As written, an update leaves the words unchanged iff the style word shows the three flags and the extended word fits the help flag. With help on it must have the help bit; with help off it may have no bit except 0 and 10. |
| `ControlBox.OnControlBoxChanged` | ControlBox.cs:92-108 | Another kind of object is left unchanged. A window without a handle gets one more pending handler and no word is written. A window with a handle keeps its pending count, and its words get one update from the flags in the chosen variant. |
| `ControlBox.OnWindowSourceInitialized` | ControlBox.cs:110-119 | One handler run updates both words from the current flags and leaves one pending handler fewer. |
| `ControlBox.FireHandlers` | ControlBox.cs:110-119 | Running k subscribed handlers leaves k fewer pending. For k > 0 the words show one update from the flags; for k = 0 they are unchanged. |
| `ControlBox.FiringManyEqualsFiringOnce` | ControlBox.cs:101 | In both variants, any k ≥ 1 pending handlers leave the same words as a single handler. |
| `ControlBox.SourceInitialized` | ControlBox.cs:110-119 | Creating the native window runs every pending handler and leaves none pending. With none pending the words are untouched; otherwise they show one update from the current flags. |
| `ControlBox.SetFlag` | ControlBox.cs:20-90 | A `SetHas…` accessor stores the value. When the value differs, the change callback runs. Setting the value a property already has does nothing. |
| `ControlBox.Step` | ControlBox.cs:92-119 | Setting a property changes that property only and does not create the native window. Creating the window leaves the flags as they are and no handler pending. |
| `ControlBox.Run` | ControlBox.cs:92-119 | After a sequence of events, the native window exists iff it existed before or one of the events created it. |
| `ControlBox.RunSnoc` | ControlBox.cs:92-119 | A run that ends with an event is the run before it followed by one step. |
| `ControlBox.RunTwo` | ControlBox.cs:92-119 | A run of two events is the first step followed by the second. |
| `ControlBox.RunThree` | ControlBox.cs:92-119 | A run of three events is the three steps in order. |
| `ControlBox.StepPreservesInvariant` | ControlBox.cs:92-119 | In each variant, every property change and the window's creation preserve `Invariant`. Before creation, no word is written. After creation, no handler is pending. The words are `UpdatedWords` for the variant, or untouched while no property has changed. |
| `ControlBox.RunPreservesInvariant` | ControlBox.cs:92-119 | In each variant, every event sequence starting from a fresh window satisfies `Invariant`. As written, the words after creation satisfy all of these: the style word shows one update from the current flags; bit 0 of the extended word is as created; the help bit is set when wanted; and the other extended bits are either all kept or all gone, with only bits 0 and 10 possible when help is off. |
| `ControlBox.RunDependsOnlyOnFinalFlags` | ControlBox.cs:92-119 | Corrected: once the native window exists and some property differs from its default, the words depend only on the creation-time words and the current flags, and they show the flags. |
| `ControlBox.RunStyleDependsOnlyOnFinalFlags` | ControlBox.cs:92-119 | In both variants, the style word of such a window depends only on the creation-time words and the current flags, and it shows the three flags. |
| `ControlBox.CreationAppliesFinalFlags` | ControlBox.cs:97-119 | In both variants, when changes made before the native window exists have subscribed at least one handler, creating the window leaves the initial words updated once from the current flags, whatever the order of the changes. |
| `ControlBox.ChangesBeforeCreationAreOrderIndependent` | ControlBox.cs:97-119 | In both variants, two sequences of changes before creation that leave the same flags give the same created window. |
| `ControlBox.RevertedChangePushesDefaults` | ControlBox.cs:97-119 | A property changed and changed back before creation leaves its handlers subscribed, so creation pushes the defaults: empty words become style 0x000B0000. Creating the window with nothing changed leaves the words empty. |
| `ControlBox.AsWrittenRunDependsOnHistory` | ControlBox.cs:92-119 | As written, the extended word depends on history. Two runs that end with the same flags differ: the run that turned help on and off again ends with 0x400, the other with 0. |
| `ControlBox.UnchangedDefaultsAreNotApplied` | ControlBox.cs:20-42 | In both variants, if every property set so far was set to its default, the flags are the defaults, no handler is pending, and the native words are exactly as created. In such a run the registered defaults are not pushed to the window; a property changed and changed back does push them (`RevertedChangePushesDefaults`). |
| `ControlBox.ChangeBeforeCreationIsAppliedAtCreation` | ControlBox.cs:99-102 | Turning the maximize button off before the window exists removes the maximize box at creation, shows the other two buttons, and keeps every other style bit. Corrected, the help bit is clear and every other extended bit is kept. As written, the extended word becomes its own bits 0 and 10 only. |
| `ControlBox.HelpBitSticksAsWritten` | ControlBox.cs:159-166 | After turning help on and off again on a created window, the help bit is still set as written and clear when corrected. |

## Left out

- `NativeMethods.GetWindowLong` and `SetWindowLong` (ControlBox.cs:171-178) call
  into user32.dll. They are modelled as reading and writing the two words of a
  `NativeWords` value.
  - The previous value that `SetWindowLong` returns is ignored by the code, so
    it is not modelled.
  - A failing call is not modelled.
- Dependency-property registration, `UIPropertyMetadata`, `WindowInteropHelper`
  and the delivery of WPF events (ControlBox.cs:20-42, 97, 114) are framework
  internals. They are modelled as:
  - the `Flags` record with its defaults;
  - a handle-created boolean;
  - a count of subscribed handlers.
- Property values from styles, bindings or inheritance are left out. WPF
  resolves those to one effective value, and the model sees only that value.
- The `[PublicAPI]` and `[AttachedPropertyBrowsableForType]` attributes are
  metadata with no behaviour.
- How Windows draws the title bar from these bits is outside the program.
- NativeWords: nothing but this helper writes the two style words between
  events. The code re-reads both words before every update (ControlBox.cs:123,
  157) because other code may change them; the model has no such writer. The
  run-level lemmas (`RunDependsOnlyOnFinalFlags`, `UnchangedDefaultsAreNotApplied`,
  `AsWrittenRunDependsOnHistory`, `CreationAppliesFinalFlags` and the others
  about `Run`) hold under this assumption. The single-update lemmas read the
  words afresh and do not need it.
- Closing the window is not modelled: once created, the handle never becomes
  zero again. After a window closes, the test at ControlBox.cs:99 would
  see a zero handle, and each later change would subscribe a handler that
  never runs; the model does not describe that phase.
- The native handle's numeric value is left out. Only whether it is zero
  matters (ControlBox.cs:99).

## Findings

| source | as written | input that shows it | evidently intended | confidence | as-written member | corrected member |
|---|---|---|---|---|---|---|
| ControlBox.cs:165 | `style &= -~ContextHelp` masks with `-~0x400`, which is 0x401 in 32-bit two's complement. Clearing the help button therefore keeps bit 0x400 and wipes every extended-style bit except 0x1 and 0x400. Every update made while HasHelpButton is false runs this branch. Help is off by default, so any window that changes another property without turning help on is hit. | HasHelpButton = false on a window whose extended style is 0x400: the help bit stays set. With extended style 0x100 (WS_EX_WINDOWEDGE), the word becomes 0. At window level: HasMaximizeButton = false before creation wipes 0x100 at creation, and after help is turned on and off again the help bit stays set. | `style &= ~ContextHelp`: clear bit 0x400 and keep every other bit. | not executed | `Win32Styles.ComputeExtendedStyleAsWritten` (with `Win32Styles.AsWrittenClearBranchCounterexamples`, `Win32Styles.AsWrittenAgreesOnlyOnBitZero`, and at window level `ControlBox.HelpBitSticksAsWritten`, `ControlBox.AsWrittenRunDependsOnHistory`) | `Win32Styles.ComputeExtendedStyle` (at window level: the `Corrected` variant, with `ControlBox.RunDependsOnlyOnFinalFlags`) |
