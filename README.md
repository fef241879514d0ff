# Keyboard modifiers status: a verified model

This is a Dafny model of the GNOME Shell extension "keyboard modifiers status" (the `KMS` class in
`extension.js`). The extension shows a panel label with the modifier keys that are currently active.
It tracks three modifier masks:

- the base mask, which it reads from the pointer;
- the sticky-keys latch mask;
- the sticky-keys lock mask.

The label text is rebuilt only when one of these masks differs from the value it had at the last render.
The model also covers the mapping-line normaliser of the preferences dialog (`prefs.js`). That code
turns the edited text into the stored list of mapping lines, and it inverts the newline join used to
show the list.

The project has five files:

- `wrappers.dfy`: `Option`. It stands for JavaScript's `undefined`: a pointer report or a sticky-keys
  argument that is absent.
- `text.dfy`: counting occurrences of a character in a string.
- `indicator.dfy`: the indicator text as a pure function `Render(state, latch, lock)` of the three
  masks, and what the text tells a reader about the masks.
- `extension.dfy`: the tracker as a class `Kms`, with the render loop as a method proved against `Render`.
- `prefs.dfy`: `split('\n')`, `trim()`, `filter(l => l)` and `join('\n')`, and their round trips.

Masks are `bv32`, because the JavaScript `&` works on 32-bit integers. The eight modifier bits are
Clutter's `SHIFT_MASK` … `MOD5_MASK`, `1 << 0` … `1 << 7`. Each modifier symbol is a single `char`;
the latch and lock markers are strings.

Three consequences of the code are worth stating outright:

- A modifier that is only latched gets the latch marker without its base symbol, because
  `extension.js:200` tests only `state` and `lock` (`RenderCapsLatchedOnly`).
- The text is always framed by `icon + opening + " "` and `" " + closing` (`extension.js:197`,
  `extension.js:207`), so Shift alone renders as `" ⇧ "` (`RenderShiftDown`).
- The label depends on the history and not only on the masks. After enabling with nothing down it
  is empty, `""`, because nothing changed and no render happened. After a press and release of Shift
  the masks are zero again, but the label now shows the rendering of nothing, `"  "`
  (`PressAndReleaseAfterEnable`).

## Model

| member | source | states |
|---|---|---|
| Indicator.Fragment | extension.js:200-205 | The text one table entry contributes: its symbol when its bit is down or locked, then the latch marker and a space when latched, then the lock marker and a space when locked |
| Indicator.Fragments | extension.js:199-206 | The fragments of the table's entries concatenated in table order |
| Indicator.Render | extension.js:197-207 | The indicator text: icon, opening and a space, the fragments of the modifier table, then a space and closing |
| Indicator.RenderFramed | extension.js:197-207 | Every indicator text starts with icon, opening and a space, and ends with a space and closing |
| Indicator.SymbolShownOnce | extension.js:199-201 | A modifier's symbol occurs exactly once when its bit is in the pointer mask or the lock mask, and not at all otherwise (latched alone adds nothing; down and locked does not duplicate it) |
| Indicator.MarkersCounted | extension.js:199-205 | The text holds one latch marker per latched table modifier and one lock marker per locked one |
| Indicator.SymbolsInTableOrder | extension.js:39-48 | Shown symbols appear in the order of the modifier table |
| Indicator.RenderIgnoresHighBits | extension.js:195-207 | Masks that agree on the eight table bits render the same text, even though a change in other bits triggers a re-render |
| Indicator.ModifiersWellFormed | extension.js:39-50 | The table's symbols are distinct, differ from the markers and the space, and its masks lie in the low eight bits |
| Indicator.FragmentsAppend | extension.js:199-206 | Rendering a concatenated table concatenates the renderings of its parts |
| Indicator.FragmentsStep | extension.js:199-206 | One more table entry appends exactly that entry's fragment |
| Indicator.FragmentsSymbolCount | extension.js:199-201 | In a well-formed table, each entry's symbol occurs once when shown and never otherwise |
| Indicator.FragmentsLatchCount | extension.js:202-203 | The number of latch markers equals the number of latched entries |
| Indicator.FragmentsLockCount | extension.js:204-205 | The number of lock markers equals the number of locked entries |
| Indicator.FragmentsInOrder | extension.js:199-201 | Two shown entries have their symbols in table order |
| Indicator.FragmentsIgnoreHighBits | extension.js:199-205 | For a table within the low eight bits, bits outside them do not affect the fragments |
| Indicator.FragmentsOfInactive | extension.js:199-205 | Entries whose bit is clear in all three masks contribute nothing |
| Indicator.FragmentsSingle | extension.js:199-205 | When only one entry's bit is set anywhere, the text is that entry's fragment alone |
| Indicator.RenderNothing | extension.js:197-207 | With no bit set, the text is two spaces |
| Indicator.RenderShiftDown | extension.js:197-207 | Shift down alone renders `" ⇧ "` |
| Indicator.RenderControlLocked | extension.js:197-207 | Control locked alone renders `" ⋀◦  "`: the symbol, then the lock marker and a space |
| Indicator.RenderCapsLatchedOnly | extension.js:197-207 | Caps Lock latched alone renders only the latch marker: `" '  "` |
| Extension.AppendFragment | extension.js:200-205 | One pass of the loop appends exactly the entry's fragment (symbol if down or locked, then latch marker, then lock marker) |
| Extension.BuildText | extension.js:197-207 | The loop over any table builds the framing around the fragments of all entries in order |
| Extension.BuildIndicator | extension.js:197-207 | The loop over the modifier table builds exactly `Render(state, latch, lock)` |
| Extension.Kms.constructor | extension.js:63-71 | A new tracker has all masks zero, no indicator and no label |
| Extension.Kms.Enable | extension.js:83-138 | Enabling resets the masks, creates an empty label, then updates. Afterwards the tracker is valid, the base mask is the pointer report (zero if none), and the label was rendered exactly when that report is non-zero |
| Extension.Kms.Disable | extension.js:141-175 | Disabling drops the label and clears every mask and the indicator |
| Extension.Kms.Rerender | extension.js:197-213 | The changed branch sets indicator and label to the rendering of the current masks and commits those masks |
| Extension.Kms.Update | extension.js:178-217 | An absent pointer report keeps the old base mask. The masks are then committed, and the indicator and label are re-rendered exactly when a mask differs from its committed value, and are untouched otherwise. Once a render has happened, the label shows the rendering of the committed masks; before that it is empty |
| Extension.Kms.OnCapturedEvent | extension.js:219-234 | Key presses and releases update as above, every other event changes nothing, and the event always propagates |
| Extension.Kms.A11yModsUpdate | extension.js:238-251 | Each present sticky-keys mask replaces the stored one and an absent one keeps it. Then the update runs, and the handler returns `GLib.SOURCE_CONTINUE` (true) |
| Extension.UpdateIsIdempotent | extension.js:185-213 | Two updates with the same pointer report leave what one leaves, and the second changes no field: all six masks, the indicator and the label keep the values the first update gave them |
| Extension.PressAndReleaseAfterEnable | extension.js:185-213 | After enabling with nothing down, pressing and releasing Shift returns to zero masks with the label showing `"  "`, the rendering of nothing, where right after enabling it was the `""` the label is created with at extension.js:110 |
| Extension.EnableWithNothingDown | extension.js:110 | Enabling with no modifier down leaves the label empty and renders nothing |
| Prefs.TrimStart | prefs.js:19 | The result is a suffix of the input, everything cut off is trimmable, and it does not start with a trimmable character |
| Prefs.TrimEnd | prefs.js:19 | The result is a prefix of the input, everything cut off is trimmable, and it does not end with a trimmable character |
| Prefs.Trim | prefs.js:19 | The result has no trimmable character at either end |
| Prefs.TrimStrips | prefs.js:19 | Trimming removes a trimmable prefix and a trimmable suffix and keeps the infix between them |
| Prefs.TrimFixesTrimmed | prefs.js:19 | Trimming leaves a string unchanged exactly when it is already trimmed |
| Prefs.TrimBlank | prefs.js:19 | A line trims to the empty string exactly when every character of it is trimmable |
| Prefs.Split | prefs.js:19 | Splitting gives one piece more than there are newlines, and no piece contains a newline |
| Prefs.Join | prefs.js:16 | `join('\n')`: the lines with one newline between each two neighbours, and the empty text for no lines |
| Prefs.JoinNewlines | prefs.js:16 | Joining n newline-free lines puts in exactly n - 1 newlines |
| Prefs.JoinInvertsSplit | prefs.js:16-19 | Joining the pieces of a split gives back the text |
| Prefs.SplitInvertsJoin | prefs.js:16-19 | Splitting the join of a non-empty list of newline-free lines gives back the list |
| Prefs.TrimAll | prefs.js:19 | `map(l => l.trim())`: as many lines as the input, each the trim of the line at the same position |
| Prefs.DropEmpty | prefs.js:19 | The filter keeps only non-empty lines, each taken from the input |
| Prefs.DropEmptyKeepsOrder | prefs.js:19 | The filter keeps exactly the non-empty lines, at increasing positions, in their original order |
| Prefs.DropEmptyKeepsNonEmpty | prefs.js:19 | The filter leaves a list of non-empty lines unchanged |
| Prefs.ParseMapping | prefs.js:19 | Every stored line is non-empty, trimmed and newline-free, and there are at most as many as newline-separated pieces of the text |
| Prefs.ParseKeepsLineOrder | prefs.js:19 | The stored lines are exactly the trimmed non-blank pieces of the text, in text order |
| Prefs.ParseRoundTrip | prefs.js:16-19 | Showing a list of trimmed, non-empty, newline-free lines and parsing the text gives back the list |
| Prefs.ParseIdempotent | prefs.js:16-19 | Parsing the shown form of a parse result changes nothing |

## Left out

- The widgets are not modelled: the panel button and `St.Label`, inserting and removing the button,
  and the GTK/Adw preferences window. The label is represented by its text only; `None` means no label exists.
- Connecting and disconnecting the stage `captured-event` signal and the seat
  `kbd-a11y-mods-state-changed` signal is not modelled, nor is the fallback from the default seat to
  `Clutter.DeviceManager`. The handlers are methods; they require a valid (enabled) tracker because
  the source connects them only while enabled.
- `global.get_pointer()` is a parameter: the pointer mask, or `None` when it is undefined. The pointer
  coordinates are discarded, as in the source.
- `console.debug` logging and the version logging at load time are not modelled.
- The settings store is not modelled (`get_strv`/`set_strv`, and the symbol entries that forward
  `entry.text` to `set_string`). Only the text-to-list parse and the list-to-text join are modelled.
- No preset selector or saved symbol snapshot is modelled: no such code exists in the files.
- Strings are sequences of code points. JavaScript strings are UTF-16, so a lone surrogate in the
  editor text is not represented. Trimming follows the ECMAScript WhiteSpace and LineTerminator sets.
- Extension.Kms.Update: an exception from `this.label.text` on a missing label is not modelled. The
  precondition `Valid()` rules that case out, because the label exists whenever the handlers are connected.
- Extension.Kms.Disable: the exception the source raises when disabling a tracker that was never
  enabled (`this.button` is null at `extension.js:155`) is not modelled; the model's `Disable`
  succeeds from any state. The host only disables an enabled extension.
