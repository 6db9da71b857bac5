# Undo history of the vditor-lite editor, in Dafny

The editor keeps the history of its editing surface as text patches between
serialised snapshots of the surface's markup. The `Undo` class holds, for its
one editing mode ("ir"), a record of four fields: an undo stack and a redo
stack of patch lists, the last committed text, and a flag `hasUndo` saying an
undo is pending. It commits snapshots (`addToUndoStack`), undoes and redoes
them (`undo`, `redo`, through `renderDiff`), rewrites the seed record with the
caret position before the first keystroke (`recordFirstPosition`), and forgets
everything (`clearStack`). A snapshot carries the caret as a `<wbr>` sentinel
(`addCaret`). A few browser predicates (`isSafari`, `isFirefox`, `isCtrl`,
`isChrome`) decide some of the guards.

The project has five modules:

- `Strings` (strings.dfy): `indexOf`, the first-occurrence `replace`, and
  ASCII case mapping.
- `Compatibility` (compatibility.dfy): the browser predicates. The
  `navigator` strings and the key event's flags are parameters.
- `Patch` (patch.dfy): an exact, invertible patch. It stands in for the
  diff-match-patch library, with the same record shape: hunks of diffs whose
  operation codes are -1, 0 and 1. `Make(text, target)` builds the hunk that
  takes `text` to `target`, and `Invert` reverses a record and negates its
  codes. Both round trips are proved.
- `UndoHistory` (undo_history.dfy): the four fields as a value `Record`, with
  one function per operation. It also defines the invariant `Coherent`: the
  undo records step back through the committed texts, and the redo records
  step forward to the undone ones. The lemmas about the operations are here.
- `UndoManager` (undo_manager.dfy): the class `Undo` with the four fields,
  updated in place. Ghost fields hold the texts the history reaches. A
  `Surface` class holds the markup, the contenteditable attribute and the
  caret. The methods `AddToUndoStack`, `Undo`, `Redo`, `RecordFirstPosition`
  and `ClearStack`, and the constructor, keep `Coherent` and are proved to
  follow their `UndoHistory` functions. `RenderDiff` is proved to set the
  last text and the surface to the applied patch, and `RedoPatchList` to
  build `Invert` of its record.

On these points the model follows the code as written:

- `clearStack` leaves both stacks empty. The seed record is pushed by the
  caller's `addToUndoStack` (src/index.ts:279-282).
- Undo applies the stored patch forward, because the patch is made from
  the new text to the old one. Redo applies the inverted copy.
- `recordFirstPosition` acts only when the seed record is NOT empty.
- The last text keeps its `<wbr>` sentinel.

## Model

| member | source | states |
|---|---|---|
| Compatibility.IsSafari | src/ts/util/compatibility.ts:1-6 | true exactly when the user agent contains "Safari" and does not contain "Chrome" |
| Compatibility.IsFirefox | src/ts/util/compatibility.ts:8-10 | true exactly when the lower-cased user agent contains "firefox" |
| Compatibility.IsCtrl | src/ts/util/compatibility.ts:21-34 | on a platform whose upper-cased name contains "MAC", true exactly when meta is pressed without ctrl; elsewhere, exactly when ctrl is pressed without meta |
| Compatibility.IsChrome | src/ts/util/compatibility.ts:36-41 | true exactly when the user agent contains "Chrome" and the vendor contains "Google Inc" |
| UndoHistory.AddCaret | src/ts/undo/index.ts:270 | the serialised markup with its first caret element replaced by the `<wbr>` sentinel, the rest unchanged |
| UndoHistory.StripCaret | src/ts/undo/index.ts:85-92 | the text with its first `<wbr>` removed and then its first " vditor-ir__node--expand" removed, as the seed check compares it |
| UndoHistory.WithCaretSpan | src/ts/undo/index.ts:209-224 | the markup with the caret element inserted at the caret index when a selection lies inside the surface and the surface holds no sentinel yet; the markup unchanged otherwise |
| UndoHistory.Snapshot | src/ts/undo/index.ts:207-271 | the text `addCaret` returns: the markup with the caret element inserted, serialised, and that element turned into the sentinel |
| Patch.ApplyAll | src/ts/undo/index.ts:145-153 | the text part of applying a patch list: each hunk is applied in order where its expected text matches exactly and is skipped otherwise |
| Patch.Invert | src/ts/undo/index.ts:139-144 | the reversed copy of a patch list with every operation code negated; it has as many hunks as the original |
| UndoManager.Undo.constructor | src/ts/undo/index.ts:22-27 | a new manager starts with the cleared record, which is coherent |
| UndoManager.Undo.ClearStack | src/ts/undo/index.ts:198-205 | afterwards `hasUndo` is false, the last text is empty and both stacks are empty |
| UndoHistory.ClearedIsCoherent | src/ts/undo/index.ts:198-205 | the cleared record is coherent with the single empty text |
| UndoManager.Undo.AddToUndoStack | src/ts/undo/index.ts:102-130 | the new state is `Committed` of the old state and the surface's snapshot, and the history stays coherent |
| UndoHistory.Committed | src/ts/undo/index.ts:102-130 | nothing changes exactly when the snapshot equals the last text and the undo stack is not empty; otherwise the last text becomes the snapshot and the pushed record is the patch from the snapshot to the old last text; a first record is always pushed; the stack never grows past 50; `hasUndo` ends false; redo is emptied when an undo was pending and kept otherwise |
| UndoHistory.PushBounded | src/ts/undo/index.ts:122-125 | the new record is on top, the length grows by one up to 50, and the records below are the old stack less only its oldest entry |
| UndoHistory.CommitKeepsCoherent | src/ts/undo/index.ts:102-130 | a commit that pushes keeps the history coherent: the new top takes the snapshot back to the old last text, and redo is left empty |
| UndoManager.Undo.Undo | src/ts/undo/index.ts:29-47 | the new state is `Undone` of the old one; when undo acts, the surface and the last text show the previous committed text, and otherwise the surface is unchanged |
| UndoHistory.Undone | src/ts/undo/index.ts:29-47 | no change on a read-only surface or with fewer than two records; otherwise the top undo record is moved to the top of redo and applied to the last text, and `hasUndo` becomes true; the number of records is conserved and the bottom record is never popped |
| UndoHistory.UndoKeepsCoherent | src/ts/undo/index.ts:29-47 | undo keeps the history coherent and takes the last text back to the previous committed text |
| UndoManager.Undo.Redo | src/ts/undo/index.ts:49-63 | the new state is `Redone` of the old one; when redo acts, the surface and the last text show the text that was undone, and otherwise the surface is unchanged |
| UndoHistory.Redone | src/ts/undo/index.ts:49-63 | no change on a read-only surface or an empty redo stack; otherwise the top redo record goes back on top of undo and its inverse is applied to the last text; `hasUndo` is untouched and the number of records is conserved |
| UndoHistory.RedoKeepsCoherent | src/ts/undo/index.ts:49-63 | redo keeps the history coherent and takes the last text forward to the text that was undone |
| UndoManager.Undo.RenderDiff | src/ts/undo/index.ts:132-157 | the last text becomes the record applied to the old last text, or its inverse for redo, and the surface shows that text |
| UndoManager.RedoPatchList | src/ts/undo/index.ts:139-144 | the loops negating every operation code of the reversed copy give exactly the inverse record |
| Patch.InvertAt | src/ts/undo/index.ts:139-144 | hunk `k` of the inverse is hunk `n-1-k` of the record with its codes negated |
| Patch.NegateSwapsTexts | src/ts/undo/index.ts:140-144 | negating the codes swaps the text a hunk expects with the text it leaves |
| Patch.InvertRestores | src/ts/undo/index.ts:137-149 | when a record takes `a` cleanly to `b`, its inverse takes `b` cleanly back to `a` |
| Patch.Make | src/ts/undo/index.ts:104-118 | the patch list is empty exactly when the two texts are equal, and has at most one hunk |
| Patch.MakeRestores | src/ts/undo/index.ts:104-114 | the patch made from `text` to `target` applies cleanly to `text` and yields `target` |
| Patch.MakeInvertRestores | src/ts/undo/index.ts:104-149 | the inverse of that patch applies cleanly to `target` and yields `text` |
| Patch.MakeToEmpty | src/ts/undo/index.ts:104-114 | the patch from a non-empty text to the empty text is one hunk at 0 deleting the whole text, the seed's shape |
| UndoHistory.CommitThenUndo | src/ts/undo/index.ts:29-130 | committing a new snapshot and undoing it brings back the old last text, and the old undo stack below the bound |
| UndoHistory.UndoThenRedo | src/ts/undo/index.ts:29-63 | undo then redo gives back the record, with `hasUndo` set |
| UndoHistory.RedoThenUndo | src/ts/undo/index.ts:29-63 | redo then undo gives back the record |
| UndoHistory.CommitUndoRedo | src/ts/undo/index.ts:29-130 | commit, undo and redo give back the committed record and its new text |
| UndoHistory.CommitAfterUndoInvalidatesRedo | src/ts/undo/index.ts:126-129 | after an undo, committing a new snapshot empties redo, and redo then does nothing |
| UndoHistory.SeedAfterClear | src/index.ts:279-282 | clearing then committing leaves one seed record that deletes the whole snapshot and is coherent; undo never pops it |
| UndoHistory.UndoUndoRedo | src/ts/undo/index.ts:29-63 | over an empty seed and three typed texts, undoing twice shows the second then the first text, and redoing shows the second again |
| UndoHistory.TypingSession | src/ts/undo/index.ts:29-130 | over an empty seed, typing three texts, undoing twice, redoing once and committing a fourth text shows the expected texts, and the final redo does nothing |
| UndoManager.Undo.RecordFirstPosition | src/ts/undo/index.ts:65-100 | the new state is `FirstPositionRecorded` of the old state and the surface's snapshot, and the history stays coherent |
| UndoHistory.FirstPositionRecorded | src/ts/undo/index.ts:65-100 | no change unless every guard holds: a selection range, one non-empty seed record, no redo, not Backspace on Firefox, not Safari, and the stripped snapshot equal to the seed text without its sentinel; otherwise only the seed's first diff text and the last text change, both to the snapshot |
| UndoHistory.FirstPositionIdempotent | src/ts/undo/index.ts:65-100 | recording the first position again with the same snapshot changes nothing more |
| UndoManager.Undo.WriteSeed | src/ts/undo/index.ts:97-98 | once the guards hold, the in-place write of the seed's first diff text and the last text gives the `FirstPositionRecorded` state and keeps the history coherent |
| UndoHistory.FirstPositionWrites | src/ts/undo/index.ts:97-98 | once the guards hold, writing the snapshot into the first diff of the seed and into the last text is exactly `FirstPositionRecorded`, and the result is coherent |
| UndoHistory.FirstPositionKeepsCoherent | src/ts/undo/index.ts:85-98 | after the rewrite the seed deletes the whole new last text, so the history stays coherent |
| UndoHistory.SnapshotPlacesCaret | src/ts/undo/index.ts:207-270 | for markup without either marker and a caret inside it, the snapshot is the markup with `<wbr>` inserted at the caret |
| UndoHistory.SnapshotStripsToMarkup | src/ts/undo/index.ts:207-270 | removing the first sentinel from the snapshot of such markup gives the markup back |
| Compatibility.SafariAgent | src/ts/util/compatibility.ts:1-6 | a user agent that names Safari and holds no capital C is taken for Safari, and never for Chrome whatever the vendor |
| Compatibility.ChromeAgent | src/ts/util/compatibility.ts:36-41 | a user agent that names Chrome is never taken for Safari, even when it names Safari too, and is taken for Chrome when the vendor names Google Inc |
| Compatibility.SafariIsNeverChrome | src/ts/util/compatibility.ts:1-41 | no user agent is taken for both Safari and Chrome |
| Compatibility.FirefoxInAnyCase | src/ts/util/compatibility.ts:8-10 | "firefox" in any letter case anywhere in the user agent is recognised |
| Compatibility.FirefoxWitness | src/ts/util/compatibility.ts:8-10 | a user agent taken for Firefox holds the word in some letter case |
| Compatibility.OneCommandModifier | src/ts/util/compatibility.ts:21-34 | on every platform exactly one of "meta alone" and "ctrl alone" is the command modifier, and a key event taken for it carries exactly one of the two modifiers |
| Compatibility.CtrlNeedsExactlyOneModifier | src/ts/util/compatibility.ts:21-34 | with both modifiers or neither, no platform sees the modifier |
| Compatibility.CtrlOnKnownPlatforms | src/ts/util/compatibility.ts:21-34 | "MacIntel" takes meta and "Win32" takes ctrl |

## Left out

- The diff-match-patch library is not part of this model. `Patch.Make` builds one hunk from the common prefix and suffix. It makes no minimal diff and keeps no context. `Patch.ApplyAll` applies a hunk only where its text matches exactly and skips it otherwise. There is no fuzzy matching and no per-hunk result flags.
- The DOM work of `addCaret` is collapsed into the function `Snapshot` over the markup and a caret index. That covers inserting the caret element at the range, reading the markup, removing the element and restoring the selection. The rewriting of the rendered diagram and math nodes happens on a clone that the returned text never reads, so it is not modelled. "The surface already holds a `wbr` element" is approximated by the markup containing `<wbr>`. After serialising, the source removes every `.vditor-wbr` element from the surface, not only the one it inserted; the model leaves the surface's markup as it was.
- UndoManager.Undo.RenderDiff: the surface keeps the rendered text as it is. The source then re-renders code blocks, places the caret from the sentinel, scrolls, rebuilds the outline and fires the after-render hooks. Those are browser work.
- `patch_deepCopy` needs no model: records are values, so redo cannot change the stored record.
- Only the "ir" mode exists, so the record indexed by `currentMode` becomes the class's own fields.
- UndoManager.Undo.RecordFirstPosition: a seed whose first hunk has no diff makes the source throw before any write. The model leaves the history unchanged there.
- The `if (!state)` return after the pop in `undo` cannot fire: two or more records are present, and a patch list is an array, which is never falsy. It has no branch in the model.
- Strings.ToLower, Strings.ToUpper: only ASCII letters change case. The source's full Unicode case mapping is not modelled.
- `accessLocalStorage` is an environment probe and is not part of this model.
- The other source files (src/index.ts, src/ts/util/EditMode.ts and the rest) are callers. They are not modelled, except for the clear-then-commit seeding that `UndoHistory.SeedAfterClear` states.
