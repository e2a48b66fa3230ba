# Sticky-note board: interaction engine

A Dafny model of the interaction engine of a virtual sticky-note board.
It covers the board page's spawn placement, note creation and input limits
(`frontend/src/Pages/Dashboard.jsx`) and the sticky-note component's
behaviour (`frontend/src/Components/StickyNote.jsx`). The component part
includes the overlap detector, the board-store updates it passes to
`setNotes`, and the per-note hover, drag and edit state machine.

Modules, one per concern:

- `Geometry`: the 180 px footprint, the 160 px spawn separation, `clamp` and the board-bound invariant.
- `Notes`: the note record and the board store. The store is the ordered sequence of notes, and every update builds a new sequence (`map`, `filter` and `reduce` in the source).
- `Overlap`: `computeOverlapInfo`. It is a loop proved against recursive sum and count functions.
- `Spawn`: `getRandomCenterPosition` and `findSpawnPosition`. The random-probe loop and the push-away loops are proved against specification functions. `Math.random()` is injected as `rand`, where `rand(k)` is the k-th pair of draws. `Math.sqrt` is injected as `sqrt`.
- `Composer`: the key-down guard and `addNote`. This covers `split(/\n/)`, `slice(0, 7)`, `join("\n")` and `trim()`.
- `Session`: the class `StickyNote`, which holds the component's state.
  - Both hover timers are explicit slots, and each `Fire…` event acts only while its timer is pending.
  - A handler that may call `setNotes` returns the new board, or `None` when it does not call it.
- `Scenarios`: event sequences on one note, checked against the class's contracts.

Coordinates are exact reals. Nothing about JavaScript's floating-point rounding is modelled.

## Behaviour of the code

The model follows the code. These consequences of the code are easy to miss:

- **Push-away clamping.** Inside each round's `forEach`, the position is clamped back into the board right after each existing note's push (Dashboard.jsx:123-127). Pushes are not summed and clamped once per round.
- **Coincident centres.** When the candidate's centre and a note's centre coincide, `Math.sqrt(0) || 1` gives distance 1 and the push vector (0, 0). That note does not move the candidate at all. `Spawn.CoincidentNoteIsNeverPushed` proves the consequence for one arrangement: a single existing note, with every random draw landing exactly on that note's position. The planner then returns the note's own position, which is still too close.
- **Stale 5 s callback.** The 5 s callback is the `handleFiveSecondHover` of the render in which the pointer entered. It therefore sees `note`, `notes` and `messagePos` as they were before that entry's own `setMessagePos`. The model stores these values in the timer slot (`Session.Capture`). As a result:
  - The first hover of a freshly mounted note never shows the overlap message (`Scenarios.FirstHoverShowsNoMessage`).
  - A promotion is computed from the board as it was when the pointer entered.
- **Formatting without a saved selection.** `applyCommand` issues the command even when no selection was saved. The command then acts on an empty selection.
- **Timers during pointer moves.** A pointer move clears the hover timers only while the note is being dragged outside edit mode.
- **One editor at a time.** Edit mode is per note. Nothing in the code keeps two notes from being in edit mode at once.

## Model

| member | source | states |
|---|---|---|
| `Geometry.Clamp` | frontend/src/Pages/Dashboard.jsx:70 | result in `[lo, hi]` when `lo <= hi`; an in-range value is returned unchanged; below range gives `lo`, above gives `hi`; an empty range gives `hi` |
| `Geometry.ClampToBoard` | frontend/src/Pages/Dashboard.jsx:90-91 | clamping both coordinates gives an in-bounds position on a board of at least 180 x 180; an in-bounds position is left unchanged |
| `Notes.Apply` | frontend/src/Components/StickyNote.jsx:113 | an object spread sets only the patched field (`zIndex`, position or `html`); id, colour, style, rotation and shadow are copied |
| `Notes.Update` | frontend/src/Components/StickyNote.jsx:111-115 | the `map`: same length and ids; notes with the id get the patch, every other note is unchanged |
| `Notes.Remove` | frontend/src/Components/StickyNote.jsx:350 | the `filter`: no note with the id survives; every note with another id survives; nothing is added |
| `Notes.UpdateTouchesOnlyTarget` | frontend/src/Components/StickyNote.jsx:230-234 | with unique ids, an update replaces exactly the one matching note and nothing else |
| `Notes.UpdateOfMissingIdIsIdentity` | frontend/src/Components/StickyNote.jsx:268-272 | updating an id that is not on the board leaves the board unchanged |
| `Notes.UpdateKeepsUniqueIds` | frontend/src/Components/StickyNote.jsx:268-272 | updates keep ids unique |
| `Notes.UpdateKeepsInBounds` | frontend/src/Components/StickyNote.jsx:222-234 | non-move patches keep every position; a move to an in-bounds point keeps the whole board in bounds |
| `Notes.RemoveUnique` | frontend/src/Components/StickyNote.jsx:350 | with unique ids, delete removes exactly the matching note and keeps the others in order (`notes[..k] + notes[k+1..]`) |
| `Notes.RemoveMissing` | frontend/src/Components/StickyNote.jsx:350 | deleting an absent id changes nothing |
| `Notes.RemoveIsSubsequence` | frontend/src/Components/StickyNote.jsx:350 | the surviving notes keep their relative order |
| `Notes.RemoveKeepsInvariants` | frontend/src/Components/StickyNote.jsx:350 | delete keeps ids unique and every note in bounds |
| `Notes.MaxZ` | frontend/src/Components/StickyNote.jsx:106-109 | the `reduce`: at least 0, at least every note's `zIndex \|\| 0`, and equal to one of them unless it is 0 |
| `Notes.BringNoteToTop` | frontend/src/Components/StickyNote.jsx:105-116 | length kept; the matching note's `zIndex` is set to `maxZ + 1` and nothing else about it changes; every note with another id is unchanged |
| `Notes.PromotedIsStrictlyOnTop` | frontend/src/Components/StickyNote.jsx:105-116 | the promoted note's `zIndex` is above every old `zIndex` and above every other note's new one; no note's `zIndex` decreases |
| `Overlap.Extent` | frontend/src/Components/StickyNote.jsx:79-86 | per-axis overlap in `[0, 180]`: `180 - \|a-b\|` when the gap is below 180, else 0; positive iff the gap is below 180 |
| `Overlap.PairArea` | frontend/src/Components/StickyNote.jsx:89 | a pairwise overlap area lies in `[0, 180*180]` |
| `Overlap.TotalOverlap` | frontend/src/Components/StickyNote.jsx:67-93 | the summed area is non-negative and at most one footprint per note |
| `Overlap.OverlapCount` | frontend/src/Components/StickyNote.jsx:68-92 | the count never exceeds the number of notes |
| `Overlap.Ratio` | frontend/src/Components/StickyNote.jsx:99 | a capped area in `[0, footprint]` gives a ratio in `[0, 1]` |
| `Overlap.ComputeOverlapInfo` | frontend/src/Components/StickyNote.jsx:60-103 | the loop's count is exactly the number of other notes with positive width and height; its verdict is the 60% rule on the capped sum |
| `Overlap.CoverageRatioInUnitRange` | frontend/src/Components/StickyNote.jsx:95-99 | the capped total lies within the footprint and the ratio lies in `[0, 1]` |
| `Overlap.MostlyCoveredIff` | frontend/src/Components/StickyNote.jsx:95-100 | mostly covered iff `5 * capped >= 3 * footprint`, i.e. iff the summed area reaches 19440 |
| `Overlap.SkipsSameId` | frontend/src/Components/StickyNote.jsx:72 | notes with the note's own id are skipped: same count and total as on the board without them |
| `Overlap.NoOverlapNoCoverage` | frontend/src/Components/StickyNote.jsx:79-93 | notes 180 or more away on some axis contribute nothing: count 0, area 0, ratio 0, not covered |
| `Overlap.IdenticalPositionFullyCovers` | frontend/src/Components/StickyNote.jsx:79-100 | one other note at the same position: count 1, capped area the full footprint, ratio 1, covered |
| `Overlap.CountIsZeroIffNoneOverlaps` | frontend/src/Components/StickyNote.jsx:88-92 | the count is 0 exactly when no note overlaps with positive area |
| `Spawn.IsTooOverlappingPos` | frontend/src/Pages/Dashboard.jsx:72-78 | the `some` scan is true exactly when some existing note has both `\|dx\| < 160` and `\|dy\| < 160`; false on an empty board |
| `Spawn.SeparatedNoteCoversLittle` | frontend/src/Pages/Dashboard.jsx:12-14 | a spot that is not too close to a note shares at most 20 px with it on some axis, so at most 3600 square px |
| `Spawn.Jitter` | frontend/src/Pages/Dashboard.jsx:87-88 | a draw in `[0, 1)` gives an offset in `[-100, 100)` |
| `Spawn.GetRandomCenterPosition` | frontend/src/Pages/Dashboard.jsx:80-94 | on a board of at least 180 x 180, the candidate is in bounds |
| `Spawn.CandidateNearCentre` | frontend/src/Pages/Dashboard.jsx:80-94 | with genuine draws, the candidate is the clamp of centre plus an offset in `[-100, 100)`; it is in bounds, and within 100 px of the centre unless on an edge |
| `Spawn.FirstFit` | frontend/src/Pages/Dashboard.jsx:101-107 | the first of at most 35 candidates that is not too close, with every earlier one too close; `None` only if all 35 are too close |
| `Spawn.PushFrom` | frontend/src/Pages/Dashboard.jsx:115-127 | one note's push, clamped right away, lands in bounds |
| `Spawn.PushRound` | frontend/src/Pages/Dashboard.jsx:115-128 | a full `forEach` round keeps an in-bounds position in bounds |
| `Spawn.PushAway` | frontend/src/Pages/Dashboard.jsx:114-129 | the loop runs exactly the rounds that start too close, up to the budget. The result is the position after that many rounds, and every round run started from a too-close position. It stops before the budget only on a position that is not too close. A zero budget or a start that is not too close returns the start after zero rounds. In bounds throughout |
| `Spawn.FindSpawnPosition` | frontend/src/Pages/Dashboard.jsx:96-132 | no board element gives (50, 50); otherwise the result of the probe-then-push specification, in bounds on a board of at least 180 x 180 |
| `Spawn.PushAwayPhase` | frontend/src/Pages/Dashboard.jsx:109-131 | the outer loop computes the push-away specification with 20 rounds |
| `Spawn.PushEach` | frontend/src/Pages/Dashboard.jsx:115-128 | the inner `forEach` loop computes one push round |
| `Spawn.SpawnInBounds` | frontend/src/Pages/Dashboard.jsx:96-132 | the planner's position is in bounds on a board that fits a note |
| `Spawn.SpawnOnEmptyBoard` | frontend/src/Pages/Dashboard.jsx:99-105 | on an empty board the first candidate is returned unchanged |
| `Spawn.SpawnPhases` | frontend/src/Pages/Dashboard.jsx:101-131 | either a candidate among the first 35 is accepted after all earlier ones failed and is not too close, or all 35 failed. In the second case the push phase starts from the 36th draw and runs at most 20 rounds, each from a too-close position, and the result is the position after those rounds; it stops before 20 rounds only when no longer too close |
| `Spawn.CoincidentNoteIsNeverPushed` | frontend/src/Pages/Dashboard.jsx:116-124 | for any square root, coincident centres give a zero push: a note exactly under every candidate is never pushed away, and the planner returns its position, which is still too close |
| `Composer.SplitLines` | frontend/src/Pages/Dashboard.jsx:166 | `split(/\n/)` gives at least one line and no line holds a newline |
| `Composer.JoinSplit` | frontend/src/Pages/Dashboard.jsx:200-203 | joining the split lines with `"\n"` gives the text back |
| `Composer.LineCount` | frontend/src/Pages/Dashboard.jsx:166-167 | there is one line more than there are newlines |
| `Composer.KeepLines` | frontend/src/Pages/Dashboard.jsx:200-203 | a prefix of the text. With at most 6 newlines it is the whole text. Otherwise it ends just before the 7th newline and holds exactly 6 newlines, i.e. exactly the first 7 lines |
| `Composer.TrimStart` | frontend/src/Pages/Dashboard.jsx:204 | a suffix starting with non-whitespace; everything dropped is whitespace |
| `Composer.TrimEnd` | frontend/src/Pages/Dashboard.jsx:204 | a prefix ending with non-whitespace; everything dropped is whitespace |
| `Composer.TrimEmptyIff` | frontend/src/Pages/Dashboard.jsx:204-206 | trimming leaves nothing exactly when the text is all whitespace |
| `Composer.PostTextEmptyIff` | frontend/src/Pages/Dashboard.jsx:200-206 | `addNote` rejects exactly the texts whose first 7 lines are whitespace only |
| `Composer.KeyDownBlocked` | frontend/src/Pages/Dashboard.jsx:151-172 | only a key of one UTF-16 code unit or Enter is ever blocked, and only at the character limit or with a mounted editor |
| `Composer.KeyDownBlockedIff` | frontend/src/Pages/Dashboard.jsx:151-171 | blocked iff a modifier-free key of one UTF-16 code unit arrives at count 180 or more, or Enter arrives while the editor already has 6 or more newlines (7 or more lines) |
| `Composer.Utf16Length` | frontend/src/Pages/Dashboard.jsx:147 | `length` in UTF-16 code units: between the number of characters and twice it, and equal to it when every character lies in the Basic Multilingual Plane |
| `Composer.AstralKeyPassesAtLimit` | frontend/src/Pages/Dashboard.jsx:153-157 | a key outside the Basic Multilingual Plane (an emoji) has length 2, so it is never stopped by the character limit |
| `Composer.GuardKeepsLimits` | frontend/src/Pages/Dashboard.jsx:145-171 | with the count taken as the editor text's UTF-16 length, an allowed one-unit key inserted anywhere leaves at most 180 code units; an allowed Enter, inserting one newline anywhere, leaves at most 7 lines |
| `Composer.ShadowDepth` | frontend/src/Pages/Dashboard.jsx:220 | a draw in `[0, 1)` gives a shadow depth in `[2, 5]` |
| `Composer.Rotation` | frontend/src/Pages/Dashboard.jsx:219 | a draw in `[0, 1)` gives a rotation in `[-4, 4)` |
| `Composer.AddNote` | frontend/src/Pages/Dashboard.jsx:197-229 | no editor, or blank first 7 lines: nothing changes. Otherwise exactly one note is appended with the given id, the editor's HTML, colour and style, no `zIndex`, at the planner's position; the note's rotation and shadow depth come from the two draws, in `[-4, 4)` and `[2, 5]` for genuine draws; earlier notes are untouched and the editor is cleared. It keeps the board in bounds, and keeps ids unique for a fresh id |
| `Session.NatToString` | frontend/src/Components/StickyNote.jsx:127 | template interpolation of the count: a non-empty string of decimal digits that denotes exactly the count, with no leading zero (`"0"` for zero) |
| `Session.CountMessage` | frontend/src/Components/StickyNote.jsx:126-129 | the count message, built from `NatToString`, is never the generic text, so the two branches of the message are distinguishable |
| `Session.StickyNote.constructor` | frontend/src/Components/StickyNote.jsx:6-23 | initial state: no timers, not dragging, offset (0, 0), no button, not editing, no message, no anchor, no saved selection |
| `Session.StickyNote.ClearHoverTimers` | frontend/src/Components/StickyNote.jsx:46-55 | both hover timers are cancelled and nothing else changes |
| `Session.StickyNote.MouseEnter` | frontend/src/Components/StickyNote.jsx:145-166 | ignored while editing; otherwise anchors the message at the centre, clears old timers and arms exactly one 3 s and one 5 s timer, the latter closing over the pre-entry anchor |
| `Session.StickyNote.MouseLeave` | frontend/src/Components/StickyNote.jsx:168-172 | both timers cancelled, button and message hidden, nothing else changed |
| `Session.StickyNote.FireEditTimer` | frontend/src/Components/StickyNote.jsx:158-160 | acts only when pending: shows the edit button |
| `Session.StickyNote.FireBringTopTimer` | frontend/src/Components/StickyNote.jsx:163-165 | acts only when pending: runs the resolution step on the captured values |
| `Session.StickyNote.HandleFiveSecondHover` | frontend/src/Components/StickyNote.jsx:118-140 | not mostly covered: promotes the note. Mostly covered: no board change; with an anchor it shows "N notes are overlapping this note" for N > 0 or the generic text, and arms one hide timer |
| `Session.StickyNote.FireHideTimer` | frontend/src/Components/StickyNote.jsx:133-135 | acts only when pending: hides the message |
| `Session.StickyNote.MouseDown` | frontend/src/Components/StickyNote.jsx:187-203 | ignored while editing; otherwise hides the button, clears both timers, starts dragging and records the grab offset |
| `Session.StickyNote.MouseMove` | frontend/src/Components/StickyNote.jsx:175-235 | always re-anchors the message. A no-op on the board when editing or not dragging. Otherwise it clears the timers and hides the button, and on a board moves only this note to the clamped pointer minus origin minus offset |
| `Session.StickyNote.MouseUp` | frontend/src/Components/StickyNote.jsx:237-239 | the drag ends |
| `Session.StickyNote.EnterEditMode` | frontend/src/Components/StickyNote.jsx:252-263 | sets editing, hides the button, clears both timers and arms the focus timer |
| `Session.StickyNote.FireFocusTimer` | frontend/src/Components/StickyNote.jsx:257-262 | with mounted content, saves the current selection |
| `Session.StickyNote.SaveSelection` | frontend/src/Components/StickyNote.jsx:28-33 | saves the current range; with no range the saved one is kept |
| `Session.StickyNote.RestoreSelection` | frontend/src/Components/StickyNote.jsx:35-41 | the selection afterwards is exactly the saved range, if any |
| `Session.StickyNote.ApplyCommand` | frontend/src/Components/StickyNote.jsx:280-286 | with mounted content, the command acts on the previously saved selection, and the selection it leaves is saved |
| `Session.StickyNote.ExitEditMode` | frontend/src/Components/StickyNote.jsx:265-275 | replaces only this note's `html` and clears editing |
| `Session.StickyNote.Delete` | frontend/src/Components/StickyNote.jsx:344-352 | outside edit mode the board loses exactly the notes with this id; in edit mode there is no delete control |
| `Session.StickyNote.Unmount` | frontend/src/Components/StickyNote.jsx:242-247 | unmounting leaves no hover timer pending |
| `Session.DragTarget` | frontend/src/Components/StickyNote.jsx:219-228 | the drag target on a board of at least 180 x 180 is in bounds |
| `Scenarios.LeaveBeforeEditButton` | frontend/src/Components/StickyNote.jsx:145-172 | leaving before 3 s: the button never appears and the 5 s step never runs |
| `Scenarios.LeaveAfterEditButton` | frontend/src/Components/StickyNote.jsx:158-172 | leaving between 3 s and 5 s: the button was shown, is hidden, and the board is never promoted |
| `Scenarios.HoverPromotes` | frontend/src/Components/StickyNote.jsx:118-124 | a 5 s hover over a note that is not mostly covered promotes it |
| `Scenarios.FirstHoverShowsNoMessage` | frontend/src/Components/StickyNote.jsx:126-138 | the first hover of a fresh, mostly covered note shows no message and does not promote it |
| `Scenarios.RepeatHoverShowsCount` | frontend/src/Components/StickyNote.jsx:126-138 | a later hover over a mostly covered note shows the count message without promoting it; the hide timer then clears it |
| `Scenarios.DragKeepsBoardInBounds` | frontend/src/Components/StickyNote.jsx:187-235 | press and move: the moved note is in bounds, the board stays in bounds, and only that note changes |
| `Scenarios.EditingBlocksHoverAndDrag` | frontend/src/Components/StickyNote.jsx:145-146 | in edit mode, hover and press arm no timer, start no drag and show no button |
| `Scenarios.RestoreIsRepeatable` | frontend/src/Components/StickyNote.jsx:35-41 | two restores with no save in between give the same range |
| `Scenarios.CommandTargetsSavedSelection` | frontend/src/Components/StickyNote.jsx:280-286 | a formatting command acts on the last saved range, even after a save that found no range |

## Left out

- Rendering: JSX, CSS style objects, the palette radial menu (its `Math.cos`/`Math.sin` placement), the font menu and its filter, and the font-name string handling. These are display glue. `TopBanner.jsx`, `JoinBoardModal.jsx` and `App.jsx` hold no interaction logic.
- Browser APIs are foreign calls whose behaviour is not visible. They enter the model only through parameters.
  - `document.execCommand` and `queryCommandState` (and so `refreshFormatState`, the dashboard's own `applyCommand`/`applyFont` and `focusEditor`).
  - `focus`.
  - `getBoundingClientRect`, passed in as a `Rect`.
  - `closest`, passed in as an optional board `Rect`.
  - `window.getSelection`, passed in as the current optional `Range`.
  - Reading `innerText`/`innerHTML`, passed in as strings.
- Real time. `setTimeout` delays (3 s, 5 s, 30 ms focus, 3 s message hide) are discrete events. The model does not force the 3 s event to precede the 5 s one.
- React rendering. The model assumes a re-render between events, so each handler sees the state left by the previous one. The 5 s callback's stale view is the exception and is modelled explicitly.
- `Math.random()` (jitter, rotation, shadow) and `Math.sqrt` are parameters. Floating-point rounding is not modelled, and neither is `toFixed(2)` on the rotation, which the model keeps as a number.
- `Date.now()` ids are supplied by the caller. The source does not make them unique, so lemmas that need unique ids assume it.
- `handleEditorInput` (updating `charCount` from `innerText.length`): the character count is a parameter of the guard. `Composer.GuardKeepsLimits` takes it to be the editor text's UTF-16 length. Both the count and the guard's `e.key.length` test are in UTF-16 code units (`Composer.Utf16Length`).
- Event propagation (`stopPropagation`, `preventDefault` on toolbar buttons) is not modelled beyond which handler runs.
- Spawn.PushAway: no claim that the push-away phase separates notes; the source promises only bounds and at most 20 rounds, and the coincident-centre case shows separation can fail.
