# PitchDetect ear trainer — a verified model of its core

The ear-trainer page of PitchDetect (`example/gui.js`) listens to a pitch
detector and keeps a log of the notes it hears. The model covers four parts
of it:

- **Recording.** Every detector sample that carries a note becomes a
  detection, unless it comes less than 10 ms after the last recorded one.
  The detection goes into the chronological log and into the log of its own
  label. (`recording.dfy`, on the shared views in `detections.dfy`.)
- **Held-note analysis.** `detectHeldNote(lengthMs)` polls the log. A poll
  considers the detections since the call started, plus the last one
  recorded before it. If enough have arrived, it keeps the trailing window
  of `lengthMs`, counts labels, and reports the modal label, its percentage
  and the label held by more than 90 % of the window, if any.
  (`held_note.dfy`.)
- **The major-scale exercise.** An endless cycle over a fixed 14-entry
  table, radiating from middle C, skips the entries outside an optional
  MIDI range. Each target is retried until the verdict's majority note is
  the target. (`exercise.dfy`.)
- **The visualization's period selection.** The clock is cut into
  10-second periods. Each of the 24 shown note rows draws the detections of
  its label in the current period, at their offset into it.
  (`visualization.dfy`.)

Units and encodings:

- Times are integer milliseconds of the audio clock, which starts at 0.
  The source works in floating-point seconds; its constants are converted
  exactly:
  - debounce interval `0.001 * SAMPLE_RATE_MS` s = 10 ms;
  - window `lengthMs / 1000` s = `lengthMs` ms;
  - period length 10 s = 10000 ms.
- A note is a string. The detector's "no note" (NaN or undefined) is
  `None`. JavaScript's falsiness of the empty string is kept (`Truthy`).
- Comparisons with fractions are multiplied out into integers:
  - `count < (lengthMs / 10) / 3` becomes `count * 30 < lengthMs`
    (`DensityFloorMatchesSource` proves the equivalence over the reals);
  - `count > total * 0.9` becomes `10 * count > 9 * total`.

The stateful parts keep the source's imperative form:

- `DetectionLog` is a class whose `Record` method updates the log and the
  per-label index.
- `ExerciseMajor` is a class whose generator cursor advances in a loop that
  skips out-of-range entries.
- `DetectHeldNote` is a loop over the successive log states its polls see.

The pure parts are functions, with lemmas stating what the source promises:
the window, the tally and its `reduce`/`find` votes, and the period filter.

Where the written code differs from what one might read into it, the model
follows the code:

- A poll's eligible slice starts at `max(len - 1, 0)`, where `len` is the
  log's length at call time. So the last detection recorded before the
  call takes part in the vote (`EligibleSinceCall`).
- The density floor for a one-second call is 34 detections, not 33:
  `count < 100 / 3` waits for every count up to 33.
- Ties for the modal label go to the label listed last. The tally lists
  labels by first appearance, and `reduce` keeps its accumulator only when
  it is strictly greater. So the label whose first appearance in the window
  is latest wins. A JavaScript object lists keys that look like array
  indices ("0", "12") first, in ascending order. Detector labels such as
  "C4" or "F#3" never look like that, so for them the order is that of
  first insertion.
- A majority needs strictly more than 90 % of the window: 9 detections of
  10 are no majority, because `10 * 0.9` is exactly 9 in doubles and
  `9 > 9` is false (`NineOfTenIsNoMajority`).
- The modal percentage lies in 0..100, not 1..100. It is 0 exactly when the
  modal label holds less than 1 % of the window (`VerdictOfSound`). A debounced
  one-second window can hold up to 101 detections (`WindowSpan`), so 101
  distinct labels give 0 %.
- Nothing in the code resets the log between exercise attempts.

## Model

| member | source | states |
|---|---|---|
| Detections.OfNote | example/gui.js:394-396 | the per-label log is no longer than the log and holds only detections with that label |
| Detections.OfNoteAppend | example/gui.js:394-396 | pushing a detection extends its own label's list by it and leaves every other label's list as it was |
| Detections.OfNoteMembers | example/gui.js:394-396 | a detection is in a label's list exactly when it is in the log and carries that label |
| Detections.CountsDisjoint | example/gui.js:531-534 | two different labels together count at most the whole log |
| Detections.FirstSeenSound | example/gui.js:531-534 | the position of a label's first detection, `|ds|` exactly when it has none, with no earlier detection of that label |
| Detections.SpacedSpread | example/gui.js:385-394 | in a debounced log, times grow by at least 10 ms per position, so they strictly increase |
| Detections.SpacedSuffix | example/gui.js:385-394 | a trailing run of a debounced log is debounced |
| Detections.SpacedPrefix | example/gui.js:385-394 | a leading run of a debounced log is debounced |
| Recording.RecordKeepsSpacing | example/gui.js:385-394 | offering a sample keeps every pair of recorded detections at least 10 ms apart and adds at most one detection |
| Recording.DebounceDropsSecond | example/gui.js:385-392 | of two samples less than 10 ms apart, only the first accepted one is recorded |
| Recording.DetectionLog.constructor | example/gui.js:369-370 | the log and the index start empty and consistent |
| Recording.DetectionLog.NoteLog | example/gui.js:437 | reading the index with `?? []` gives exactly the log's detections of that label |
| Recording.DetectionLog.Record | example/gui.js:372-397 | a falsy note or a sample less than 10 ms after the last detection changes nothing; otherwise the detection is appended to the log and to its own label's list only, and the index stays the filter of the log by label |
| HeldNote.DensityFloorMatchesSource | example/gui.js:509-527 | the integer floor `count * 30 >= lengthMs` agrees with the source's `!(count < (lengthMs / 10) / 3)` on reals |
| HeldNote.EligibleSinceCall | example/gui.js:511-515 | the eligible slice is the whole log when it was empty at call time, and otherwise the last detection before the call followed by everything appended since |
| HeldNote.AtOrAfterMembers | example/gui.js:521-525 | the filter keeps exactly the detections at or after the cut-off time |
| HeldNote.WindowKeepsLast | example/gui.js:520-525 | the window is never empty and ends with the latest eligible detection |
| HeldNote.AtOrAfterEmpty | example/gui.js:521-525 | a log wholly before the cut-off leaves an empty window |
| HeldNote.AtOrAfterIsSuffix | example/gui.js:521-525 | over a debounced log the window is a trailing run of the eligible detections |
| HeldNote.WindowSpan | example/gui.js:521-525 | over a debounced log the window is debounced and spans at most `lengthMs`, so it holds at most `lengthMs / 10 + 1` detections |
| HeldNote.TallyOfCounts | example/gui.js:531-534 | the tally has a key for exactly the labels of the window, each with that label's count in the window |
| HeldNote.TallyOfOrder | example/gui.js:531-534 | the tally lists its labels in the order of their first appearance in the window |
| HeldNote.ModalIndexIsMax | example/gui.js:536-538 | the `reduce` picks a key of highest count, and every key listed after it has a strictly lower count |
| HeldNote.FindMajoritySound | example/gui.js:542-544 | the `find` returns a listed key with more than 90 % of the window, and returns nothing only when no key has that |
| HeldNote.NineOfTenIsNoMajority | example/gui.js:542-544 | exactly 90 % is no majority: 9 of 10 and 90 of 100 are not, while 10 of 10 and 91 of 100 are |
| HeldNote.MajorityDominates | example/gui.js:542-544 | a label with more than 90 % of the window outcounts every other label, and no other label has a majority |
| HeldNote.ModalProperties | example/gui.js:536-538 | the modal label's count is the maximum; any other label with the same count first appeared earlier |
| HeldNote.ModalIsMax | example/gui.js:536-538 | no label of the window has a higher count than the modal one |
| HeldNote.ModalTieBreak | example/gui.js:531-538 | a label tied with the modal one first appeared earlier in the window |
| HeldNote.MajorityIsModal | example/gui.js:542-544 | a majority exists exactly when the modal count is a majority, and then it is the modal label |
| HeldNote.PercentageBounds | example/gui.js:539-541 | the floor of `100 * count / total`: between 0 and 100, and at least 1 exactly when `100 * count >= total` |
| HeldNote.VerdictOfSound | example/gui.js:531-546 | the modal label occurs in the window with maximal count and the latest-first-seen tie-break; its percentage is the floor of its share and lies in 0..100; the majority is defined exactly when the modal count exceeds 90 % and then equals the modal label |
| HeldNote.Poll | example/gui.js:514-546 | a poll is ready exactly when both the eligible slice and its window meet the density floor, and then yields the vote over the window |
| HeldNote.DetectHeldNote | example/gui.js:508-548 | the call resolves with the verdict of the first ready poll, every earlier poll having waited; it does not resolve while no observed poll is ready; the verdict is the vote over the window of the last detection before the call followed by everything recorded since |
| Exercise.MidiOfSound | example/gui.js:73-88 | `Map.get` answers a stored entry's MIDI number, and nothing exactly when no entry has the name |
| Exercise.MidiOfFirst | example/gui.js:73-88 | the lookup finds a name's number at its first entry, which for a table of distinct names is the one `Map.get` holds |
| Exercise.OrderNamesDistinct | example/gui.js:73-88 | the table names every note once, so its entries in order are the map's keys in order |
| Exercise.BoundsOfG3ToG4 | example/gui.js:73-88 | the range ends G3 and G4 are MIDI 55 and 67 |
| Exercise.Filtered | example/gui.js:559-567 | the attempted entries are no more than the table's and all lie within the MIDI range |
| Exercise.FilteredMembers | example/gui.js:559-567 | an entry is attempted exactly when it is in the table and within the range |
| Exercise.FilteredPrefix | example/gui.js:551-567 | filtering a prefix of the table gives a prefix of one lap |
| Exercise.FilteredDropsTail | example/gui.js:559-567 | table entries past a position that all lie outside the range add nothing to a lap |
| Exercise.FilteredAllIn | example/gui.js:559-567 | a table whose entries all lie within the range is attempted in full |
| Exercise.RankAt | example/gui.js:551-567 | an in-range entry at a position is the lap's target whose index is the number of in-range entries before it |
| Exercise.RankNext | example/gui.js:551-567 | moving the generator on, with wrap-around after the last entry, moves the lap position on by one exactly when the passed entry is in range |
| Exercise.FoundTarget | example/gui.js:558-567 | the in-range entry where the generator stops is the lap's next target, and the position after it is one step further along the cycle |
| Exercise.Next | example/gui.js:551-557 | the generator's next position stays in the table and is 0 exactly after the last entry |
| Exercise.Residue | example/gui.js:551-557 | the position within a lap after a number of steps lies inside the lap |
| Exercise.ResidueSucc | example/gui.js:551-557 | one more step is one place further along the lap, starting over after its end |
| Exercise.ResidueLap | example/gui.js:551-557 | a whole lap of steps comes back to the same place |
| Exercise.TargetsFromG3ToG4 | example/gui.js:73-88 | with the range G3..G4 one lap is C4 D4 B3 E4 A3 F4 G3 G4, in that order |
| Exercise.LapFromG3ToG4Inner | example/gui.js:73-81 | the first eight table entries all lie in 55..67 |
| Exercise.ExerciseMajor.constructor | example/gui.js:550-567 | the exercise starts on the first attempted target of the lap |
| Exercise.ExerciseMajor.Advance | example/gui.js:558-567 | the generator skips out-of-range entries and the next target is the next step of the endless lap, always in range |
| Exercise.ExerciseMajor.Attempt | example/gui.js:569-598 | an attempt plays the tone when prompted, shows the modal note and its percentage, and is correct exactly when the majority note is the target; a correct attempt moves to the next target of the cycle, an incorrect one shows the target and retries it |
| Exercise.HoldTargets | example/gui.js:558-598 | answering every attempt correctly visits the targets in cycle order |
| Exercise.ButtonsExercise | example/gui.js:550-598 | with G3..G4 a missed first attempt retries C4, and held targets come as C4 D4 B3 E4 A3 F4 G3 G4 C4 |
| Visualization.CurrentPeriod | example/gui.js:404-409 | the current period contains the clock, is 10 s long and starts at a multiple of 10 s |
| Visualization.Modded | example/gui.js:445 | a time's offset into its own period is less than 10 s and is its distance from the period's start |
| Visualization.SamePeriod | example/gui.js:404-444 | a time is kept exactly when it has the same period number as the clock |
| Visualization.InPeriod | example/gui.js:437-444 | the row loop's `continue` keeps only detections inside the current period |
| Visualization.InPeriodMembers | example/gui.js:437-444 | a detection is kept exactly when it is in the list and inside the period |
| Visualization.InPeriodAppend | example/gui.js:437-444 | the period filter of a list with one more detection keeps that detection exactly when it lies in the period |
| Visualization.InPeriodOfNote | example/gui.js:437-444 | selecting a label and selecting a period commute |
| Visualization.Points | example/gui.js:445-465 | each drawn point is one kept detection's offset into the period and detune, in order |
| Visualization.RowNotesSpan | example/gui.js:417-421 | the rows run from C3 through C4 to B4 |
| Visualization.RowNotesDistinct | example/gui.js:417-421 | different rows carry different labels, so a detection is drawn in at most one row |
| Visualization.Frame | example/gui.js:417-445 | a frame has one row per shown note |
| Visualization.FrameRows | example/gui.js:417-445 | drawn from a consistent index, a row shows exactly the log's detections of its label in the current period, in log order, each at its offset from the period's start |

## Left out

- DOM and jQuery form binding, drag-and-drop, file and XHR loading,
  settings storage, and `updateDetectorGUI`. These are user interface and
  I/O (`example/gui.js`:104-232, 354-359, 483-506).
- `start`/`stop` and the PitchDetector options. These configure a library
  that is not part of this model.
- `playNote`, `stopNote` and `noteToFrequency`. These are Web Audio calls.
  Playing is the event `PlayNote(midi)`, whose MIDI number stands for the
  frequency derived from it. Screen updates of the exercise are events too.
- `sleep`, `setInterval` and `await`. A call of `detectHeldNote` is given
  the sequence of log states its polls observe. The 1 s pauses of the
  exercise are not modelled. Recording between polls is not interleaved
  with the exercise.
- The vote consumed by an attempt is a parameter of `Attempt`. Nothing ties
  it to a particular log state.
- Canvas drawing and pixel geometry: row colours, rectangles, labels and
  the detune mark's height. Only which detections a row draws is modelled,
  with their offset and detune.
- Floating-point arithmetic: seconds, `* 0.9`, `/` and `%` on IEEE
  doubles. The count comparisons are multiplied out into integers:
  `count < (lengthMs / 10) / 3`, `count > total * 0.9` and
  `Math.floor(100 * count / total)`. For integer counts these make the
  same decisions as the source.
- Times are integer milliseconds, and the audio clock's time is taken as
  already rounded to them. The source's clock does not tick in whole
  milliseconds, so that rounding is a step of its own that the model does
  not capture.
- Recording.Accepts: compares the gap to the last detection in exact
  arithmetic. In the source, a gap of exactly 10 ms can come out below
  `0.01` s in doubles. For example, `0.03 - 0.02` is `0.009999999999999998`,
  so the source drops a sample that the model records.
- HeldNote.Window: compares each time with the cut-off in exact
  arithmetic. In the source, a detection exactly `lengthMs` before the
  last one can fall on either side. For example, `1.03 - 1` is
  `0.030000000000000027`, so the source drops a detection at 0.03 s that
  the model keeps.
- HeldNote.Poll: requires `lengthMs > 0`. With `lengthMs` 0 and an empty
  eligible slice, the source reads `.time` of `undefined` and throws. The
  only caller passes 1000.
- Exercise.ExerciseMajor.constructor: requires that some table entry lies
  in the range. Otherwise the source's generator loop never yields a
  target and never returns.
- Exercise.ExerciseMajor.Advance: the target index is `Residue`, the
  remainder counted by repeated subtraction. The model does not prove that
  it equals the `%` operator.
- The outer `while (true)` of the exercise has no end. `HoldTargets` and
  `ButtonsExercise` follow a finite number of attempts.
