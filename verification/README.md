# Voice rhythm model (MusicFlow)

A Dafny model of the rhythm logic of one measure's voice in the MusicFlow
notation editor (`Voice` in `app/components/Notation/wrappers/Voice.js`).
A voice holds an ordered list of notes (its tickables), how many of them are
saved (`savedNotes`; the rest are provisional previews that the next mouse
move replaces), and a `pending` flag. On that state the editor:

- adds a note (`addNote`): drops the provisional notes, appends the new
  one, and draws it red when the voice is over full;
- deletes a note (`deleteNote`);
- asks whether a note is already provisional (`isNewNote`);
- classifies capacity (`full`): the sum of 1/doubleDuration, truncated to an
  integer, against `num_beats / beat_value`;
- runs the beat-boundary pass (`createTies`): one left-to-right scan in
  beats (`beat_value / doubleDuration`) that keeps its own running
  position and beat counter. Each note that the pass, by that position and
  counter, sees crossing the next boundary is replaced, in place, by
  same-pitch fragments. The first goes up to the boundary, then come whole
  beats, then the remainder. Because the position and counter drift after a
  split, the pass can miss later crossings or stop before the end of the
  list (see below).

Modules:

- `Notes` (notes.dfy): the note fields the voice uses, styles, time signature.
- `Capacity` (capacity.dfy): `full()`.
- `Ties` (ties.dfy): the beat-boundary pass.
  - `Step` is one iteration of its outer loop and `Pass` is the whole loop.
  - `SplitNote` is its inner loop and `SpliceIn` its reverse-and-insert loop.
  - Lemmas give the shape and the conservation of splits.
- `Voices` (voice.dfy): the voice state, its defaults, its constructor, and
  `AddNote`, `DeleteNote`, `IsNewNote`, `CreateTies`.
  - The loop of `CreateTies` follows the source line for line, and its
    contract proves it computes `Ties.Pass`.
- `Scenarios` (scenarios.dfy): concrete measures in 4/4 and 3/4.

Arithmetic is on Dafny `real`, which is exact rational arithmetic. `parseInt`
of the positive values involved is `.Floor`.

## Behaviour of the code as written

The model follows the code. These behaviours of the code are easy to miss:

- `full()` truncates the sum before comparing (Voice.js:114). So five
  quarters in 4/4 read as exact and not over full, and the red-style branch
  of `addNote` (Voice.js:86-93) does not fire for a fifth quarter added to a
  full 4/4 measure (`Scenarios.FiveQuartersExact`,
  `Scenarios.FifthQuarterNotRed`). In 3/4, `num_beats / beat_value` is
  0.75, so no voice is ever exact (`Scenarios.ThreeFourNeverExact`).
- `createTies` runs only when `pending` is false (Voice.js:146), and nothing
  in it changes `pending`. `getVFVoice` calls it on every render
  (Voice.js:37), so the pass runs again on its own output, and it is not
  idempotent: a second pass can split a note the first one left whole
  (`Scenarios.SecondPassChangesResult`).
- The last assignment writes a misspelt property, `saveNotes` (Voice.js:197),
  so the `savedNotes` setter (Voice.js:244) is not reached and `savedNotes`
  is left unchanged; the model keeps the stray property as the field
  `saveNotes`.
- After a split, `noteBeatDuration` is 0. So `currentBeatLocation` does not
  advance over a split note (Voice.js:194).
- `beatNum` goes up once for the boundary and once more per fragment
  (Voice.js:160, 178). The cursor then moves onto the second fragment.
  Positions after a split are therefore read too early.
  - In `Scenarios.SecondCrossingMissed`, a dotted quarter that spans beats
    2 to 3.5 is left whole.
- Since a split raises `beatNum` by one plus the number of fragments and
  the loop runs only while `beatNum < num_beats` (Voice.js:155), the pass
  can stop before the end of the list, and the later notes are never
  looked at. With the editor's own durations ("8", "2", "4",
  VexFlow.js:192-198): in 4/4, an eighth, a half note and a quarter become
  the eighth, the half note's three fragments and the quarter, untouched,
  although it spans beats 2.5 to 3.5 (`Scenarios.PassStopsEarly`).
- No tie list is built; `getVFTies` reads a `ties` field that nothing sets.
- `deleteNote` removes the last note even when it is provisional, and it
  still un-saves one note (`Voices.DeleteAfterAdd`).

## Model

| member | source | states |
|---|---|---|
| Voices.NewVoice | app/components/Notation/wrappers/Voice.js:7-34 | a new voice holds the given notes and time signature, is pending, has no saved notes, and has stem direction and the single 4/8 beat group; it is well formed when its notes have length and its beat value is positive |
| Voices.AddNote | app/components/Notation/wrappers/Voice.js:80-95 | the result is the first min(savedNotes, length) old notes followed by the new note; the new note is styled red exactly when the resulting voice is over full and in the default style otherwise; nothing else in the voice changes and well-formedness is kept |
| Voices.AddNoteReplacesProvisional | app/components/Notation/wrappers/Voice.js:80-95 | adding a then b equals adding b alone: an add replaces the provisional note a previous add left |
| Voices.DeleteNote | app/components/Notation/wrappers/Voice.js:97-103 | with saved notes: savedNotes drops by one, pending becomes true, and the list loses exactly its last note (an empty list stays empty); without saved notes nothing changes; only those three fields ever change and well-formedness is kept |
| Voices.DeleteAfterAdd | app/components/Notation/wrappers/Voice.js:80-103 | deleting right after an add leaves exactly the saved prefix, with one note fewer counted as saved and pending set |
| Voices.IsNewNote | app/components/Notation/wrappers/Voice.js:129-139 | true whenever the voice is not pending; for a pending voice, false exactly when some note at index at least savedNotes compares equal to the given note |
| Voices.CreateTies | app/components/Notation/wrappers/Voice.js:145-199 | a pending voice is returned unchanged; otherwise the note list becomes the result of the functional pass `Ties.Pass` from the start of the measure, its length is written to the stray `saveNotes` property, and pending and savedNotes are untouched; the list never shrinks and every note stays no longer than a whole note |
| Voices.CreateTiesKeepsFullness | app/components/Notation/wrappers/Voice.js:105-199 | when every fragment code is exact, the capacity flags after the pass equal those before it |
| Capacity.Full | app/components/Notation/wrappers/Voice.js:105-123 | over full exactly when the summed 1/doubleDuration reaches the next integer above num_beats/beat_value; exact exactly when beat_value divides num_beats and the sum lies in [num_beats/beat_value, num_beats/beat_value + 1); never both |
| Capacity.MeasureFloor | app/components/Notation/wrappers/Voice.js:116-117 | num_beats/beat_value truncates to the integer quotient, and a truncated sum can equal it only when beat_value divides num_beats |
| Ties.Tail | app/components/Notation/wrappers/Voice.js:179-184 | every length after the first fragment lies in (0, 1] |
| Ties.TailShape | app/components/Notation/wrappers/Voice.js:169-185 | after the first fragment come ceil(rest) lengths, all whole beats except the last, which lies in (0, 1], summing to rest |
| Ties.PiecesShape | app/components/Notation/wrappers/Voice.js:161-185 | a split note's fragment lengths are: the part up to the boundary, then whole beats, then a remainder in (0, 1]; there are 1 + ceil(secondSectionBeats) of them and they sum to the note's length in beats |
| Ties.FragmentsAt | app/components/Notation/wrappers/Voice.js:172-176 | the k-th fragment has the original clef and keys and the duration code parseInt(beatValue / length_k) |
| Ties.FragmentBeats | app/components/Notation/wrappers/Voice.js:175 | when beatValue / length is an integer, the fragment lasts exactly that length in beats |
| Ties.FragmentsWholeNotes | app/components/Notation/wrappers/Voice.js:169-185 | with exact codes, the fragments' summed 1/doubleDuration is their total beat length over beatValue |
| Ties.Step | app/components/Notation/wrappers/Voice.js:156-195 | one iteration keeps the loop invariant (cursor in range, currentBeatLocation < beatNum + 1, all notes no longer than a whole note), moves the cursor by one, never shortens the list, leaves the notes before the cursor alone, and either raises beatNum or changes nothing but the position |
| Ties.SplitStep | app/components/Notation/wrappers/Voice.js:159-190 | the splitting branch keeps the loop invariant, moves the cursor by one, never shortens the list, leaves the notes before the cursor alone and raises beatNum |
| Ties.SplitKeepsInv | app/components/Notation/wrappers/Voice.js:159-176 | when the split branch runs, secondSectionBeats and firstSectionBeats are both positive, and with the fragments in place of the note no note is longer than a whole note (every fragment code is at least 1) |
| Ties.Pass | app/components/Notation/wrappers/Voice.js:155-196 | the loop terminates (lexicographic measure on max(0, numBeats - beatNum) and the notes left), keeps the invariant, keeps the notes before the start, never shortens the list, and stops only when beatNum reaches numBeats or the cursor passes the end |
| Ties.StepWithinBeat | app/components/Notation/wrappers/Voice.js:159-195 | a note ending before the next boundary is kept; beatNum stays and the position moves to the note's end |
| Ties.StepAligned | app/components/Notation/wrappers/Voice.js:159-164 | a note ending exactly on the next boundary is not split: the list is unchanged, beatNum moves past that boundary and the position lands on it |
| Ties.StepSplit | app/components/Notation/wrappers/Voice.js:159-195 | a note running past the next boundary is replaced at the cursor by its 1 + ceil(secondSectionBeats) fragments in order; earlier and later notes are unchanged; beatNum rises by one plus the number of fragments; the position does not move |
| Ties.StepConserves | app/components/Notation/wrappers/Voice.js:156-195 | with exact codes, one iteration keeps the voice's summed length in whole notes |
| Ties.SplitResult | app/components/Notation/wrappers/Voice.js:159-190 | a step that splits is one equation: the note at the cursor is replaced by exactly its fragments, the position stays and beatNum rises by one plus their number |
| Ties.SplitWholeNotes | app/components/Notation/wrappers/Voice.js:168-185 | with exact codes, a split note's fragments together last exactly as long as the note, in whole notes |
| Ties.SpliceConserves | app/components/Notation/wrappers/Voice.js:166-190 | with exact codes, putting a note's fragments in its place keeps the list's summed length in whole notes |
| Ties.PassConserves | app/components/Notation/wrappers/Voice.js:155-196 | with exact codes throughout, the whole pass keeps the voice's summed length in whole notes |
| Ties.OneBeatNotesUnsplit | app/components/Notation/wrappers/Voice.js:155-196 | notes exactly one beat long, scanned from a beat boundary, are never split |
| Ties.Advance | app/components/Notation/wrappers/Voice.js:156-195 | one outer-loop iteration written as the source writes it (the boundary test, splicing the note out, the inner loop, the reversed re-insertion, the position and cursor updates) yields exactly `Ties.Step` |
| Ties.SplitNote | app/components/Notation/wrappers/Voice.js:168-185 | the inner loop emits exactly the fragments for the lengths first, whole beats, remainder; it leaves noteBeatDuration at 0 and raises beatNum once per fragment |
| Ties.SpliceIn | app/components/Notation/wrappers/Voice.js:187-190 | inserting the reversed fragments one at a time at the cursor puts them there in their original order |
| Scenarios.ThreeQuartersUnderFull | app/components/Notation/wrappers/Voice.js:105-123 | three quarters in 4/4 are neither exact nor over full |
| Scenarios.FiveQuartersExact | app/components/Notation/wrappers/Voice.js:105-123 | five quarters in 4/4 report exact and not over full |
| Scenarios.FifthQuarterNotRed | app/components/Notation/wrappers/Voice.js:80-95 | a fifth quarter added to four saved quarters in 4/4 keeps the default style |
| Scenarios.ThreeFourNeverExact | app/components/Notation/wrappers/Voice.js:114-116 | in 3/4 no voice is ever exact |
| Scenarios.DottedQuarterSplit | app/components/Notation/wrappers/Voice.js:155-196 | an eighth and a dotted quarter in 4/4 become an eighth, an eighth fragment and a quarter fragment |
| Scenarios.SecondCrossingMissed | app/components/Notation/wrappers/Voice.js:194 | after a split the position lags, so a second dotted quarter that crosses beat 3 is left whole |
| Scenarios.PassStopsEarly | app/components/Notation/wrappers/Voice.js:155-196 | in 4/4 an eighth, a half note and a quarter become the eighth, the half note's fragments "8", "4", "8" and the unchanged quarter: beatNum reaches 4 after the split and the loop stops before the quarter |
| Scenarios.SecondPassChangesResult | app/components/Notation/wrappers/Voice.js:145-199 | the pass is not idempotent: running it on its own result for an eighth and two dotted quarters in 4/4 splits the dotted quarter it left whole, so the list differs from the first result |
| Scenarios.PassOverFirstResult | app/components/Notation/wrappers/Voice.js:155-196 | an eighth, an eighth fragment, a quarter fragment and a dotted quarter in 4/4 become those three notes followed by a quarter and an eighth fragment |
| Scenarios.QuartersUnsplit | app/components/Notation/wrappers/Voice.js:159-164 | any list of quarter notes in 4/4 passes through unchanged |

## Left out

- `getVFVoice`, `getVFBeams`, `getVFTies` (Voice.js:36-77): thin wrappers over the rendering library. Beam grouping is delegated to it, and `getVFTies` reads a `ties` field that nothing fills. The beam settings are kept only as data (`Beams`, `Fraction`).
- app/components/VexFlow.js: UI and audio plumbing (component lifecycle, DOM listeners, mouse geometry, click debouncing, SVG context, playback). It holds no rhythm logic.
- The note class (`Note.js`) is not part of this model.
  - `Note.compare` is the function parameter `same` of `IsNewNote`.
  - `Note.DEFAULT.STYLE` is `Style.Standard`. A fragment's style, left by the note constructor, is `Style.Unstyled`.
  - The constructor's table from duration strings to `doubleDuration` is taken as the identity on the integer codes `createTies` produces. The editor's own codes ("2", "4", "8") are such divisors.
- Floating point: sums and beat positions are exact rationals.
  - `toPrecision(4)` in `full()` is dropped; the model truncates the exact sum. Rounding to four significant digits before `parseInt` makes a sum just below an integer read as that integer: within 0.00005 below 1 for sums under 1, 0.0005 for sums in [1, 10), 0.005 in [10, 100), 0.05 in [100, 1000) and 0.5 in [1000, 10000). From 9999.5 up, and below 1e-6, `toPrecision(4)` prints exponent notation ("1.000e+4", "5.000e-7"), of which `parseInt` reads only the leading digit.
  - The `parseInt` calls in `createTies` convert a number to a string first, and JavaScript prints numbers below 1e-6 or of 1e21 and above in exponent notation, which `parseInt` misreads. This is not modelled, and neither is `noteBeatDuration > 0` failing through rounding.
- Capacity.Full, Voices.AddNote, Voices.CreateTies: require a positive `beat_value` (and, for the first two, notes of positive length). With a zero divisor JavaScript computes Infinity or NaN, and the flags of `full()` then come out false. With `beat_value` 0, `createTies` computes every `noteBeatDuration` as 0, crosses no boundary, leaves the list unchanged and only sets `saveNotes`. The model does not follow these cases.
- Voices.CreateTies: requires every note to be no longer than a whole note (`doubleDuration >= 1`). This keeps every fragment code at least 1; a longer note can produce the code "0", whose meaning depends on the note class.
- Voices.CreateTiesKeepsFullness, Ties.PassConserves, Ties.StepConserves: hold only when each `beatValue / firstSectionBeats` is an integer. Otherwise `parseInt` truncates the code and the fragment's length changes.
- Voices.AddNote: `addNote` also sets the style on the caller's note object, which the caller then shares with the voice. The model returns a restyled copy instead. The `if (note)` test is not modelled: the note is read before the test, so it cannot be absent there.
- The getters and setters (Voice.js:201-255) are plain field access and are the fields of the `Voice` datatype. The `vfTickablesList` and `currentStyle` accessors belong to the rendering path and are left out.
- Splicing in `createTies` works in place on one array, and `notes.reverse()` mutates its array. The model uses sequence values; `SpliceIn` keeps the one-at-a-time insertion of the reversed list.
