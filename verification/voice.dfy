/** One measure's voice: its note list, the boundary between saved and
    provisional notes, and the operations the editor calls on it. */
module Voices {
  import opened Notes
  import Capacity
  import Ties

  datatype Option<T> = None | Some(value: T)

  /** Voice modes of the rendering library; a voice starts in `Soft`. */
  datatype Mode = Strict | Soft | Full

  datatype Fraction = Fraction(numerator: int, denominator: int)

  /** Stem direction and beat groups handed to the beaming step. */
  datatype Beams = Beams(direction: int, groups: seq<Fraction>)

  /** The voice's state. Notes at index < `savedNotes` are saved, the rest
      are provisional. `saveNotes` is the separate, misspelt property that
      the tie pass writes; nothing reads it. */
  datatype Voice = Voice(
    time: TimeSignature,
    tickables: seq<Note>,
    savedNotes: nat,
    pending: bool,
    join: bool,
    mode: Mode,
    beams: Beams,
    saveNotes: Option<nat>)

  const DefaultPending := true
  const DefaultSavedNotes: nat := 0
  const DefaultJoin := true
  const DefaultMode := Soft
  const DefaultGroups := [Fraction(4, 8)]

  /** A voice the model can classify: a positive beat value, every note of
      positive length, and no more saved notes than notes. */
  predicate Valid(v: Voice)
  {
    && v.time.beatValue > 0
    && v.savedNotes <= |v.tickables|
    && AllHaveLength(v.tickables)
  }

  /** A new voice over `notes`: pending, nothing saved, default grouping. */
  function NewVoice(notes: seq<Note>, stem: int, time: TimeSignature): (v: Voice)
    ensures v.tickables == notes && v.time == time
    ensures v.pending && v.savedNotes == 0 && v.saveNotes == None
    ensures v.beams == Beams(stem, [Fraction(4, 8)])
    ensures time.beatValue > 0 && AllHaveLength(notes) ==> Valid(v)
  {
    Voice(time, notes, DefaultSavedNotes, DefaultPending, DefaultJoin, DefaultMode,
          Beams(stem, DefaultGroups), None)
  }

  function Min(a: int, b: int): int
  {
    if a < b then a else b
  }

  /** How many notes survive the truncation to the saved prefix. */
  function Kept(v: Voice): nat
  {
    Min(v.savedNotes, |v.tickables|)
  }

  /** Drops the provisional notes and appends `note`. The append is never
      refused: the note is drawn red exactly when the voice is over full
      with it, and in the default style otherwise. */
  function AddNote(v: Voice, note: Note): (r: Voice)
    requires v.time.beatValue > 0 && AllHaveLength(v.tickables) && HasLength(note)
    ensures r == v.(tickables := r.tickables)
    ensures |r.tickables| == Kept(v) + 1
    ensures r.tickables[..Kept(v)] == v.tickables[..Kept(v)]
    ensures r.tickables[Kept(v)] == note.(style := r.tickables[Kept(v)].style)
    ensures AllHaveLength(r.tickables)
    ensures r.tickables[Kept(v)].style
            == if Capacity.Full(r.tickables, r.time).overFull then Red else Standard
    ensures Valid(v) ==> Valid(r)
  {
    var kept := v.tickables[..Min(v.savedNotes, |v.tickables|)];
    var styled := note.(style := Standard);
    var pushed := kept + [styled];
    assert pushed[..|kept|] == kept;
    if Capacity.Full(pushed, v.time).overFull then
      var red := kept + [note.(style := Red)];
      assert red[..|kept|] == kept;
      Capacity.WholeNotesConcat(kept, [styled]);
      Capacity.WholeNotesConcat(kept, [note.(style := Red)]);
      assert [styled][..0] == [note.(style := Red)][..0];
      v.(tickables := red)
    else
      v.(tickables := pushed)
  }

  /** Removes the last note and un-saves one note, whichever of the two the
      last note was; does nothing when no note is saved. */
  function DeleteNote(v: Voice): (r: Voice)
    ensures v.savedNotes == 0 ==> r == v
    ensures v.savedNotes > 0 ==>
              && r.savedNotes + 1 == v.savedNotes
              && r.pending
              && |r.tickables| == (if |v.tickables| == 0 then 0 else |v.tickables| - 1)
              && r.tickables == v.tickables[..|r.tickables|]
    ensures r == v.(pending := r.pending, savedNotes := r.savedNotes, tickables := r.tickables)
    ensures Valid(v) ==> Valid(r)
  {
    if v.savedNotes > 0 then
      var ts := if |v.tickables| == 0 then v.tickables else v.tickables[..|v.tickables| - 1];
      v.(pending := true, savedNotes := v.savedNotes - 1, tickables := ts)
    else
      v
  }

  /** Whether `note` is not already among the provisional notes of a
      pending voice, by the note class's comparison `same`. */
  method IsNewNote(v: Voice, note: Note, same: (Note, Note) -> bool) returns (r: bool)
    ensures !v.pending ==> r
    ensures v.pending ==>
              (r <==> forall k :: v.savedNotes <= k < |v.tickables| ==> !same(note, v.tickables[k]))
  {
    if v.pending {
      var i := 0;
      while i < |v.tickables|
        invariant 0 <= i <= |v.tickables|
        invariant forall k :: v.savedNotes <= k < i ==> !same(note, v.tickables[k])
      {
        if i >= v.savedNotes && same(note, v.tickables[i]) {
          return false;
        }
        i := i + 1;
      }
    }
    return true;
  }

  /** The tie pass. It runs only when the voice is NOT pending; it then
      rewrites the note list as `Ties.Pass` does and records the list's
      length in `saveNotes`, leaving `savedNotes` and `pending` as they were. */
  method CreateTies(v: Voice) returns (w: Voice)
    requires v.time.beatValue > 0 && AllAtMostWhole(v.tickables)
    ensures v.pending ==> w == v
    ensures !v.pending ==>
              w == v.(tickables := Ties.Pass(Ties.Start(v.tickables), v.time).tickables,
                      saveNotes := Some(|w.tickables|))
    ensures w.pending == v.pending && w.savedNotes == v.savedNotes
    ensures |w.tickables| >= |v.tickables|
    ensures AllAtMostWhole(w.tickables)
    ensures Valid(v) ==> Valid(w)
  {
    w := v;
    if !v.pending {
      var numBeats := v.time.numBeats;
      var beatValue := v.time.beatValue;
      var location := 0.0;
      var beatNum := 0;
      var i: nat := 0;
      var ts := v.tickables;
      while beatNum < numBeats && i < |ts|
        invariant Ties.Inv(Ties.Scan(ts, location, beatNum, i), beatValue)
        invariant Ties.Pass(Ties.Scan(ts, location, beatNum, i), v.time)
                  == Ties.Pass(Ties.Start(v.tickables), v.time)
        decreases Ties.Max0(numBeats - beatNum), |ts| - i
      {
        ts, location, beatNum, i := Ties.Advance(ts, location, beatNum, i, beatValue);
      }
      w := v.(tickables := ts, saveNotes := Some(|ts|));
    }
  }

  /** Adding a note replaces the provisional note an earlier add left: two
      adds in a row keep only the second note. */
  lemma AddNoteReplacesProvisional(v: Voice, a: Note, b: Note)
    requires Valid(v) && HasLength(a) && HasLength(b)
    ensures AddNote(AddNote(v, a), b) == AddNote(v, b)
  {
    var va := AddNote(v, a);
    assert Kept(va) == v.savedNotes == Kept(v);
    assert va.tickables[..Kept(va)] == v.tickables[..Kept(v)];
  }

  /** Deleting right after an add removes the added, provisional note, yet
      still un-saves one note: the last saved note becomes provisional. */
  lemma DeleteAfterAdd(v: Voice, n: Note)
    requires Valid(v) && HasLength(n) && v.savedNotes > 0
    ensures DeleteNote(AddNote(v, n)).tickables == v.tickables[..v.savedNotes]
    ensures DeleteNote(AddNote(v, n)).savedNotes == v.savedNotes - 1
    ensures DeleteNote(AddNote(v, n)).pending
  {
    var va := AddNote(v, n);
    assert va.tickables[..v.savedNotes] == v.tickables[..v.savedNotes];
  }

  /** When every split has exact fragment codes, the tie pass does not
      change the capacity flags of the voice. */
  lemma CreateTiesKeepsFullness(ts: seq<Note>, time: TimeSignature)
    requires time.beatValue > 0 && AllAtMostWhole(ts)
    requires Ties.ExactRun(Ties.Start(ts), time)
    ensures AllHaveLength(Ties.Pass(Ties.Start(ts), time).tickables)
    ensures Capacity.Full(Ties.Pass(Ties.Start(ts), time).tickables, time) == Capacity.Full(ts, time)
  {
    Ties.PassConserves(Ties.Start(ts), time);
  }
}
