/** The parts of a note that a voice reads and writes. The note class itself
    (its comparison, its table from duration strings to divisors, its default
    style) is not part of this model: comparison is passed in where it is
    used, and the rest is represented by the constructors below. */
module Notes {

  /** How a note is drawn: `Unstyled` as the note's own constructor leaves it,
      `Standard` for the note class's default style, `Red` for the red fill
      and stroke that mark a note overfilling its measure. */
  datatype Style = Unstyled | Standard | Red

  /** A note: clef, pitch keys, and `doubleDuration`, the divisor for which
      1/doubleDuration is the note's length in whole notes. */
  datatype Note = Note(clef: string, keys: seq<string>, doubleDuration: real, style: Style)

  /** `num_beats` beats, each a 1/`beat_value` note. */
  datatype TimeSignature = TimeSignature(numBeats: nat, beatValue: nat)

  /** The note lasts a positive time, so 1/doubleDuration is defined. */
  predicate HasLength(n: Note)
  {
    n.doubleDuration > 0.0
  }

  predicate AllHaveLength(ts: seq<Note>)
  {
    forall k :: 0 <= k < |ts| ==> HasLength(ts[k])
  }

  /** The note is no longer than a whole note. */
  predicate AtMostWhole(n: Note)
  {
    n.doubleDuration >= 1.0
  }

  predicate AllAtMostWhole(ts: seq<Note>)
  {
    forall k :: 0 <= k < |ts| ==> AtMostWhole(ts[k])
  }

  /** Length of `n` in beats of the time signature: beatValue / doubleDuration. */
  function Beats(n: Note, beatValue: nat): real
    requires HasLength(n)
  {
    beatValue as real / n.doubleDuration
  }

  /** A new note with the clef and keys of `n` and the duration string
      `code`, which the note class reads back as the divisor `code`. */
  function WithCode(n: Note, code: int): Note
  {
    Note(n.clef, n.keys, code as real, Unstyled)
  }
}
