/** The capacity check of a voice: how much of the measure its notes fill. */
module Capacity {
  import opened Notes

  /** The two flags the check reports. */
  datatype Fullness = Fullness(exact: bool, overFull: bool)

  /** Sum of 1/doubleDuration over the notes, in whole notes, summed in list order. */
  function WholeNotes(ts: seq<Note>): real
    requires AllHaveLength(ts)
  {
    if |ts| == 0 then 0.0
    else WholeNotes(ts[..|ts| - 1]) + 1.0 / ts[|ts| - 1].doubleDuration
  }

  /** The measure's length in whole notes, num_beats / beat_value. */
  function MeasureLength(time: TimeSignature): real
    requires time.beatValue > 0
  {
    time.numBeats as real / time.beatValue as real
  }

  /** The sum is truncated to an integer before it is compared with the
      measure length. So a voice is over full only once it reaches the next
      whole number above the measure length, and it is exact only when the
      measure length is a whole number and the sum lies within one whole
      note from it. */
  function Full(ts: seq<Note>, time: TimeSignature): (r: Fullness)
    requires time.beatValue > 0 && AllHaveLength(ts)
    ensures r.overFull <==> WholeNotes(ts) >= (time.numBeats / time.beatValue + 1) as real
    ensures r.exact <==> (time.numBeats % time.beatValue == 0
                          && (time.numBeats / time.beatValue) as real <= WholeNotes(ts)
                          && WholeNotes(ts) < (time.numBeats / time.beatValue + 1) as real)
    ensures !(r.exact && r.overFull)
  {
    var sum := WholeNotes(ts).Floor;
    MeasureFloor(time);
    TruncatedAbove(WholeNotes(ts), MeasureLength(time));
    TruncatedEqual(WholeNotes(ts), MeasureLength(time));
    Fullness(sum as real == MeasureLength(time), sum as real > MeasureLength(time))
  }

  /** The measure length truncates to num_beats / beat_value and is whole
      exactly when beat_value divides num_beats. */
  lemma MeasureFloor(time: TimeSignature)
    requires time.beatValue > 0
    ensures MeasureLength(time).Floor == time.numBeats / time.beatValue
    ensures MeasureLength(time).Floor as real == MeasureLength(time)
            <==> time.numBeats % time.beatValue == 0
  {
    var q := time.numBeats / time.beatValue;
    var m := time.numBeats % time.beatValue;
    var b := time.beatValue as real;
    assert time.numBeats == q * time.beatValue + m;
    assert MeasureLength(time) == q as real + m as real / b;
    assert 0.0 <= m as real / b < 1.0;
  }

  /** A truncated sum exceeds `c` exactly when the sum reaches the next integer above `c`. */
  lemma TruncatedAbove(x: real, c: real)
    ensures x.Floor as real > c <==> x >= (c.Floor + 1) as real
  {
    if x.Floor as real > c {
      assert x.Floor > c.Floor;
    }
    if x >= (c.Floor + 1) as real {
      assert x.Floor >= c.Floor + 1;
    }
  }

  /** A truncated sum equals `c` exactly when `c` is an integer and the sum lies in [c, c+1). */
  lemma TruncatedEqual(x: real, c: real)
    ensures x.Floor as real == c <==> c.Floor as real == c && c <= x < c + 1.0
  {
    if c.Floor as real == c && c <= x < c + 1.0 {
      assert x.Floor >= c.Floor;
      assert x.Floor <= c.Floor;
    }
  }

  lemma {:induction false} WholeNotesConcat(a: seq<Note>, b: seq<Note>)
    requires AllHaveLength(a) && AllHaveLength(b)
    ensures AllHaveLength(a + b)
    ensures WholeNotes(a + b) == WholeNotes(a) + WholeNotes(b)
    decreases |b|
  {
    if |b| > 0 {
      var b' := b[..|b| - 1];
      WholeNotesConcat(a, b');
      assert (a + b)[..|a + b| - 1] == a + b';
    } else {
      assert a + b == a;
    }
  }
}
