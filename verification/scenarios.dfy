/** Concrete measures in 4/4 and 3/4 that show how the voice behaves. */
module Scenarios {
  import opened Notes
  import Capacity
  import Ties
  import Voices

  const FourFour := TimeSignature(4, 4)
  const ThreeFour := TimeSignature(3, 4)

  function Pitch(d: real): Note
  {
    Note("treble", ["c/4"], d, Standard)
  }

  const Quarter := Pitch(4.0)
  const Eighth := Pitch(8.0)
  const Half := Pitch(2.0)
  /** A dotted quarter: one and a half beats in 4/4. */
  const DottedQuarter := Pitch(8.0 / 3.0)

  /** Notes that are all quarters add up to a quarter of a whole note each. */
  lemma {:induction false} QuartersLength(ts: seq<Note>)
    requires forall k :: 0 <= k < |ts| ==> ts[k].doubleDuration == 4.0
    ensures AllHaveLength(ts)
    ensures Capacity.WholeNotes(ts) == |ts| as real / 4.0
  {
    if |ts| > 0 {
      QuartersLength(ts[..|ts| - 1]);
    }
  }

  /** Three quarters in 4/4 neither fill nor overfill the measure. */
  lemma ThreeQuartersUnderFull()
    ensures Capacity.Full([Quarter, Quarter, Quarter], FourFour) == Capacity.Fullness(false, false)
  {
    QuartersLength([Quarter, Quarter, Quarter]);
  }

  /** Five quarters in 4/4 still read as exactly full: the sum 1.25 is
      truncated to 1 before the comparison. */
  lemma FiveQuartersExact()
    ensures Capacity.Full([Quarter, Quarter, Quarter, Quarter, Quarter], FourFour)
            == Capacity.Fullness(true, false)
  {
    QuartersLength([Quarter, Quarter, Quarter, Quarter, Quarter]);
  }

  /** So a fifth quarter added after four saved ones is not drawn red. */
  lemma FifthQuarterNotRed()
    ensures var v := Voices.NewVoice([Quarter, Quarter, Quarter, Quarter], 1, FourFour).(savedNotes := 4);
            Voices.AddNote(v, Quarter).tickables[4].style == Standard
  {
    var v := Voices.NewVoice([Quarter, Quarter, Quarter, Quarter], 1, FourFour).(savedNotes := 4);
    var r := Voices.AddNote(v, Quarter);
    assert r.tickables[..4] == [Quarter, Quarter, Quarter, Quarter];
    assert |r.tickables| == 5;
    forall k | 0 <= k < 5
      ensures r.tickables[k].doubleDuration == 4.0
    {
      if k < 4 {
        assert r.tickables[k] == r.tickables[..4][k];
      }
    }
    QuartersLength(r.tickables);
  }

  /** In 3/4 the measure length 0.75 is never a whole number, so no voice is
      ever reported exact. */
  lemma ThreeFourNeverExact(ts: seq<Note>)
    requires AllHaveLength(ts)
    ensures !Capacity.Full(ts, ThreeFour).exact
  {
    assert Capacity.MeasureLength(ThreeFour) == 0.75;
    assert Capacity.MeasureLength(ThreeFour).Floor == 0;
  }

  /** A dotted quarter starting half a beat in is cut at beat 1 into an
      eighth and a quarter; the pass then reads the quarter fragment from
      the unadvanced position 0.5, and stops at the end of the list. */
  lemma DottedQuarterSplit()
    ensures Ties.Pass(Ties.Start([Eighth, DottedQuarter]), FourFour).tickables
            == [Eighth, WithCode(DottedQuarter, 8), WithCode(DottedQuarter, 4)]
  {
    var ts := [Eighth, DottedQuarter];
    var s0 := Ties.Start(ts);
    assert Beats(Eighth, 4) == 0.5;
    assert Beats(DottedQuarter, 4) == 1.5;
    assert Ties.Reach(s0, 4) == 0.5;
    Ties.StepWithinBeat(s0, 4);
    var s1 := Ties.Step(s0, 4);
    assert s1 == Ties.Scan(ts, 0.5, 0, 1);
    assert Ties.Reach(s1, 4) == 2.0;
    Ties.StepSplit(s1, 4);
    Ties.PiecesShape(0.5, 1.0);
    var p := Ties.Pieces(0.5, 1.0);
    assert p == [0.5, 1.0];
    Ties.FragmentsAt(DottedQuarter, 4, p);
    assert Ties.Code(4, 0.5) == 8;
    assert Ties.Code(4, 1.0) == 4;
    var frags := Ties.Fragments(DottedQuarter, 4, p);
    assert frags == [WithCode(DottedQuarter, 8), WithCode(DottedQuarter, 4)];
    var s2 := Ties.Step(s1, 4);
    assert s2.tickables[..1] == [Eighth];
    assert s2.tickables[1..3] == frags;
    assert s2.tickables == [Eighth] + frags;
    assert s2 == Ties.Scan([Eighth] + frags, 0.5, 3, 2);
    assert Beats(WithCode(DottedQuarter, 4), 4) == 1.0;
    assert Ties.Reach(s2, 4) == 1.5;
    Ties.StepWithinBeat(s2, 4);
    var s3 := Ties.Step(s2, 4);
    assert s3.index == |s3.tickables|;
    assert Ties.Pass(s2, FourFour) == Ties.Pass(s3, FourFour) == s3;
  }

  /** Two dotted quarters after an eighth: the first is split, but because
      the position does not advance over a split note, the second (which
      really spans beats 2 to 3.5) is read as ending on beat 3 and is left
      whole. */
  lemma SecondCrossingMissed()
    ensures Ties.Pass(Ties.Start([Eighth, DottedQuarter, DottedQuarter]), FourFour).tickables
            == [Eighth, WithCode(DottedQuarter, 8), WithCode(DottedQuarter, 4), DottedQuarter]
  {
    var ts := [Eighth, DottedQuarter, DottedQuarter];
    var s0 := Ties.Start(ts);
    assert Beats(Eighth, 4) == 0.5;
    assert Beats(DottedQuarter, 4) == 1.5;
    assert Ties.Reach(s0, 4) == 0.5;
    Ties.StepWithinBeat(s0, 4);
    var s1 := Ties.Step(s0, 4);
    assert s1 == Ties.Scan(ts, 0.5, 0, 1);
    assert Ties.Reach(s1, 4) == 2.0;
    Ties.StepSplit(s1, 4);
    Ties.PiecesShape(0.5, 1.0);
    var p := Ties.Pieces(0.5, 1.0);
    assert p == [0.5, 1.0];
    Ties.FragmentsAt(DottedQuarter, 4, p);
    assert Ties.Code(4, 0.5) == 8;
    assert Ties.Code(4, 1.0) == 4;
    var frags := Ties.Fragments(DottedQuarter, 4, p);
    assert frags == [WithCode(DottedQuarter, 8), WithCode(DottedQuarter, 4)];
    var s2 := Ties.Step(s1, 4);
    var ts2 := [Eighth] + frags + [DottedQuarter];
    assert s2.tickables[..1] == [Eighth];
    assert s2.tickables[1..3] == frags;
    assert s2.tickables[3..] == [DottedQuarter];
    assert s2.tickables == ts2;
    assert s2 == Ties.Scan(ts2, 0.5, 3, 2);
    assert Beats(WithCode(DottedQuarter, 4), 4) == 1.0;
    assert Ties.Reach(s2, 4) == 1.5;
    Ties.StepWithinBeat(s2, 4);
    var s3 := Ties.Step(s2, 4);
    assert s3 == Ties.Scan(ts2, 1.5, 3, 3);
    assert Ties.Reach(s3, 4) == 3.0;
    Ties.StepWithinBeat(s3, 4);
    var s4 := Ties.Step(s3, 4);
    assert s4.tickables == ts2 && s4.index == |ts2|;
    assert Ties.Pass(s3, FourFour) == Ties.Pass(s4, FourFour) == s4;
    assert Ties.Pass(s0, FourFour) == Ties.Pass(s1, FourFour) == Ties.Pass(s2, FourFour)
        == Ties.Pass(s3, FourFour);
  }

  /** After a split the beat counter has moved one past the boundary and
      once more per fragment, so the loop can stop early. A half note after
      an eighth is cut into three fragments, the counter reaches 4 in 4/4,
      and the quarter that follows (beats 2.5 to 3.5) is never looked at. */
  lemma PassStopsEarly()
    ensures var r := Ties.Pass(Ties.Start([Eighth, Half, Quarter]), FourFour);
            && r.tickables == [Eighth, WithCode(Half, 8), WithCode(Half, 4), WithCode(Half, 8), Quarter]
            && r.beatNum == 4
            && r.index < |r.tickables| - 1
  {
    var ts := [Eighth, Half, Quarter];
    var s0 := Ties.Start(ts);
    assert Beats(Eighth, 4) == 0.5;
    assert Beats(Half, 4) == 2.0;
    assert Ties.Reach(s0, 4) == 0.5;
    Ties.StepWithinBeat(s0, 4);
    var s1 := Ties.Step(s0, 4);
    assert s1 == Ties.Scan(ts, 0.5, 0, 1);
    assert Ties.Reach(s1, 4) == 2.5;
    Ties.StepSplit(s1, 4);
    Ties.PiecesShape(0.5, 1.5);
    var p := Ties.Pieces(0.5, 1.5);
    assert Ties.Tail(1.5) == [1.0] + Ties.Tail(0.5);
    assert p == [0.5, 1.0, 0.5];
    Ties.FragmentsAt(Half, 4, p);
    assert Ties.Code(4, 0.5) == 8;
    assert Ties.Code(4, 1.0) == 4;
    var frags := Ties.Fragments(Half, 4, p);
    assert frags == [WithCode(Half, 8), WithCode(Half, 4), WithCode(Half, 8)];
    var s2 := Ties.Step(s1, 4);
    var ts2 := [Eighth] + frags + [Quarter];
    assert s2.tickables[..1] == [Eighth];
    assert s2.tickables[1..4] == frags;
    assert s2.tickables[4..] == [Quarter];
    assert s2.tickables == ts2;
    assert s2 == Ties.Scan(ts2, 0.5, 4, 2);
    assert Ties.Pass(s2, FourFour) == s2;
    assert Ties.Pass(s0, FourFour) == Ties.Pass(s1, FourFour) == Ties.Pass(s2, FourFour);
  }

  /** The pass is not idempotent. Its first result for an eighth and two
      dotted quarters, fed to it again, is changed once more. Nothing in the
      pass sets `pending` back to true, so every render that calls the pass
      runs it again on its own output. */
  lemma SecondPassChangesResult()
    ensures var once := Ties.Pass(Ties.Start([Eighth, DottedQuarter, DottedQuarter]), FourFour).tickables;
            var twice := Ties.Pass(Ties.Start(once), FourFour).tickables;
            && twice == [Eighth, WithCode(DottedQuarter, 8), WithCode(DottedQuarter, 4),
                         WithCode(DottedQuarter, 4), WithCode(DottedQuarter, 8)]
            && twice != once
  {
    SecondCrossingMissed();
    PassOverFirstResult();
    var once := [Eighth, WithCode(DottedQuarter, 8), WithCode(DottedQuarter, 4), DottedQuarter];
    assert WithCode(DottedQuarter, 8) != DottedQuarter;
    assert [Eighth, WithCode(DottedQuarter, 8), WithCode(DottedQuarter, 4),
            WithCode(DottedQuarter, 4), WithCode(DottedQuarter, 8)][4] != once[|once| - 1];
  }

  /** The second pass over that result: the dotted quarter left whole now
      starts on beat 2 and is cut at beat 3 into a quarter and an eighth. */
  lemma PassOverFirstResult()
    ensures Ties.Pass(Ties.Start([Eighth, WithCode(DottedQuarter, 8), WithCode(DottedQuarter, 4),
                                  DottedQuarter]), FourFour).tickables
            == [Eighth, WithCode(DottedQuarter, 8), WithCode(DottedQuarter, 4),
                WithCode(DottedQuarter, 4), WithCode(DottedQuarter, 8)]
  {
    var f8 := WithCode(DottedQuarter, 8);
    var f4 := WithCode(DottedQuarter, 4);
    var ts := [Eighth, f8, f4, DottedQuarter];
    assert Beats(Eighth, 4) == 0.5;
    assert Beats(f8, 4) == 0.5;
    assert Beats(f4, 4) == 1.0;
    assert Beats(DottedQuarter, 4) == 1.5;
    var s0 := Ties.Start(ts);
    assert Ties.Reach(s0, 4) == 0.5;
    Ties.StepWithinBeat(s0, 4);
    var s1 := Ties.Step(s0, 4);
    assert s1 == Ties.Scan(ts, 0.5, 0, 1);
    assert Ties.Reach(s1, 4) == 1.0;
    Ties.StepAligned(s1, 4);
    var s2 := Ties.Step(s1, 4);
    assert s2 == Ties.Scan(ts, 1.0, 1, 2);
    assert Ties.Reach(s2, 4) == 2.0;
    Ties.StepAligned(s2, 4);
    var s3 := Ties.Step(s2, 4);
    assert s3 == Ties.Scan(ts, 2.0, 2, 3);
    assert Ties.Reach(s3, 4) == 3.5;
    Ties.StepSplit(s3, 4);
    Ties.PiecesShape(1.0, 0.5);
    var p := Ties.Pieces(1.0, 0.5);
    assert p == [1.0, 0.5];
    Ties.FragmentsAt(DottedQuarter, 4, p);
    assert Ties.Code(4, 1.0) == 4;
    assert Ties.Code(4, 0.5) == 8;
    var frags := Ties.Fragments(DottedQuarter, 4, p);
    assert frags == [f4, f8];
    var s4 := Ties.Step(s3, 4);
    var ts4 := ts[..3] + frags;
    assert s4.tickables[..3] == ts[..3];
    assert s4.tickables[3..5] == frags;
    assert s4.tickables == ts4;
    assert s4 == Ties.Scan(ts4, 2.0, 5, 4);
    assert Ties.Pass(s4, FourFour) == s4;
    assert Ties.Pass(s0, FourFour) == Ties.Pass(s1, FourFour) == Ties.Pass(s2, FourFour)
        == Ties.Pass(s3, FourFour) == Ties.Pass(s4, FourFour);
    assert ts4 == [Eighth, f8, f4, f4, f8];
  }

  /** Quarter notes in 4/4 all end on beat boundaries and are never split. */
  lemma QuartersUnsplit(ts: seq<Note>)
    requires forall k :: 0 <= k < |ts| ==> ts[k].doubleDuration == 4.0
    ensures Ties.Pass(Ties.Start(ts), FourFour).tickables == ts
  {
    Ties.OneBeatNotesUnsplit(Ties.Start(ts), FourFour);
  }
}
