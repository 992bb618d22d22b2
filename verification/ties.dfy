/** The beat-boundary pass of a voice (its `createTies`), as a function of
    the scan state, together with the two loops the pass runs inside one
    step: cutting a note into fragments and splicing them back in. */
module Ties {
  import opened Notes
  import Capacity

  /** Least integer not below `x`. */
  function Ceil(x: real): int
  {
    -((-x).Floor)
  }

  function Total(xs: seq<real>): real
  {
    if |xs| == 0 then 0.0 else xs[0] + Total(xs[1..])
  }

  predicate AllPositive(xs: seq<real>)
  {
    forall k :: 0 <= k < |xs| ==> xs[k] > 0.0
  }

  /** Beat lengths of the fragments after the first: one whole beat while
      more than one beat is left, then what remains. */
  function Tail(rest: real): (r: seq<real>)
    requires rest > 0.0
    ensures forall k :: 0 <= k < |r| ==> 0.0 < r[k] <= 1.0
    decreases rest.Floor
  {
    if rest > 1.0 then [1.0] + Tail(rest - 1.0) else [rest]
  }

  /** Beat lengths of all fragments of a note cut `first` beats before a boundary. */
  function Pieces(first: real, rest: real): (r: seq<real>)
    requires first > 0.0 && rest > 0.0
    ensures AllPositive(r)
  {
    [first] + Tail(rest)
  }

  lemma {:induction false} TotalSnoc(xs: seq<real>, x: real)
    ensures Total(xs + [x]) == Total(xs) + x
  {
    if |xs| > 0 {
      TotalSnoc(xs[1..], x);
      assert (xs + [x])[1..] == xs[1..] + [x];
    }
  }

  lemma {:induction false} TailShape(rest: real)
    requires rest > 0.0
    ensures |Tail(rest)| == Ceil(rest)
    ensures forall k :: 0 <= k < |Tail(rest)| - 1 ==> Tail(rest)[k] == 1.0
    ensures Total(Tail(rest)) == rest
    decreases rest.Floor
  {
    if rest > 1.0 {
      TailShape(rest - 1.0);
      assert (-rest).Floor == (-(rest - 1.0)).Floor - 1;
      var t := Tail(rest - 1.0);
      assert Tail(rest) == [1.0] + t;
      assert ([1.0] + t)[1..] == t;
    }
  }

  /** The fragments of a note: the part up to the boundary, whole beats,
      then a final remainder of at most one beat; as many as 1 + ceil(rest),
      and together exactly as long as the note. */
  lemma PiecesShape(first: real, rest: real)
    requires first > 0.0 && rest > 0.0
    ensures |Pieces(first, rest)| == 1 + Ceil(rest)
    ensures AllPositive(Pieces(first, rest))
    ensures Pieces(first, rest)[0] == first
    ensures forall k :: 0 < k < |Pieces(first, rest)| - 1 ==> Pieces(first, rest)[k] == 1.0
    ensures 0.0 < Pieces(first, rest)[|Pieces(first, rest)| - 1] <= 1.0
    ensures Total(Pieces(first, rest)) == first + rest
  {
    TailShape(rest);
    var p := Pieces(first, rest);
    assert p[1..] == Tail(rest);
  }

  /** Duration code of a fragment `len` beats long: parseInt(beatValue / len). */
  function Code(beatValue: nat, len: real): int
    requires len > 0.0
  {
    (beatValue as real / len).Floor
  }

  /** beatValue / len is an integer, so the code loses nothing. */
  predicate Exact(beatValue: nat, len: real)
    requires len > 0.0
  {
    Code(beatValue, len) as real == beatValue as real / len
  }

  predicate AllExact(beatValue: nat, lens: seq<real>)
    requires AllPositive(lens)
  {
    forall k :: 0 <= k < |lens| ==> Exact(beatValue, lens[k])
  }

  /** The same-pitch notes made for the given beat lengths, in order. */
  function Fragments(n: Note, beatValue: nat, lens: seq<real>): (r: seq<Note>)
    requires AllPositive(lens)
    ensures |r| == |lens|
  {
    if |lens| == 0 then []
    else Fragments(n, beatValue, lens[..|lens| - 1]) + [WithCode(n, Code(beatValue, lens[|lens| - 1]))]
  }

  /** The k-th fragment has the clef and keys of `n` and the code of the k-th length. */
  lemma {:induction false} FragmentsAt(n: Note, beatValue: nat, lens: seq<real>)
    requires AllPositive(lens)
    ensures forall k :: 0 <= k < |lens| ==>
              Fragments(n, beatValue, lens)[k] == WithCode(n, Code(beatValue, lens[k]))
    decreases |lens|
  {
    if |lens| > 0 {
      FragmentsAt(n, beatValue, lens[..|lens| - 1]);
    }
  }

  lemma FragmentsSnoc(n: Note, beatValue: nat, lens: seq<real>, len: real)
    requires AllPositive(lens) && len > 0.0
    ensures AllPositive(lens + [len])
    ensures Fragments(n, beatValue, lens + [len])
            == Fragments(n, beatValue, lens) + [WithCode(n, Code(beatValue, len))]
  {
    assert (lens + [len])[..|lens|] == lens;
  }

  /** A fragment whose code is exact lasts exactly its piece. */
  lemma FragmentBeats(n: Note, beatValue: nat, len: real)
    requires beatValue > 0 && len > 0.0 && Exact(beatValue, len)
    ensures HasLength(WithCode(n, Code(beatValue, len)))
    ensures Beats(WithCode(n, Code(beatValue, len)), beatValue) == len
    ensures 1.0 / WithCode(n, Code(beatValue, len)).doubleDuration == len / beatValue as real
  {
    var b := beatValue as real;
    var q := b / len;
    assert q * len == b;
    assert b / q == len;
  }

  /** No fragment is longer than a whole note when no piece exceeds a bar of beats. */
  lemma CodeAtLeastOne(beatValue: nat, len: real)
    requires 0.0 < len <= beatValue as real
    ensures Code(beatValue, len) >= 1
  {
    var q := beatValue as real / len;
    assert q * len == beatValue as real;
    assert q >= 1.0;
  }

  lemma SumOverCommon(x: real, y: real, b: real)
    requires b != 0.0
    ensures x / b + y / b == (x + y) / b
  {
  }

  /** Every fragment made with an exact code has a positive length. */
  lemma FragmentsHaveLength(n: Note, beatValue: nat, lens: seq<real>)
    requires beatValue > 0 && AllPositive(lens) && AllExact(beatValue, lens)
    ensures AllHaveLength(Fragments(n, beatValue, lens))
  {
    var fs := Fragments(n, beatValue, lens);
    FragmentsAt(n, beatValue, lens);
    forall k | 0 <= k < |lens|
      ensures HasLength(fs[k])
    {
      FragmentBeats(n, beatValue, lens[k]);
    }
  }

  /** Fragments with exact codes add up to their pieces, in whole notes. */
  lemma {:induction false} FragmentsWholeNotes(n: Note, beatValue: nat, lens: seq<real>)
    requires beatValue > 0 && AllPositive(lens) && AllExact(beatValue, lens)
    ensures AllHaveLength(Fragments(n, beatValue, lens))
    ensures Capacity.WholeNotes(Fragments(n, beatValue, lens)) == Total(lens) / beatValue as real
    decreases |lens|
  {
    FragmentsHaveLength(n, beatValue, lens);
    if |lens| > 0 {
      var init := lens[..|lens| - 1];
      var last := lens[|lens| - 1];
      var b := beatValue as real;
      assert lens == init + [last];
      var w := FragmentsSum(n, beatValue, init, last);
      assert w == Total(init) / b by {
        assert AllExact(beatValue, init);
        FragmentsWholeNotes(n, beatValue, init);
      }
      assert Total(lens) == Total(init) + last by {
        TotalSnoc(init, last);
      }
      SumOverCommon(Total(init), last, b);
    }
  }

  /** The sum over the fragments grows by the last piece's share of a whole note. */
  lemma FragmentsSum(n: Note, beatValue: nat, init: seq<real>, last: real) returns (w: real)
    requires beatValue > 0 && AllPositive(init) && AllExact(beatValue, init)
    requires last > 0.0 && Exact(beatValue, last)
    ensures AllPositive(init + [last])
    ensures AllHaveLength(Fragments(n, beatValue, init))
    ensures AllHaveLength(Fragments(n, beatValue, init + [last]))
    ensures w == Capacity.WholeNotes(Fragments(n, beatValue, init))
    ensures Capacity.WholeNotes(Fragments(n, beatValue, init + [last])) == w + last / beatValue as real
  {
    FragmentsSnoc(n, beatValue, init, last);
    FragmentsHaveLength(n, beatValue, init);
    var f := WithCode(n, Code(beatValue, last));
    var fs := Fragments(n, beatValue, init) + [f];
    FragmentBeats(n, beatValue, last);
    assert fs[..|fs| - 1] == Fragments(n, beatValue, init);
    w := Capacity.WholeNotes(Fragments(n, beatValue, init));
  }

  /** State of the pass between two iterations: the note list, the position
      reached in beats (`currentBeatLocation`), the beat counter (`beatNum`)
      and the cursor (`i`). */
  datatype Scan = Scan(tickables: seq<Note>, location: real, beatNum: int, index: nat)

  function Start(ts: seq<Note>): Scan
  {
    Scan(ts, 0.0, 0, 0)
  }

  /** What holds between iterations. `location < beatNum + 1` is what makes
      the first fragment of a split note, and its remainder, positive. */
  predicate Inv(s: Scan, beatValue: nat)
  {
    && beatValue > 0
    && s.index <= |s.tickables|
    && s.location < (s.beatNum + 1) as real
    && AllAtMostWhole(s.tickables)
  }

  /** Where the note under the cursor ends, in beats. */
  function Reach(s: Scan, beatValue: nat): real
    requires Inv(s, beatValue) && s.index < |s.tickables|
  {
    s.location + Beats(s.tickables[s.index], beatValue)
  }

  /** One iteration of the outer loop. A note that crosses the next beat
      boundary and does not end on it is replaced, at the cursor, by its
      fragments; the beat counter then moves past the boundary and once more
      per fragment, while the position is left where it was. */
  function Step(s: Scan, beatValue: nat): (r: Scan)
    requires Inv(s, beatValue) && s.index < |s.tickables|
    ensures Inv(r, beatValue)
    ensures r.index == s.index + 1
    ensures |r.tickables| >= |s.tickables|
    ensures r.tickables[..s.index] == s.tickables[..s.index]
    ensures r.beatNum > s.beatNum || (r.beatNum == s.beatNum && r.tickables == s.tickables)
  {
    var note := s.tickables[s.index];
    var noteBeats := Beats(note, beatValue);
    if (s.location + noteBeats).Floor > s.beatNum then
      var boundary := s.beatNum + 1;
      var second := s.location + noteBeats - boundary as real;
      var first := noteBeats - second;
      if second != 0.0 then SplitStep(s, beatValue)
      else
        Scan(s.tickables, s.location + noteBeats, boundary, s.index + 1)
    else
      Scan(s.tickables, s.location + noteBeats, s.beatNum, s.index + 1)
  }

  /** The splitting branch of a step: the note's first part runs to the
      next boundary, its second part is what is left of it. */
  function SplitStep(s: Scan, beatValue: nat): (r: Scan)
    requires Inv(s, beatValue) && s.index < |s.tickables|
    requires Reach(s, beatValue) > (s.beatNum + 1) as real
    ensures Inv(r, beatValue)
    ensures r.index == s.index + 1
    ensures |r.tickables| >= |s.tickables|
    ensures r.tickables[..s.index] == s.tickables[..s.index]
    ensures r.beatNum > s.beatNum
  {
    var note := s.tickables[s.index];
    var noteBeats := Beats(note, beatValue);
    var boundary := s.beatNum + 1;
    var second := s.location + noteBeats - boundary as real;
    var first := noteBeats - second;
    SplitKeepsInv(s, beatValue);
    var frags := Fragments(note, beatValue, Pieces(first, second));
    var ts := s.tickables[..s.index] + frags + s.tickables[s.index + 1..];
    assert ts[..s.index] == s.tickables[..s.index];
    Scan(ts, s.location, boundary + |frags|, s.index + 1)
  }

  /** The facts a split needs: both parts are positive, and with the
      fragments in place of the note no note is longer than a whole note. */
  lemma SplitKeepsInv(s: Scan, beatValue: nat)
    requires Inv(s, beatValue) && s.index < |s.tickables|
    requires Reach(s, beatValue) > (s.beatNum + 1) as real
    ensures var note := s.tickables[s.index];
            var second := s.location + Beats(note, beatValue) - (s.beatNum + 1) as real;
            var first := Beats(note, beatValue) - second;
            && second > 0.0 && first > 0.0
            && |Pieces(first, second)| >= 1
            && AllAtMostWhole(s.tickables[..s.index]
                              + Fragments(note, beatValue, Pieces(first, second))
                              + s.tickables[s.index + 1..])
  {
    var note := s.tickables[s.index];
    var noteBeats := Beats(note, beatValue);
    var second := s.location + noteBeats - (s.beatNum + 1) as real;
    var first := noteBeats - second;
    BeatsAtMost(note, beatValue);
    assert first == (s.beatNum + 1) as real - s.location;
    FragmentsAtMostWhole(note, beatValue, first, second);
    SpliceAtMostWhole(s.tickables, s.index, Fragments(note, beatValue, Pieces(first, second)));
  }

  /** A note no longer than a whole note lasts at most `beatValue` beats. */
  lemma BeatsAtMost(note: Note, beatValue: nat)
    requires AtMostWhole(note) && beatValue > 0
    ensures 0.0 < Beats(note, beatValue) <= beatValue as real
  {
    var b := beatValue as real;
    assert Beats(note, beatValue) * note.doubleDuration == b;
  }

  /** Putting notes no longer than a whole note in place of one keeps that bound. */
  lemma SpliceAtMostWhole(ts: seq<Note>, i: nat, frags: seq<Note>)
    requires i < |ts| && AllAtMostWhole(ts) && AllAtMostWhole(frags)
    ensures AllAtMostWhole(ts[..i] + frags + ts[i + 1..])
  {
    var r := ts[..i] + frags + ts[i + 1..];
    forall k | 0 <= k < |r|
      ensures AtMostWhole(r[k])
    {
      if k < i {
        assert r[k] == ts[k];
      } else if k < i + |frags| {
        assert r[k] == frags[k - i];
      } else {
        assert r[k] == ts[k - |frags| + 1];
      }
    }
  }

  /** Pieces no longer than `beatValue` beats give fragments no longer than a whole note. */
  lemma FragmentsAtMostWhole(note: Note, beatValue: nat, first: real, second: real)
    requires beatValue > 0 && 0.0 < first <= beatValue as real && second > 0.0
    ensures AllPositive(Pieces(first, second))
    ensures AllAtMostWhole(Fragments(note, beatValue, Pieces(first, second)))
  {
    PiecesShape(first, second);
    var p := Pieces(first, second);
    FragmentsAt(note, beatValue, p);
    forall k | 0 <= k < |p|
      ensures Code(beatValue, p[k]) >= 1
    {
      assert p[k] <= beatValue as real by {
        if k > 0 {
          assert p[k] <= 1.0;
        }
      }
      CodeAtLeastOne(beatValue, p[k]);
    }
  }

  function Max0(x: int): nat
  {
    if x > 0 then x else 0
  }

  /** The whole outer loop: steps while the beat counter is below
      `num_beats` and the cursor is inside the list. */
  function Pass(s: Scan, time: TimeSignature): (r: Scan)
    requires Inv(s, time.beatValue)
    ensures Inv(r, time.beatValue)
    ensures s.index <= r.index
    ensures |r.tickables| >= |s.tickables|
    ensures r.tickables[..s.index] == s.tickables[..s.index]
    ensures r.beatNum >= time.numBeats || r.index == |r.tickables|
    decreases Max0(time.numBeats - s.beatNum), |s.tickables| - s.index
  {
    if s.beatNum < time.numBeats && s.index < |s.tickables| then
      var next := Step(s, time.beatValue);
      var r := Pass(next, time);
      assert r.tickables[..s.index] == r.tickables[..next.index][..s.index];
      assert next.tickables[..s.index] == next.tickables[..next.index][..s.index];
      r
    else
      s
  }

  /** A note that ends before the next beat boundary is kept and the
      position moves to its end. */
  lemma StepWithinBeat(s: Scan, beatValue: nat)
    requires Inv(s, beatValue) && s.index < |s.tickables|
    requires Reach(s, beatValue) < (s.beatNum + 1) as real
    ensures Step(s, beatValue).tickables == s.tickables
    ensures Step(s, beatValue).beatNum == s.beatNum
    ensures Step(s, beatValue).location == Reach(s, beatValue)
  {
    assert Reach(s, beatValue).Floor <= s.beatNum;
  }

  /** A note that ends exactly on the next beat boundary is not split: the
      list is unchanged and the beat counter moves past that boundary. */
  lemma StepAligned(s: Scan, beatValue: nat)
    requires Inv(s, beatValue) && s.index < |s.tickables|
    requires Reach(s, beatValue) == (s.beatNum + 1) as real
    ensures Step(s, beatValue).tickables == s.tickables
    ensures Step(s, beatValue).beatNum == s.beatNum + 1
    ensures Step(s, beatValue).location == (s.beatNum + 1) as real
  {
  }

  /** A note that runs past the next beat boundary is replaced at the
      cursor by its fragments, in temporal order; what precedes the cursor
      and what follows the note are unchanged. */
  lemma StepSplit(s: Scan, beatValue: nat)
    requires Inv(s, beatValue) && s.index < |s.tickables|
    requires Reach(s, beatValue) > (s.beatNum + 1) as real
    ensures var first := (s.beatNum + 1) as real - s.location;
            var second := Reach(s, beatValue) - (s.beatNum + 1) as real;
            var m := 1 + Ceil(second);
            var r := Step(s, beatValue);
            && first > 0.0 && second > 0.0
            && |r.tickables| == |s.tickables| + m - 1
            && r.tickables[..s.index] == s.tickables[..s.index]
            && r.tickables[s.index..s.index + m]
               == Fragments(s.tickables[s.index], beatValue, Pieces(first, second))
            && r.tickables[s.index + m..] == s.tickables[s.index + 1..]
            && r.beatNum == s.beatNum + 1 + m
            && r.location == s.location
  {
    var first := (s.beatNum + 1) as real - s.location;
    var second := Reach(s, beatValue) - (s.beatNum + 1) as real;
    PiecesShape(first, second);
    var frags := SplitResult(s, beatValue);
    var ts := s.tickables[..s.index] + frags + s.tickables[s.index + 1..];
    assert ts[..s.index] == s.tickables[..s.index];
    assert ts[s.index..s.index + |frags|] == frags;
    assert ts[s.index + |frags|..] == s.tickables[s.index + 1..];
  }

  /** The step that splits, as one equation: the fragments `frags` take the
      note's place. */
  lemma SplitResult(s: Scan, beatValue: nat) returns (frags: seq<Note>)
    requires Inv(s, beatValue) && s.index < |s.tickables|
    requires Reach(s, beatValue) > (s.beatNum + 1) as real
    ensures (s.beatNum + 1) as real - s.location > 0.0
    ensures Reach(s, beatValue) - (s.beatNum + 1) as real > 0.0
    ensures AllPositive(Pieces((s.beatNum + 1) as real - s.location,
                               Reach(s, beatValue) - (s.beatNum + 1) as real))
    ensures frags == Fragments(s.tickables[s.index], beatValue,
                               Pieces((s.beatNum + 1) as real - s.location,
                                      Reach(s, beatValue) - (s.beatNum + 1) as real))
    ensures Step(s, beatValue)
            == Scan(s.tickables[..s.index] + frags + s.tickables[s.index + 1..],
                    s.location, s.beatNum + 1 + |frags|, s.index + 1)
  {
    var n := s.tickables[s.index];
    var second := s.location + Beats(n, beatValue) - (s.beatNum + 1) as real;
    var first := Beats(n, beatValue) - second;
    assert first == (s.beatNum + 1) as real - s.location;
    frags := Fragments(n, beatValue, Pieces(first, second));
    assert SplitStep(s, beatValue)
           == Scan(s.tickables[..s.index] + frags + s.tickables[s.index + 1..],
                   s.location, s.beatNum + 1 + |frags|, s.index + 1);
    assert Step(s, beatValue) == SplitStep(s, beatValue) by {
      assert Reach(s, beatValue).Floor > s.beatNum;
    }
  }

  /** Every fragment code of the split this step makes (if any) is exact. */
  ghost predicate ExactStep(s: Scan, beatValue: nat)
    requires Inv(s, beatValue) && s.index < |s.tickables|
  {
    Reach(s, beatValue) > (s.beatNum + 1) as real ==>
      AllExact(beatValue, Pieces((s.beatNum + 1) as real - s.location,
                                 Reach(s, beatValue) - (s.beatNum + 1) as real))
  }

  /** Every split of the pass from `s` on has exact fragment codes. */
  ghost predicate ExactRun(s: Scan, time: TimeSignature)
    requires Inv(s, time.beatValue)
    decreases Max0(time.numBeats - s.beatNum), |s.tickables| - s.index
  {
    s.beatNum < time.numBeats && s.index < |s.tickables| ==>
      ExactStep(s, time.beatValue) && ExactRun(Step(s, time.beatValue), time)
  }

  /** With exact codes a step keeps the voice's total length. */
  lemma StepConserves(s: Scan, beatValue: nat)
    requires Inv(s, beatValue) && s.index < |s.tickables| && ExactStep(s, beatValue)
    ensures Capacity.WholeNotes(Step(s, beatValue).tickables) == Capacity.WholeNotes(s.tickables)
  {
    if Reach(s, beatValue) > (s.beatNum + 1) as real {
      var n := s.tickables[s.index];
      var first := (s.beatNum + 1) as real - s.location;
      var second := Reach(s, beatValue) - (s.beatNum + 1) as real;
      var frags := SplitResult(s, beatValue);
      assert first + second == Beats(n, beatValue);
      SpliceConserves(s.tickables, s.index, beatValue, first, second);
    } else if Reach(s, beatValue) < (s.beatNum + 1) as real {
      StepWithinBeat(s, beatValue);
    } else {
      StepAligned(s, beatValue);
    }
  }

  /** Putting the fragments of the note at `i`, with exact codes, in its
      place keeps the list's total length. */
  lemma SpliceConserves(ts: seq<Note>, i: nat, beatValue: nat, first: real, second: real)
    requires i < |ts| && AllAtMostWhole(ts) && beatValue > 0
    requires first > 0.0 && second > 0.0 && first + second == Beats(ts[i], beatValue)
    requires AllExact(beatValue, Pieces(first, second))
    ensures AllHaveLength(ts)
    ensures AllHaveLength(ts[..i] + Fragments(ts[i], beatValue, Pieces(first, second)) + ts[i + 1..])
    ensures Capacity.WholeNotes(ts[..i] + Fragments(ts[i], beatValue, Pieces(first, second)) + ts[i + 1..])
            == Capacity.WholeNotes(ts)
  {
    var n := ts[i];
    var frags := Fragments(n, beatValue, Pieces(first, second));
    var a := ts[..i];
    var b := ts[i + 1..];
    AtMostWholeHasLength(ts);
    AtMostWholeHasLength(a);
    AtMostWholeHasLength(b);
    SplitWholeNotes(n, beatValue, first, second);
    assert ts == a + [n] + b;
    SpliceWholeNotes(a, n, frags, b);
  }

  /** The fragments of a split note, with exact codes, are as long as the note. */
  lemma SplitWholeNotes(n: Note, beatValue: nat, first: real, second: real)
    requires beatValue > 0 && HasLength(n) && first > 0.0 && second > 0.0
    requires first + second == Beats(n, beatValue)
    requires AllExact(beatValue, Pieces(first, second))
    ensures AllHaveLength(Fragments(n, beatValue, Pieces(first, second)))
    ensures Capacity.WholeNotes(Fragments(n, beatValue, Pieces(first, second)))
            == 1.0 / n.doubleDuration
  {
    var p := Pieces(first, second);
    assert AllPositive(p) && Total(p) == Beats(n, beatValue) by {
      PiecesShape(first, second);
    }
    FragmentsWholeNotes(n, beatValue, p);
    WholeNoteOfBeats(beatValue, n.doubleDuration, Total(p));
  }

  lemma AtMostWholeHasLength(ts: seq<Note>)
    requires AllAtMostWhole(ts)
    ensures AllHaveLength(ts)
  {
  }

  /** Replacing a note by notes of the same total length keeps the sum. */
  lemma SpliceWholeNotes(a: seq<Note>, n: Note, frags: seq<Note>, b: seq<Note>)
    requires AllHaveLength(a) && HasLength(n) && AllHaveLength(frags) && AllHaveLength(b)
    requires Capacity.WholeNotes(frags) == 1.0 / n.doubleDuration
    ensures AllHaveLength(a + frags + b) && AllHaveLength(a + [n] + b)
    ensures Capacity.WholeNotes(a + frags + b) == Capacity.WholeNotes(a + [n] + b)
  {
    Capacity.WholeNotesConcat(a, frags);
    Capacity.WholeNotesConcat(a + frags, b);
    Capacity.WholeNotesConcat(a, [n]);
    Capacity.WholeNotesConcat(a + [n], b);
    assert [n][..0] == [];
  }

  /** A note of `beatValue / d` beats is 1/d of a whole note. */
  lemma WholeNoteOfBeats(beatValue: nat, d: real, beats: real)
    requires beatValue > 0 && d > 0.0 && beats == beatValue as real / d
    ensures beats / beatValue as real == 1.0 / d
  {
    var b := beatValue as real;
    assert beats * d == b;
  }

  /** Splitting never changes the total length of the voice, provided
      every fragment's code is exact. */
  lemma {:induction false} PassConserves(s: Scan, time: TimeSignature)
    requires Inv(s, time.beatValue) && ExactRun(s, time)
    ensures Capacity.WholeNotes(Pass(s, time).tickables) == Capacity.WholeNotes(s.tickables)
    decreases Max0(time.numBeats - s.beatNum), |s.tickables| - s.index
  {
    if s.beatNum < time.numBeats && s.index < |s.tickables| {
      StepConserves(s, time.beatValue);
      PassConserves(Step(s, time.beatValue), time);
    }
  }

  /** A voice of one-beat notes, scanned from a beat boundary, is never split. */
  lemma {:induction false} OneBeatNotesUnsplit(s: Scan, time: TimeSignature)
    requires Inv(s, time.beatValue)
    requires forall k :: 0 <= k < |s.tickables| ==> s.tickables[k].doubleDuration == time.beatValue as real
    requires s.location == s.beatNum as real
    ensures Pass(s, time).tickables == s.tickables
    decreases Max0(time.numBeats - s.beatNum), |s.tickables| - s.index
  {
    if s.beatNum < time.numBeats && s.index < |s.tickables| {
      var n := s.tickables[s.index];
      assert n.doubleDuration == time.beatValue as real;
      assert Beats(n, time.beatValue) == 1.0;
      StepAligned(s, time.beatValue);
      OneBeatNotesUnsplit(Step(s, time.beatValue), time);
    }
  }

  function Reverse<T>(xs: seq<T>): (r: seq<T>)
    ensures |r| == |xs|
    ensures forall k :: 0 <= k < |xs| ==> r[k] == xs[|xs| - 1 - k]
  {
    if |xs| == 0 then [] else Reverse(xs[1..]) + [xs[0]]
  }

  /** One iteration of the outer loop, written as the source writes it. */
  method Advance(ts: seq<Note>, location: real, beatNum: int, i: nat, beatValue: nat)
    returns (ts': seq<Note>, location': real, beatNum': int, i': nat)
    requires Inv(Scan(ts, location, beatNum, i), beatValue) && i < |ts|
    ensures Scan(ts', location', beatNum', i') == Step(Scan(ts, location, beatNum, i), beatValue)
  {
    ts', location', beatNum', i' := ts, location, beatNum, i;
    var note := ts'[i'];
    var noteBeats := beatValue as real / note.doubleDuration;
    if (location' + noteBeats).Floor > beatNum' {
      beatNum' := beatNum' + 1;
      var second := location' + noteBeats - beatNum' as real;
      var first := noteBeats - second;
      if second != 0.0 {
        ts' := ts'[..i'] + ts'[i' + 1..];
        var notes;
        notes, noteBeats, beatNum' := SplitNote(note, beatValue, noteBeats, first, second, beatNum');
        ts' := SpliceIn(ts', i', notes);
        assert ts' == ts[..i] + notes + ts[i + 1..];
      }
    }
    location' := location' + noteBeats;
    i' := i' + 1;
  }

  /** The inner loop of a split: emit fragments while beats of the note are
      left, cutting `first` beats, then whole beats, then the remainder. */
  method SplitNote(note: Note, beatValue: nat, noteBeats: real, first: real, second: real, beatNum: int)
    returns (notes: seq<Note>, remaining: real, beatNumAfter: int)
    requires first > 0.0 && second > 0.0 && noteBeats == first + second
    ensures notes == Fragments(note, beatValue, Pieces(first, second))
    ensures remaining == 0.0
    ensures beatNumAfter == beatNum + |notes|
  {
    remaining := noteBeats;
    var firstSection := first;
    var secondSection := second;
    notes := [];
    beatNumAfter := beatNum;
    ghost var emitted: seq<real> := [];
    while remaining > 0.0
      invariant InnerInv(note, beatValue, first, second, emitted, notes,
                         remaining, firstSection, secondSection)
      invariant beatNumAfter == beatNum + |emitted|
      decreases |Left(remaining, firstSection, secondSection)|
    {
      ghost var before := |Left(remaining, firstSection, secondSection)|;
      ghost var first' := NextFirst(secondSection);
      ghost var second' := NextSecond(secondSection);
      InnerIteration(note, beatValue, first, second, emitted, notes,
                     remaining, firstSection, secondSection);

      remaining := remaining - firstSection;
      notes := notes + [WithCode(note, Code(beatValue, firstSection))];
      emitted := emitted + [firstSection];
      beatNumAfter := beatNumAfter + 1;
      if secondSection > 1.0 {
        firstSection := 1.0;
        secondSection := secondSection - 1.0;
      } else {
        firstSection := secondSection;
      }
      assert firstSection == first' && secondSection == second';
    }
    LeftDone(firstSection, secondSection);
    assert emitted + [] == emitted;
  }

  /** The section lengths after one iteration of the inner loop: a whole
      beat while more than one beat is left, else the remainder. */
  function NextFirst(secondSection: real): real
  {
    if secondSection > 1.0 then 1.0 else secondSection
  }

  function NextSecond(secondSection: real): real
  {
    if secondSection > 1.0 then secondSection - 1.0 else secondSection
  }

  /** What holds between iterations of the inner loop: `emitted` lengths
      have been cut into `notes`, and `Left` lengths remain. */
  ghost predicate InnerInv(note: Note, beatValue: nat, first: real, second: real,
                           emitted: seq<real>, notes: seq<Note>,
                           remaining: real, firstSection: real, secondSection: real)
  {
    && first > 0.0 && second > 0.0
    && firstSection > 0.0 && secondSection > 0.0
    && (remaining == 0.0 || remaining == firstSection
        || (remaining == firstSection + secondSection && remaining != firstSection))
    && AllPositive(emitted)
    && emitted + Left(remaining, firstSection, secondSection) == Pieces(first, second)
    && notes == Fragments(note, beatValue, emitted)
  }

  /** One iteration of the inner loop keeps its invariant and leaves fewer lengths. */
  lemma InnerIteration(note: Note, beatValue: nat, first: real, second: real,
                       emitted: seq<real>, notes: seq<Note>,
                       remaining: real, firstSection: real, secondSection: real)
    requires InnerInv(note, beatValue, first, second, emitted, notes,
                      remaining, firstSection, secondSection)
    requires remaining > 0.0
    ensures InnerInv(note, beatValue, first, second, emitted + [firstSection],
                     notes + [WithCode(note, Code(beatValue, firstSection))],
                     remaining - firstSection, NextFirst(secondSection), NextSecond(secondSection))
    ensures |Left(remaining - firstSection, NextFirst(secondSection), NextSecond(secondSection))|
            < |Left(remaining, firstSection, secondSection)|
  {
    InnerStep(first, second, emitted, remaining, firstSection, secondSection);
    var left' := Left(remaining - firstSection, NextFirst(secondSection), NextSecond(secondSection));
    PrefixPositive(emitted + [firstSection], left');
    FragmentsSnoc(note, beatValue, emitted, firstSection);
  }

  /** Fragment lengths still to be emitted by the inner loop. */
  ghost function Left(remaining: real, firstSection: real, secondSection: real): seq<real>
    requires firstSection > 0.0 && secondSection > 0.0
  {
    if remaining == 0.0 then []
    else if remaining == firstSection then [firstSection]
    else [firstSection] + Tail(secondSection)
  }

  /** Once no beats are left, no lengths are left. */
  lemma LeftDone(firstSection: real, secondSection: real)
    requires firstSection > 0.0 && secondSection > 0.0
    ensures Left(0.0, firstSection, secondSection) == []
  {
  }

  /** One iteration of the inner loop emits the head of what is left. */
  lemma LeftStep(remaining: real, firstSection: real, secondSection: real)
    requires firstSection > 0.0 && secondSection > 0.0 && remaining > 0.0
    requires remaining == firstSection
          || (remaining == firstSection + secondSection && remaining != firstSection)
    ensures var first' := NextFirst(secondSection);
            var second' := NextSecond(secondSection);
            var remaining' := remaining - firstSection;
            && first' > 0.0 && second' > 0.0
            && (remaining' == 0.0 || remaining' == first'
                || (remaining' == first' + second' && remaining' != first'))
            && Left(remaining, firstSection, secondSection)
               == [firstSection] + Left(remaining', first', second')
  {
    var first' := NextFirst(secondSection);
    var second' := NextSecond(secondSection);
    var remaining' := remaining - firstSection;
    if remaining == firstSection {
      assert remaining' == 0.0;
      assert Left(remaining, firstSection, secondSection) == [firstSection];
      assert Left(remaining', first', second') == [];
    } else if secondSection > 1.0 {
      assert remaining' == first' + second' && remaining' != first';
      assert Tail(secondSection) == [1.0] + Tail(secondSection - 1.0);
      assert Left(remaining', first', second') == Tail(secondSection);
      assert Left(remaining, firstSection, secondSection) == [firstSection] + Tail(secondSection);
    } else {
      assert remaining' == first';
      assert Tail(secondSection) == [secondSection];
      assert Left(remaining', first', second') == Tail(secondSection);
      assert Left(remaining, firstSection, secondSection) == [firstSection] + Tail(secondSection);
    }
  }

  /** The inner loop's invariant survives one iteration, and fewer lengths are left. */
  lemma InnerStep(first: real, second: real, emitted: seq<real>,
                  remaining: real, firstSection: real, secondSection: real)
    requires first > 0.0 && second > 0.0
    requires firstSection > 0.0 && secondSection > 0.0 && remaining > 0.0
    requires remaining == firstSection
          || (remaining == firstSection + secondSection && remaining != firstSection)
    requires AllPositive(emitted)
    requires emitted + Left(remaining, firstSection, secondSection) == Pieces(first, second)
    ensures var first' := NextFirst(secondSection);
            var second' := NextSecond(secondSection);
            var remaining' := remaining - firstSection;
            && first' > 0.0 && second' > 0.0
            && (remaining' == 0.0 || remaining' == first'
                || (remaining' == first' + second' && remaining' != first'))
            && (emitted + [firstSection]) + Left(remaining', first', second') == Pieces(first, second)
            && |Left(remaining', first', second')| < |Left(remaining, firstSection, secondSection)|
  {
    var first' := NextFirst(secondSection);
    var second' := NextSecond(secondSection);
    var remaining' := remaining - firstSection;
    var left' := Left(remaining', first', second');
    LeftStep(remaining, firstSection, secondSection);
    assert (emitted + [firstSection]) + left' == emitted + ([firstSection] + left');
  }

  lemma PrefixPositive(xs: seq<real>, ys: seq<real>)
    requires AllPositive(xs + ys)
    ensures AllPositive(xs)
  {
    forall k | 0 <= k < |xs|
      ensures xs[k] > 0.0
    {
      assert xs[k] == (xs + ys)[k];
    }
  }

  /** Inserting the reversed fragments one at a time at index `i` puts
      them there in their original order. */
  method SpliceIn(ts: seq<Note>, i: nat, notes: seq<Note>) returns (r: seq<Note>)
    requires i <= |ts|
    ensures r == ts[..i] + notes + ts[i..]
  {
    var reversed := Reverse(notes);
    r := ts;
    var k := 0;
    while k < |reversed|
      invariant 0 <= k <= |reversed|
      invariant r == ts[..i] + notes[|notes| - k..] + ts[i..]
    {
      assert notes[|notes| - k - 1..] == [reversed[k]] + notes[|notes| - k..];
      r := r[..i] + [reversed[k]] + r[i..];
      k := k + 1;
    }
  }
}
