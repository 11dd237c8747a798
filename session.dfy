/** Properties of whole runs of the recorder: what a recording session leaves
    in the composite, that an idle recorder leaves it alone, and where repeated
    slit moves end up. */
module Session {
  import opened Wrappers
  import opened Raster
  import opened Capture

  /** Running `es` and then `e` is applying `e` to the state after `es`. */
  lemma {:induction false} RunSnoc(s: State, es: seq<Event>, e: Event, w: nat, h: nat)
    requires Inv(s, w, h) && FramesFit(es, w, h) && Fits(e, w, h)
    ensures FramesFit(es + [e], w, h)
    ensures Run(s, es + [e], w, h) == Apply(Run(s, es, w, h), e, w, h)
    decreases |es|
  {
    var es' := es + [e];
    assert forall i :: 0 <= i < |es'| ==> es'[i] == if i < |es| then es[i] else e;
    if es != [] {
      assert es'[0] == es[0] && es'[1..] == es[1..] + [e];
      RunSnoc(Apply(s, es[0], w, h), es[1..], e, w, h);
    }
  }

  /** The positions in `es` of the ticks that delivered a frame, in order. */
  function TickIndices(es: seq<Event>): (js: seq<nat>)
    ensures forall i :: 0 <= i < |js| ==> js[i] < |es| && DeliversFrame(es[js[i]])
    decreases |es|
  {
    if es == [] then []
    else
      var js := TickIndices(es[..|es| - 1]);
      if DeliversFrame(es[|es| - 1]) then js + [|es| - 1] else js
  }

  lemma TickIndicesSnoc(front: seq<Event>, e: Event)
    ensures TickIndices(front + [e]) == if DeliversFrame(e) then TickIndices(front) + [|front|] else TickIndices(front)
  {
    assert (front + [e])[..|front|] == front;
  }

  /** `TickIndices` lists every delivered frame's position exactly once, in
      increasing order, so its `i`-th entry is the `i`-th delivered frame. */
  lemma {:induction false} TickIndicesExact(es: seq<Event>)
    ensures forall i, k :: 0 <= i < k < |TickIndices(es)| ==> TickIndices(es)[i] < TickIndices(es)[k]
    ensures forall j :: 0 <= j < |es| && DeliversFrame(es[j]) ==> j in TickIndices(es)
    decreases |es|
  {
    if es != [] {
      var front := es[..|es| - 1];
      assert es == front + [es[|es| - 1]];
      TickIndicesExact(front);
      TickIndicesSnoc(front, es[|es| - 1]);
      assert forall j :: 0 <= j < |front| ==> es[j] == front[j];
    }
  }

  /** Where the slit stands just before the `j`-th event of `es`. */
  function SlitBefore(s: State, es: seq<Event>, j: nat, w: nat, h: nat): (x: nat)
    requires Inv(s, w, h) && FramesFit(es, w, h) && j <= |es|
    ensures x < w
  {
    assert FramesFit(es[..j], w, h) by {
      assert forall i :: 0 <= i < j ==> es[..j][i] == es[i];
    }
    Run(s, es[..j], w, h).slitX
  }

  /** Events appended after position `j` do not change where the slit stood
      before it. */
  lemma SlitBeforeSnoc(s: State, front: seq<Event>, e: Event, j: nat, w: nat, h: nat)
    requires Inv(s, w, h) && FramesFit(front, w, h) && Fits(e, w, h) && j <= |front|
    ensures FramesFit(front + [e], w, h)
    ensures SlitBefore(s, front + [e], j, w, h) == SlitBefore(s, front, j, w, h)
  {
    var es := front + [e];
    assert forall i :: 0 <= i < |front| ==> es[i] == front[i];
    assert es[|front|] == e;
    assert es[..j] == front[..j];
  }

  /** No event of `es` starts or stops a capture. */
  predicate WithinSession(es: seq<Event>) {
    forall i :: 0 <= i < |es| ==> !es[i].Start? && !es[i].Stop?
  }

  /** The columns a slit-scan of the run `es` from `s` should record, left to
      right: for the `i`-th frame delivered, its column under the slit as the
      slit stood at that tick. */
  function ArrivalColumns(s: State, es: seq<Event>, w: nat, h: nat): (cs: seq<Column>)
    requires Inv(s, w, h) && FramesFit(es, w, h)
    ensures |cs| == |TickIndices(es)|
  {
    var js := TickIndices(es);
    seq(|js|, i requires 0 <= i < |js| => es[js[i]].read.value.ColumnAt(SlitBefore(s, es, js[i], w, h)))
  }

  /** One more event extends the expected columns by that event's frame's
      column under the current slit, if it delivered a frame. */
  lemma ArrivalColumnsSnoc(s: State, front: seq<Event>, e: Event, w: nat, h: nat)
    requires Inv(s, w, h) && FramesFit(front, w, h) && Fits(e, w, h)
    ensures FramesFit(front + [e], w, h)
    ensures ArrivalColumns(s, front + [e], w, h)
              == if DeliversFrame(e) then ArrivalColumns(s, front, w, h) + [e.read.value.ColumnAt(Run(s, front, w, h).slitX)]
                 else ArrivalColumns(s, front, w, h)
  {
    var es := front + [e];
    SlitBeforeSnoc(s, front, e, 0, w, h);
    TickIndicesSnoc(front, e);
    var js := TickIndices(front);
    var old_, new_ := ArrivalColumns(s, front, w, h), ArrivalColumns(s, es, w, h);
    forall i | 0 <= i < |js|
      ensures new_[i] == old_[i]
    {
      SlitBeforeSnoc(s, front, e, js[i], w, h);
      assert es[js[i]] == front[js[i]];
    }
    if DeliversFrame(e) {
      assert es[..|front|] == front;
      assert es[|front|] == e;
      assert new_[|js|] == e.read.value.ColumnAt(Run(s, front, w, h).slitX);
    }
  }

  /** Within a capture, a button press or a tick keeps recording on and adds
      the slit column of a delivered frame to the composite. */
  lemma StepWithinSession(s: State, e: Event, w: nat, h: nat)
    requires Inv(s, w, h) && Fits(e, w, h) && s.isRecording && !e.Start? && !e.Stop?
    ensures Apply(s, e, w, h).isRecording
    ensures Strips(Apply(s, e, w, h).composite)
              == if DeliversFrame(e) then Strips(s.composite) + [e.read.value.ColumnAt(s.slitX)] else Strips(s.composite)
  {
  }

  /** After "Start New Capture" and any mixture of slit moves and ticks, the
      composite holds exactly the expected slit-scan columns: one per frame
      delivered, and its `i`-th column is the one under the slit of the `i`-th
      frame, with the slit where it stood at that tick. Time maps to
      horizontal position. */
  lemma {:induction false} RecordingKeepsArrivalOrder(s: State, es: seq<Event>, w: nat, h: nat)
    requires Inv(s, w, h) && FramesFit(es, w, h) && WithinSession(es)
    ensures Run(StartCapture(s), es, w, h).isRecording
    ensures Strips(Run(StartCapture(s), es, w, h).composite) == ArrivalColumns(StartCapture(s), es, w, h)
    decreases |es|
  {
    var s0 := StartCapture(s);
    if es != [] {
      var n := |es| - 1;
      var front, e := es[..n], es[n];
      assert es == front + [e];
      assert FramesFit(front, w, h) && WithinSession(front) && Fits(e, w, h) && !e.Start? && !e.Stop? by {
        assert forall i :: 0 <= i < n ==> front[i] == es[i];
      }
      RecordingKeepsArrivalOrder(s, front, w, h);
      RunSnoc(s0, front, e, w, h);
      StepWithinSession(Run(s0, front, w, h), e, w, h);
      ArrivalColumnsSnoc(s0, front, e, w, h);
    }
  }

  /** While not recording, nothing short of "Start New Capture" touches the
      composite: slit moves, ticks and further stops leave it as it is. */
  lemma {:induction false} IdleKeepsComposite(s: State, es: seq<Event>, w: nat, h: nat)
    requires Inv(s, w, h) && FramesFit(es, w, h) && !s.isRecording
    requires forall i :: 0 <= i < |es| ==> !es[i].Start?
    ensures Run(s, es, w, h).composite == s.composite
    ensures !Run(s, es, w, h).isRecording
    decreases |es|
  {
    if es != [] {
      IdleKeepsComposite(Apply(s, es[0], w, h), es[1..], w, h);
    }
  }

  /** `n` copies of the same event. */
  function Repeated(e: Event, n: nat): (es: seq<Event>)
    ensures |es| == n && forall i :: 0 <= i < n ==> es[i] == e
  {
    seq(n, _ => e)
  }

  /** Pressing "Left" `n` times moves the slit `10 * n` columns left, stopping
      at column 0 and staying there. */
  lemma {:induction false} RepeatedLeftMoves(s: State, n: nat, w: nat, h: nat)
    requires Inv(s, w, h)
    ensures Run(s, Repeated(MoveLeft, n), w, h).slitX
              == if s.slitX - SlitStep * n > 0 then s.slitX - SlitStep * n else 0
    ensures Run(s, Repeated(MoveLeft, n), w, h).composite == s.composite
    decreases n
  {
    if n > 0 {
      var es := Repeated(MoveLeft, n);
      assert es[0] == MoveLeft && es[1..] == Repeated(MoveLeft, n - 1);
      RepeatedLeftMoves(MoveSlitLeft(s), n - 1, w, h);
    }
  }

  /** Pressing "Right" `n` times moves the slit `10 * n` columns right,
      stopping at the last column `w - 1` and staying there. */
  lemma {:induction false} RepeatedRightMoves(s: State, n: nat, w: nat, h: nat)
    requires Inv(s, w, h)
    ensures Run(s, Repeated(MoveRight, n), w, h).slitX
              == if w - 1 < s.slitX + SlitStep * n then w - 1 else s.slitX + SlitStep * n
    ensures Run(s, Repeated(MoveRight, n), w, h).composite == s.composite
    decreases n
  {
    if n > 0 {
      var es := Repeated(MoveRight, n);
      assert es[0] == MoveRight && es[1..] == Repeated(MoveRight, n - 1);
      RepeatedRightMoves(MoveSlitRight(s, w), n - 1, w, h);
    }
  }
}
