/** The capture state of the slit-scan recorder as values: the slit column, the
    growing composite and the recording flag, with one function per operation
    of the recorder and a replay of a whole run of user actions and frame
    ticks. The camera's frame width `w` and height `h` are fixed parameters
    (the width is what the camera reports; the height is the frames'). */
module Capture {
  import opened Wrappers
  import opened Raster

  /** How far one press of "Left" or "Right" moves the slit. */
  const SlitStep: int := 10

  /** Where the slit starts, in the middle of the requested 1920-wide frame. */
  const InitialSlit: int := 960

  datatype State = State(slitX: int, composite: Option<Image>, isRecording: bool)

  /** The composite seen as its columns; the absent composite has none. */
  function Strips(c: Option<Image>): seq<Column>
    requires c.Some? ==> c.value.Valid()
  {
    if c.None? then [] else c.value.Columns()
  }

  /** A frame as the camera delivers it: `w` columns of `h` pixels. */
  predicate IsFrame(f: Image, w: nat, h: nat) {
    f.Valid() && f.width == w && f.height == h
  }

  /** What every reachable state satisfies: the slit is a column of the frame,
      and a present composite is `h` high and at least one column wide. */
  predicate Inv(s: State, w: nat, h: nat) {
    && 0 <= s.slitX < w
    && (s.composite.Some? ==>
          s.composite.value.Valid() && s.composite.value.height == h && s.composite.value.width > 0)
  }

  /** The state the recorder starts in; the initial slit is a column of the
      frame only when the camera is wider than it. */
  function Init(w: nat, h: nat): (s: State)
    requires w > InitialSlit
    ensures Inv(s, w, h) && s.slitX == InitialSlit
    ensures Strips(s.composite) == [] && !s.isRecording
  {
    State(InitialSlit, None, false)
  }

  /** "Left": the slit moves ten columns left, but never below column 0. */
  function MoveSlitLeft(s: State): (r: State)
    ensures r.slitX >= 0
    ensures s.slitX >= SlitStep ==> r.slitX == s.slitX - SlitStep
    ensures s.slitX < SlitStep ==> r.slitX == 0
    ensures s.slitX >= 0 ==> r.slitX <= s.slitX
    ensures s.slitX == 0 ==> r == s
    ensures r.composite == s.composite && r.isRecording == s.isRecording
  {
    s.(slitX := if s.slitX - SlitStep > 0 then s.slitX - SlitStep else 0)
  }

  /** "Right": the slit moves ten columns right, but never past the last
      column `w - 1` of the frame. */
  function MoveSlitRight(s: State, w: nat): (r: State)
    ensures r.slitX <= w - 1
    ensures s.slitX + SlitStep <= w - 1 ==> r.slitX == s.slitX + SlitStep
    ensures s.slitX + SlitStep > w - 1 ==> r.slitX == w - 1
    ensures s.slitX <= w - 1 ==> r.slitX >= s.slitX
    ensures s.slitX == w - 1 ==> r == s
    ensures r.composite == s.composite && r.isRecording == s.isRecording
  {
    s.(slitX := if w - 1 < s.slitX + SlitStep then w - 1 else s.slitX + SlitStep)
  }

  /** "Start New Capture": whatever came before, the composite is discarded and
      recording is on. There is no guard against starting twice. */
  function StartCapture(s: State): (r: State)
    ensures r.composite == None && Strips(r.composite) == []
    ensures r.isRecording && r.slitX == s.slitX
  {
    s.(composite := None, isRecording := true)
  }

  /** "Save Capture": recording is off and the composite is kept. The second
      component is the image handed to the file writer, present exactly when
      some column was recorded, and then the composite itself. */
  function StopCapture(s: State, w: nat, h: nat): (r: (State, Option<Image>))
    requires Inv(s, w, h)
    ensures !r.0.isRecording && r.0.slitX == s.slitX && r.0.composite == s.composite
    ensures r.1.Some? <==> |Strips(s.composite)| > 0
    ensures r.1.Some? ==> r.1 == s.composite
  {
    (s.(isRecording := false), if s.composite.Some? then s.composite else None)
  }

  /** One tick of the capture loop. `read` is `None` when the camera read
      failed; otherwise it is the frame as the loop holds it when it slices it
      (already carrying the slit marker). While recording, the column under
      the slit is stacked onto the right of the composite. */
  function UpdateFrame(s: State, read: Option<Image>, w: nat, h: nat): (r: State)
    requires Inv(s, w, h)
    requires read.Some? ==> IsFrame(read.value, w, h)
    ensures Inv(r, w, h)
    ensures r.slitX == s.slitX && r.isRecording == s.isRecording
    ensures read.None? || !s.isRecording ==> r == s
    ensures read.Some? && s.isRecording ==>
              Strips(r.composite) == Strips(s.composite) + [read.value.ColumnAt(s.slitX)]
  {
    match read
    case None => s
    case Some(frame) =>
      if !s.isRecording then s
      else
        var slice := VerticalSlice(frame, s.slitX);
        if s.composite.None? then
          s.(composite := Some(slice))
        else
          HstackAppendsColumns(s.composite.value, slice);
          s.(composite := Some(Hstack(s.composite.value, slice)))
  }

  /** What can happen to the recorder: a button press or a camera tick. */
  datatype Event = MoveLeft | MoveRight | Start | Stop | Tick(read: Option<Image>)

  /** A tick's frame, if any, has the camera's shape. */
  predicate Fits(e: Event, w: nat, h: nat) {
    e.Tick? && e.read.Some? ==> IsFrame(e.read.value, w, h)
  }

  /** Every frame in the run has the camera's shape. */
  predicate FramesFit(es: seq<Event>, w: nat, h: nat) {
    forall i :: 0 <= i < |es| ==> Fits(es[i], w, h)
  }

  /** A tick whose camera read succeeded, whether or not a capture is running. */
  predicate DeliversFrame(e: Event) {
    e.Tick? && e.read.Some?
  }

  function Apply(s: State, e: Event, w: nat, h: nat): (r: State)
    requires Inv(s, w, h) && Fits(e, w, h)
    ensures Inv(r, w, h)
  {
    match e
    case MoveLeft => MoveSlitLeft(s)
    case MoveRight => MoveSlitRight(s, w)
    case Start => StartCapture(s)
    case Stop => StopCapture(s, w, h).0
    case Tick(read) => UpdateFrame(s, read, w, h)
  }

  /** The state after the events of `es`, one after the other. */
  function Run(s: State, es: seq<Event>, w: nat, h: nat): (r: State)
    requires Inv(s, w, h) && FramesFit(es, w, h)
    ensures Inv(r, w, h)
    decreases |es|
  {
    if es == [] then s
    else
      Run(Apply(s, es[0], w, h), es[1..], w, h)
  }
}
