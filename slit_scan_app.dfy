/** The recorder object itself: the three fields the program updates in place,
    and one method per control and per camera tick. Each method is proved
    against the matching function of module Capture, so the run-level
    properties of module Session speak about these methods too. */
module App {
  import opened Wrappers
  import opened Raster
  import Capture

  class SlitScanApp {
    /** The frame width the camera reports and the frames' height. */
    const frameWidth: nat
    const frameHeight: nat

    var slitX: int
    var composite: Option<Image>
    var isRecording: bool

    /** Frames recorded since the last "Start New Capture". */
    ghost var recordedTicks: nat

    function Snapshot(): Capture.State
      reads this
    {
      Capture.State(slitX, composite, isRecording)
    }

    ghost predicate Valid()
      reads this
    {
      && Capture.Inv(Snapshot(), frameWidth, frameHeight)
      && |Capture.Strips(composite)| == recordedTicks
    }

    /** Opening the recorder on a camera that reports `width` columns. The
        slit starts at column 960, which lies in the frame only when the camera
        is wider than that; 1920 is only what the program asks the camera for. */
    constructor (width: nat, height: nat)
      requires width > Capture.InitialSlit
      ensures Valid() && frameWidth == width && frameHeight == height
      ensures Snapshot() == Capture.Init(width, height)
      ensures slitX == Capture.InitialSlit && composite == None && !isRecording
      ensures recordedTicks == 0
    {
      frameWidth, frameHeight := width, height;
      slitX := Capture.InitialSlit;
      composite := None;
      isRecording := false;
      recordedTicks := 0;
    }

    method MoveSlitLeft()
      requires Valid()
      modifies this
      ensures Valid() && Snapshot() == Capture.MoveSlitLeft(old(Snapshot()))
      ensures old(slitX) >= Capture.SlitStep ==> slitX == old(slitX) - Capture.SlitStep
      ensures old(slitX) < Capture.SlitStep ==> slitX == 0
      ensures composite == old(composite) && isRecording == old(isRecording)
      ensures recordedTicks == old(recordedTicks)
    {
      slitX := if slitX - Capture.SlitStep > 0 then slitX - Capture.SlitStep else 0;
    }

    method MoveSlitRight()
      requires Valid()
      modifies this
      ensures Valid() && Snapshot() == Capture.MoveSlitRight(old(Snapshot()), frameWidth)
      ensures old(slitX) + Capture.SlitStep <= frameWidth - 1 ==> slitX == old(slitX) + Capture.SlitStep
      ensures old(slitX) + Capture.SlitStep > frameWidth - 1 ==> slitX == frameWidth - 1
      ensures composite == old(composite) && isRecording == old(isRecording)
      ensures recordedTicks == old(recordedTicks)
    {
      slitX := if frameWidth - 1 < slitX + Capture.SlitStep then frameWidth - 1 else slitX + Capture.SlitStep;
    }

    /** Resets unconditionally, also when a capture is already running. */
    method StartCapture()
      requires Valid()
      modifies this
      ensures Valid() && Snapshot() == Capture.StartCapture(old(Snapshot()))
      ensures composite == None && isRecording && slitX == old(slitX)
      ensures recordedTicks == 0
    {
      composite := None;
      isRecording := true;
      recordedTicks := 0;
    }

    /** Ends the capture; `saved` is the image handed to the file writer, if
        any column was recorded. */
    method StopCapture() returns (saved: Option<Image>)
      requires Valid()
      modifies this
      ensures Valid() && (Snapshot(), saved) == Capture.StopCapture(old(Snapshot()), frameWidth, frameHeight)
      ensures !isRecording && composite == old(composite) && slitX == old(slitX)
      ensures saved.Some? <==> recordedTicks > 0
      ensures saved.Some? ==> saved == composite
      ensures recordedTicks == old(recordedTicks)
    {
      isRecording := false;
      saved := None;
      if composite.Some? {
        saved := composite;
      }
    }

    /** One tick of the capture loop; `read` is `None` when the camera read
        failed, and otherwise the frame as the loop slices it. */
    method UpdateFrame(read: Option<Image>)
      requires Valid()
      requires read.Some? ==> Capture.IsFrame(read.value, frameWidth, frameHeight)
      modifies this
      ensures Valid() && Snapshot() == Capture.UpdateFrame(old(Snapshot()), read, frameWidth, frameHeight)
      ensures slitX == old(slitX) && isRecording == old(isRecording)
      ensures read.None? || !old(isRecording) ==>
                composite == old(composite) && recordedTicks == old(recordedTicks)
      ensures read.Some? && old(isRecording) ==>
                && Capture.Strips(composite) == old(Capture.Strips(composite)) + [read.value.ColumnAt(old(slitX))]
                && recordedTicks == old(recordedTicks) + 1
    {
      if read.Some? {
        var frame := read.value;
        if isRecording {
          var slice := VerticalSlice(frame, slitX);
          if composite.None? {
            composite := Some(slice);
          } else {
            HstackAppendsColumns(composite.value, slice);
            composite := Some(Hstack(composite.value, slice));
          }
          recordedTicks := recordedTicks + 1;
        }
      }
    }
  }

  /** Two captures in a row: the second save holds only the second capture's
      column, because starting again discarded the first composite. A failed
      read in between records nothing. */
  method TwoCaptures(f1: Image, f2: Image, f3: Image, w: nat, h: nat)
    returns (first: Option<Image>, second: Option<Image>)
    requires w > Capture.InitialSlit
    requires Capture.IsFrame(f1, w, h) && Capture.IsFrame(f2, w, h) && Capture.IsFrame(f3, w, h)
    ensures first.Some? && first.value.Valid() && first.value.height == h
    ensures first.value.Columns() == [f1.ColumnAt(Capture.InitialSlit), f2.ColumnAt(Capture.InitialSlit)]
    ensures second.Some? && second.value.Valid() && second.value.height == h
    ensures second.value.Columns() == [f3.ColumnAt(Capture.InitialSlit)]
  {
    var app := new SlitScanApp(w, h);
    app.StartCapture();
    app.UpdateFrame(Some(f1));
    app.UpdateFrame(None);
    app.UpdateFrame(Some(f2));
    first := app.StopCapture();
    app.StartCapture();
    app.UpdateFrame(Some(f3));
    second := app.StopCapture();
  }

  /** A camera frame of one colour `p`, as the slicer sees it. The slit
      marker is drawn into the frame before slicing: its vertical edges paint
      columns beside the slit in every row, and its top and bottom edges may
      paint the slit column's top and bottom `band` rows. So only the slit
      column, between those bands, is known to be `p`. */
  predicate SolidBetweenBands(f: Image, p: Pixel, band: nat)
    requires f.Valid() && f.width > Capture.InitialSlit
  {
    forall y :: band <= y < f.height - band ==> f.rows[y][Capture.InitialSlit] == p
  }

  /** The finish-line picture of three solid camera frames, red, green and
      blue, recorded on a 1920-wide camera with the slit at its start
      position. The saved image is three columns wide and `h` high. Outside
      the top and bottom `band` rows, which the marker may have painted, its
      columns are red, green and blue from left to right. */
  method ThreeColourCapture(h: nat, band: nat, red: Image, green: Image, blue: Image)
    returns (saved: Option<Image>)
    requires Capture.IsFrame(red, 1920, h) && SolidBetweenBands(red, Bgr(0, 0, 255), band)
    requires Capture.IsFrame(green, 1920, h) && SolidBetweenBands(green, Bgr(0, 255, 0), band)
    requires Capture.IsFrame(blue, 1920, h) && SolidBetweenBands(blue, Bgr(255, 0, 0), band)
    ensures saved.Some? && saved.value.Valid() && saved.value.height == h && saved.value.width == 3
    ensures forall y :: band <= y < h - band ==>
              && saved.value.ColumnAt(0)[y] == Bgr(0, 0, 255)
              && saved.value.ColumnAt(1)[y] == Bgr(0, 255, 0)
              && saved.value.ColumnAt(2)[y] == Bgr(255, 0, 0)
  {
    var app := new SlitScanApp(1920, h);
    app.StartCapture();
    app.UpdateFrame(Some(red));
    app.UpdateFrame(Some(green));
    app.UpdateFrame(Some(blue));
    saved := app.StopCapture();
    assert saved.value.Columns() == [red.ColumnAt(960), green.ColumnAt(960), blue.ColumnAt(960)];
  }
}
