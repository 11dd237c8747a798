# Slit-scan finish-line recorder: capture state

This project models the capture core of `SlitScanApp` in `main2.py`. The
recorder samples one pixel column of each camera frame, at a slit position
the user moves left and right. While a capture runs, it appends that column
on the right of a growing composite image. Stopping the capture hands the
composite to the file writer.

The model has four layers:

- `raster.dfy` (module `Raster`) models images as OpenCV holds them: numpy
  arrays of shape `(height, width, 3)`, stored as rows of blue-green-red
  pixels. It also has the two array operations the loop uses: the slice
  `frame[:, x:x+1]` (`VerticalSlice`) and `np.hstack` (`Hstack`). A proved
  lemma, `HstackAppendsColumns`, shows that stacking row by row amounts to
  appending columns.
- `capture.dfy` (module `Capture`) holds the three fields `slit_x`,
  `composite` and `is_recording` as a value, `State`. It has one function per
  operation: `MoveSlitLeft`, `MoveSlitRight`, `StartCapture`, `StopCapture`
  and the recording branch of `update_frame` (`UpdateFrame`). `Run` replays a
  sequence of button presses and ticks. As in the program, `composite` is
  `None` until the first column arrives.
- `session.dfy` (module `Session`) proves properties of whole runs:
  - After a start, the composite holds one column per delivered frame, in
    arrival order.
  - An idle recorder leaves the composite alone.
  - Repeated slit moves stop at the frame's edges.
- `slit_scan_app.dfy` (module `App`) models the recorder object itself.
  - Class `SlitScanApp` has the fields the program updates in place.
  - A ghost count, `recordedTicks`, counts the frames recorded since the last
    start.
  - Each method is proved against the matching `Capture` function.
  - Two client methods play through the end-to-end scenarios on the object:
    two captures in a row, and three solid-coloured camera frames, whose saved columns are pinned down at the slit outside the top and bottom rows the slit marker may have painted.

The camera is a fixed input, not something the model runs:
- The frame width `w` is the width the camera reports.
- The frame height `h` is the height of every frame it delivers.
- A tick takes an `Option<Image>`. `None` stands for a failed read.

The program starts the slit at column 960. It asks the camera for 1920 columns
but does not check what it gets. The constructor therefore requires a camera
wider than 960 columns.

The program guards neither start nor stop; the model follows the methods, not
the buttons:

- `StartCapture` resets the composite whatever the prior state. Only the
  disabled button stops a second start.
- `StopCapture` on an idle recorder that still holds a composite asks for it
  to be saved again.

The marker is drawn into the frame in place (`main2.py:155`) before the
column is cut out (`main2.py:167`), so the recorded column comes from the
decorated frame. The model treats the frame handed to `UpdateFrame` as the
frame the slicer sees, and never claims the column equals the raw camera
pixels. The marker's top and bottom edges cross the slit column, so in the
program the top and bottom rows of recorded columns are likely
marker-coloured. This pixel-level effect is not computed here.

## Model

| member | source | states |
|---|---|---|
| `Raster.VerticalSlice` | main2.py:167 | the slice is `h` x 1 and its only column is column `x` of the frame |
| `Raster.Hstack` | main2.py:168-169 | stacking two images of equal height keeps the height and adds the widths |
| `Raster.HstackAppendsColumns` | main2.py:168-169 | seen column by column, `np.hstack` keeps the left image's columns in place and puts the right image's columns after them |
| `Capture.Init` | main2.py:37-39 | the slit starts at 960, inside the frame when the camera is wider than 960; no composite and not recording |
| `Capture.MoveSlitLeft` | main2.py:127-128 | the slit never goes below 0; it moves left by exactly 10 when at or past column 10, otherwise it goes to 0; it never moves right; at 0 nothing changes; composite and flag untouched |
| `Capture.MoveSlitRight` | main2.py:130-131 | the slit never exceeds `w - 1`; it moves right by exactly 10 when that stays within the frame, otherwise it goes to `w - 1`; it never moves left from inside the frame; at `w - 1` nothing changes; composite and flag untouched |
| `Capture.StartCapture` | main2.py:133-135 | whatever the prior state, the composite is absent (no columns) and recording is on; the slit stays |
| `Capture.StopCapture` | main2.py:140-146 | recording is off; slit and composite are kept; a save is requested exactly when the composite has a column, and then with that exact composite |
| `Capture.UpdateFrame` | main2.py:148-169 | a failed read changes nothing; a tick while idle changes nothing; a tick while recording appends column `slit_x` of the frame as the new rightmost column, earlier columns unchanged, height still `h`; slit and flag never change; the state invariant is kept |
| `Capture.Apply` | main2.py:127-169 | every button press and tick keeps the slit inside `[0, w - 1]` and the composite `h` high and non-empty when present |
| `Capture.Run` | main2.py:127-169 | the same invariant holds after any sequence of presses and ticks |
| `Session.RecordingKeepsArrivalOrder` | main2.py:133-169 | after a start and any mix of moves and ticks, recording is still on and the composite's columns equal `ArrivalColumns`: one per delivered frame, column `i` being the `i`-th delivered frame's column under the slit as it stood at that tick |
| `Session.TickIndicesExact` | main2.py:166-169 | the positions of the delivered frames are listed in increasing order and none is missed, so entry `i` is the `i`-th delivered frame |
| `Session.IdleKeepsComposite` | main2.py:140-169 | while not recording, moves, ticks and further stops leave the composite unchanged and recording off |
| `Session.RepeatedLeftMoves` | main2.py:127-128 | `n` presses of Left put the slit at `max(0, slit_x - 10n)`; once at 0 it stays there |
| `Session.RepeatedRightMoves` | main2.py:130-131 | `n` presses of Right put the slit at `min(w - 1, slit_x + 10n)`; once at `w - 1` it stays there |
| `App.SlitScanApp.constructor` | main2.py:33-39 | requires a camera wider than the initial slit; slit 960, composite `None`, not recording, no recorded ticks |
| `App.SlitScanApp.MoveSlitLeft` | main2.py:127-128 | updates `slitX` as `Capture.MoveSlitLeft`; the other fields are unchanged |
| `App.SlitScanApp.MoveSlitRight` | main2.py:130-131 | updates `slitX` as `Capture.MoveSlitRight` against the reported width; the other fields are unchanged |
| `App.SlitScanApp.StartCapture` | main2.py:133-135 | unconditionally empties the composite, turns recording on and zeroes the recorded-tick count |
| `App.SlitScanApp.StopCapture` | main2.py:140-146 | turns recording off, keeps the composite, returns it for saving exactly when at least one tick was recorded |
| `App.SlitScanApp.UpdateFrame` | main2.py:148-169 | a failed read or an idle tick changes nothing; a recording tick appends the slit column on the right and counts one more recorded tick |
| `App.TwoCaptures` | main2.py:133-169 | start, two frames with a failed read between, stop, start, one frame, stop: the first save has the two slit columns and the second save has only the third frame's column |
| `App.ThreeColourCapture` | main2.py:133-169 | on a 1920-wide camera, red, green and blue camera frames (required to be that colour only in the slit column, outside the top and bottom rows the marker may have painted) recorded at the initial slit save as a three-column image, red, green and blue from left to right on those rows |

## Left out

- The tkinter interface is UI only and is not modelled: window, buttons, enabling and disabling them, labels, `messagebox`, the camera-selection dialog.
- Camera enumeration, opening, `set`, `get`, `read` and `release` are device I/O. A read is an `Option<Image>` input, and the reported width and the frame height are fixed parameters.
- The model requires every delivered frame to have the reported width and the fixed height. What numpy would do with a frame of another size is not modelled.
- The pixel effect of `cv2.rectangle` is not modelled. It is a foreign library call, so the frame given to a tick is taken as already decorated.
- The live and composite previews are not modelled: `cv2.resize`, the BGR-to-RGB conversion, the PIL and Tk images. They only drive the display.
- The 0.5-second preview throttle and `last_preview_update` are not modelled. They depend on wall-clock floats and only drive the display.
- `start_time` is set at start but never read, so it is not modelled.
- `cv2.imwrite` is a foreign call. The save is modelled as the image `StopCapture` returns.
- Re-arming with `root.after`, the main loop and its exception handler are not modelled. Each tick or button press is one method call or one event of `Run`.
- A camera 960 columns wide or narrower is not modelled: the constructor requires a wider one. On such a camera the program would slice `frame[:, 960:961]` to an empty `(h, 0, 3)` array, so, unless the slit is first moved inside the frame (one Right press, which clamps it to `w - 1` at `main2.py:131`, or enough Left presses at `main2.py:128`), the composite becomes an empty array rather than `None`. The preview's `cv2.resize` at `main2.py:173` would then raise before `root.after` at `main2.py:181`, which ends the tick loop.
