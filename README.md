# Bat on a Bezier path: a verified model of the demo's core

The demo draws a bat that flies along a cubic Bezier curve. Its four control points can be edited with the mouse. It also loads RGBA textures from PNG files.

This project models the three parts of `main.cpp` that are precise enough to prove things about:

- **`bezier`**: a cubic Bezier curve, evaluated at `t` axis by axis. The sawtooth that turns the clock into `t` is also modelled (`curve.dfy`, module `Curve`).
- **The row flip in `loadTexture`**: the decoder delivers the image upside down. A loop swaps row `i` with the `i`-th row from the end for every `i < height / 2`, using three `memcpy`s through a one-row scratch buffer (`image_flip.dfy`, module `ImageFlip`).
- **The control-point editor** (`control_points.dfy`, module `ControlPoints`):
  - one mouse-move listener and one mouse-button listener;
  - the four control points;
  - the last cursor `position`;
  - the selected point, which the source holds as a pointer into the vector;
  - the uploads of the points to the line mesh's vertex buffer.

Points are exact reals (`geometry.dfy`, module `Geometry`). The source's `Vec2::norm()` is a square root, so proximity and motion are tested on squared norms. The squared tests agree with the source's tests for every non-negative norm:

- the pick test `norm() < radius`, by `Geometry.NormBelowRadius` and `ControlPoints.WithinIsNormBelowRadius`;
- the move test `norm() > 0`, by `Geometry.MoveTestAgrees`.

The imperative code is modelled imperatively:

- **Row flip.** `ImageFlip.FlipRows` is a `for` loop over an `array<byte>`. `ImageFlip.CopyBytes` stands in for `memcpy`. The loop is proved against `Flipped`, a function on sequences that says what the first `i` passes have done.
- **Listeners.** `ControlPoints.ControlPolygon` is a class whose fields the two listener methods update. They are proved equal to the pure transitions `Move` and `Button` on an `Editor` value.
- **Hit test.** The `for`/`break` search is `ControlPoints.HitTest`, a `while` loop proved against `FirstWithin`.

Facts about the source's arithmetic that the model follows:

- **Bezier weights.** Both axes of `bezier` use the standard Bernstein weights `(1-t)^3, 3(1-t)^2 t, 3(1-t) t^2, t^3`. `Curve.BernsteinSum` and `Curve.BezierReversed` prove the weights sum to one and the curve is symmetric.
- **Pick radius.** The pick radius is `POINTSIZE / min(width, height)` = 10/720 (`ControlPoints.PickRadiusValue`).
- **Sawtooth.** `(int)` truncates toward zero, so `x - (int)x` equals `x - floor(x)` only for `x >= 0`. The clock never goes below zero.

## Model

| member | source | states |
|---|---|---|
| Geometry.SquaredNorm | main.cpp:143 | the squared norm is non-negative, and positive exactly when the vector is not the origin |
| Geometry.NormBelowRadius | main.cpp:158 | for a non-negative norm and a positive radius, `n < r` holds exactly when `n*n < r*r` |
| Geometry.NormPositiveIffDistinct | main.cpp:143 | `(p - q)` has positive norm exactly when `p != q`, so the move test `norm() > 0` means the cursor moved |
| Curve.BezierAxis | main.cpp:64-65 | one coordinate of the curve: at `t = 0` it is the first control value, at `t = 1` the last |
| Curve.Bezier | main.cpp:62-67 | `bezier` evaluated on both axes; for `t` in [0, 1] the point lies in the bounding box of the four control points |
| Curve.BezierStart | main.cpp:62-67 | at `t = 0` the curve is at `p0` |
| Curve.BezierEnd | main.cpp:62-67 | at `t = 1` the curve is at `p3` |
| Curve.BernsteinSum | main.cpp:64-65 | the four coefficients of the formula sum to 1 for every `t` |
| Curve.BezierConstant | main.cpp:62-67 | with all four control points equal to `p`, the curve is `p` for every `t` |
| Curve.BezierReversed | main.cpp:64-65 | reversing the control polygon traces the same curve with `t` replaced by `1 - t` |
| Curve.BezierAxisBounded | main.cpp:64-65 | for `t` in [0, 1], each coordinate lies between the smallest and the largest control value of that axis |
| Curve.BezierAxisBetween | main.cpp:64-65 | for `t` in [0, 1] and control values within any bounds `[lo, hi]`, the coordinate is within `[lo, hi]` |
| Curve.Trunc | main.cpp:296 | `(int)x` truncates toward zero: for `x >= 0` it is the floor, for `x < 0` the ceiling |
| Curve.Sawtooth | main.cpp:296 | `x - (int)x` is in [0, 1) for `x >= 0` and in (-1, 0] for `x < 0` |
| Curve.SawtoothPeriodic | main.cpp:296 | for `x >= 0` the sawtooth has period 1 |
| Curve.BatPosition | main.cpp:296-297 | with the clock read once, for a non-negative clock, the bat stays inside the bounding box of the four control points |
| Curve.BatPositionPeriodic | main.cpp:296-297 | with `bezier_speed = 0.1` the bat's position repeats every 10 seconds |
| Curve.BatPositionSamples | main.cpp:296-297 | at time 10 the bat is at `controlPoints[0]`; at time 15 it is at the curve's point for `t = 0.5` |
| Curve.BatParameterAsWritten | main.cpp:296 | the parameter from two clock reads is the sawtooth of the first read, in [0, 1), whenever both reads fall in the same 10-second period |
| Curve.BatPositionAsWritten | main.cpp:296-297 | the position from two clock reads equals the one-read position whenever both reads fall in the same period |
| Curve.BatPositionStraddles | main.cpp:296-297 | reads at 9.99 s and 10.01 s give the parameter -0.001, and with x-controls 0, 1, 1, 1 the bat's x is below the smallest control x |
| ImageFlip.RowsReversed | main.cpp:257-262 | reversing the order of `h` rows of `L` bytes keeps the buffer's length |
| ImageFlip.Flipped | main.cpp:258-261 | swapping the first `n` rows with the last `n` keeps the buffer's length |
| ImageFlip.RowsReversedAppend | main.cpp:258-261 | reversing the rows of `x + y` gives the reversed rows of `y` followed by those of `x` |
| ImageFlip.RowsReversedAt | main.cpp:258-261 | byte `k` of row `r` after the reversal is byte `k` of row `h-1-r` before it |
| ImageFlip.RowsReversedTwice | main.cpp:256-262 | reversing the rows twice restores the buffer |
| ImageFlip.RowsReversedPermutes | main.cpp:256-262 | the reversed buffer is a permutation (same multiset of bytes) of the original |
| ImageFlip.FlippedTwice | main.cpp:256-262 | flipping twice restores the buffer: the flip is an involution |
| ImageFlip.FlippedPermutes | main.cpp:256-262 | the flip is a permutation of the buffer's bytes |
| ImageFlip.FlippedIsRowsReversed | main.cpp:258 | on a buffer of exactly `h` rows, swapping `h / 2` pairs reverses the order of all the rows |
| ImageFlip.FlipImageAt | main.cpp:257-262 | on the `4*width*height`-byte buffer, after the flip, `image[4*r*width + k]` is the old `image[4*(height-1-r)*width + k]` for every `r < height`, `k < 4*width` |
| ImageFlip.FlipKeepsMiddleRow | main.cpp:258 | for odd `height` the middle row `height / 2` is unchanged |
| ImageFlip.Swapped | main.cpp:259-261 | exchanging the two `L`-byte blocks of one pass keeps the buffer's length |
| ImageFlip.SwappedAt | main.cpp:259-261 | after one pass the block at `top` holds the old block at `bottom` and the other way round, and no byte outside the two blocks changes |
| ImageFlip.SwappedTwice | main.cpp:259-261 | exchanging the same two blocks twice restores the buffer |
| ImageFlip.FlippedStep | main.cpp:258-261 | one more pass (swapping row `i` with the block `4*(i+1)*width` bytes from the end) extends the flip of `i` rows to `i + 1` rows |
| ImageFlip.LoopOffsets | main.cpp:259-261 | for `i < height/2`, the offsets `4*i*width` and `size - 4*(i+1)*width` bound two non-overlapping rows inside the buffer |
| ImageFlip.CopyBytes | main.cpp:259-261 | `memcpy` overwrites exactly the `count` destination bytes with the source bytes and leaves the rest of the destination unchanged |
| ImageFlip.SwapRows | main.cpp:259-261 | the three copies of one pass exchange the two row blocks and change nothing else |
| ImageFlip.FlipRows | main.cpp:257-262 | the loop leaves the buffer equal to `Flipped(old, 4*width, height/2)`; on a `4*width*height` buffer, to the rows in reverse order |
| Geometry.MoveTestAgrees | main.cpp:143 | for the norm `n` of `d`, `n > 0` holds exactly when the squared norm of `d` is positive |
| ControlPoints.PickRadiusValue | main.cpp:158 | `POINTSIZE / min(width, height)` with the 720 by 720 window is 10/720, strictly between 0 and 1 |
| ControlPoints.InitialPoints | main.cpp:210-213 | the four pushed points: four of them, pairwise distinct, all strictly inside the clip square |
| ControlPoints.ToClip | main.cpp:142 | a cursor inside the window maps into the clip square [-1, 1] x [-1, 1] |
| ControlPoints.ToClipCorners | main.cpp:142 | the top-left corner maps to (-1, 1), the bottom-right to (1, -1), and the centre to the origin |
| ControlPoints.Within | main.cpp:158 | a point is within the pick radius of itself; a point within the radius is less than the radius away on each axis |
| ControlPoints.WithinIsNormBelowRadius | main.cpp:158 | the squared-distance test agrees with `(v - position).norm() < POINTSIZE/min(width,height)` |
| ControlPoints.FirstWithin | main.cpp:156-162 | the result is the first index, in storage order, of a point within the pick radius, and none exactly when no point is within it |
| ControlPoints.FirstWithinUnique | main.cpp:156-162 | a hit with no hit before it is the index the search returns |
| ControlPoints.HitTest | main.cpp:156-162 | the search loop with `break` returns the first point within the radius, or none when there is none, which is `FirstWithin` |
| ControlPoints.Consistent | main.cpp:84-86 | the invariant of the `Editor` state (points, cursor, selection, uploaded buffer, upload count): four points, a selection indexing one of them, the uploaded buffer equal to the points; then the highlighted index is a vertex of the uploaded buffer |
| ControlPoints.Upload | main.cpp:147 | `set_vbo` makes the buffer hold the current points, counts one upload, changes nothing else, and makes a state with four points and an in-range selection consistent |
| ControlPoints.Init | main.cpp:210-216 | the initial state has the four pushed points, uploaded once, cursor at the origin, nothing selected, and is consistent |
| ControlPoints.Move | main.cpp:142-149 | position becomes `p`; with a selection and `p != position`, the selected point takes the OLD position and one upload happens; otherwise points and uploads are unchanged; other points never change; consistency is kept |
| ControlPoints.Press | main.cpp:155-163 | the previous selection is dropped; the new one is the first point within the radius, or none when no point qualifies; points, position and uploads are unchanged |
| ControlPoints.Release | main.cpp:165-171 | with a selection, the selected point is set to `position`, the selection cleared, one upload made, the other points unchanged; with none, the state is unchanged |
| ControlPoints.Button | main.cpp:153-173 | the button listener keeps the editor consistent, never moves the cursor, and ignores buttons other than the left one |
| ControlPoints.Highlighted | main.cpp:123-129 | the highlighted index is -1 without a selection, otherwise the selected index, and always one of the line's vertex indices `{0,1,2,3}` or -1 |
| ControlPoints.Step | main.cpp:140-173 | every event keeps the editor consistent |
| ControlPoints.Run | main.cpp:140-173 | after any sequence of events there are still exactly four points, the selection is in range, the uploaded buffer equals the points, and the upload count never decreases |
| ControlPoints.DragThenRelease | main.cpp:142-171 | with point `i` selected, moving through any cursor positions and releasing leaves that point at the last cursor position, clears the selection and keeps the other points |
| ControlPoints.PressDragRelease | main.cpp:142-171 | a left press that picks point `i`, then any cursor moves, then the release, leaves point `i` at the last cursor position, clears the selection and keeps the other points |
| ControlPoints.MissesAll | main.cpp:156-162 | a press selects nothing when every point is at least the pick radius away from the cursor along x |
| ControlPoints.PressOnFirstPoint | main.cpp:156-162 | with the initial points, a press at (-0.7, -0.2) selects point 0 |
| ControlPoints.PressAtCentre | main.cpp:156-162 | with the initial points, a press at the centre of the window selects nothing |
| ControlPoints.ControlPolygon.constructor | main.cpp:210-216 | four `push_back`s and one upload give the initial editor state |
| ControlPoints.ControlPolygon.OnMouseMove | main.cpp:140-150 | the move listener updates the fields as `Move` does for the cursor `ToClip(mx, my)`, and keeps the object consistent |
| ControlPoints.ControlPolygon.OnMouseButton | main.cpp:153-173 | the button listener, with the loop `HitTest` for the press, updates the fields as `Button` does, and keeps the object consistent |

## Left out

- Window creation, the event loop, the GL context, shaders, the framebuffer, texture allocation and every draw call (main.cpp:72-136, 178-207, 223-243, 271-375). These are calls into the graphics framework; only the selection index handed to the line shader is modelled (`Highlighted`).
- PNG decoding by lodepng (main.cpp:251-253). This library is not part of this model; the flip starts from an already-decoded buffer. The source ignores a decode error and then flips and uploads a possibly empty buffer with possibly uninitialised `width` and `height`. `FlipRows` requires the bounds its `memcpy`s need instead.
- FlipRows: requires only that the `height/2` row pairs fit in the buffer (`2*(height/2)*(4*width) <= image.Length`), not that the buffer has exactly `4*width*height` bytes. Its second ensures covers the exact-size case.
- FlipRows: does not model machine integer widths. In `4*i*width`, `4*i` is a signed `int` product (its overflow is undefined) and the product with the `unsigned` `width` wraps modulo 2^32; `int(height)` is a narrowing cast. Indices here are unbounded naturals.
- The scratch row's release with `delete` where `delete[]` is required (main.cpp:263). Deallocation is outside Dafny's memory model.
- The Eigen transforms of the bat and its wings, and their trigonometric flapping (main.cpp:302-342). This is float and trigonometric numerics on a library type; so is the observation that both wings bind the left-wing texture.
- Float rounding throughout, including `pow` and the `float` clock. All arithmetic is on exact reals.
- The clock `glfwGetTime()` is not read; its values are parameters: `time` of `Curve.BatPosition`, and the two reads `first` and `second` of `Curve.BatPositionAsWritten`.
- Curve.BatPosition: does not model the overflow of the `(int)` conversion, which is undefined once the clock passes about 2^31 / 0.1 seconds.
- The GLFW mouse event objects. The move listener takes the cursor's pixel coordinates and the button listener takes the button code and the released flag as parameters. `LeftButton` is GLFW's value 0.

## Findings

| source | as written | input that shows it | evidently intended | confidence | as-written member | corrected member |
|---|---|---|---|---|---|---|
| main.cpp:296 | the curve parameter is `glfwGetTime()*bezier_speed - (int)(glfwGetTime()*bezier_speed)`, reading the clock twice | first read 9.99 s, second read 10.01 s: the parameter is -0.001, and with x-controls 0, 1, 1, 1 the bat is left of every control point for that frame | one clock read, so the parameter is the sawtooth of one time, in [0, 1), and the bat stays in the control box | medium: needs the two reads to straddle a 10-second mark, a one-frame glitch; not executed | Curve.BatPositionStraddles | Curve.BatPosition |
