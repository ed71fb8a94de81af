/**
 * Zoom and pan of the whiteboard. Both only change how the canvas element
 * is shown (a CSS scale and translate); the pixel buffer never sees them.
 */
module Viewport {
  const MinZoom: real := 0.2
  const MaxZoom: real := 5.0
  const ZoomStep: real := 0.1
  const InitialZoom: real := 1.0

  predicate InZoomRange(z: real) {
    MinZoom <= z <= MaxZoom
  }

  function Min(a: real, b: real): real {
    if a <= b then a else b
  }

  function Max(a: real, b: real): real {
    if a >= b then a else b
  }

  /** The zoom-in button: `Math.min(5, z + 0.1)`. */
  function ZoomIn(z: real): (r: real)
    ensures r <= MaxZoom
    ensures r == MaxZoom || r == z + ZoomStep
    ensures z + ZoomStep <= MaxZoom ==> r == z + ZoomStep
    ensures InZoomRange(z) ==> InZoomRange(r) && z <= r
  {
    Min(MaxZoom, z + ZoomStep)
  }

  /** The zoom-out button: `Math.max(0.2, z - 0.1)`. */
  function ZoomOut(z: real): (r: real)
    ensures MinZoom <= r
    ensures r == MinZoom || r == z - ZoomStep
    ensures MinZoom <= z - ZoomStep ==> r == z - ZoomStep
    ensures InZoomRange(z) ==> InZoomRange(r) && r <= z
  {
    Max(MinZoom, z - ZoomStep)
  }

  datatype ZoomClick = ZoomInClick | ZoomOutClick

  function ApplyZoom(z: real, clicks: seq<ZoomClick>): real
    decreases |clicks|
  {
    if |clicks| == 0 then z
    else ApplyZoom(if clicks[0] == ZoomInClick then ZoomIn(z) else ZoomOut(z), clicks[1..])
  }

  /** Zoom starting at 1 stays within [0.2, 5] whatever buttons are clicked. */
  lemma {:induction false} ZoomStaysInRange(z: real, clicks: seq<ZoomClick>)
    requires InZoomRange(z)
    ensures InZoomRange(ApplyZoom(z, clicks))
    decreases |clicks|
  {
    if |clicks| > 0 {
      ZoomStaysInRange(if clicks[0] == ZoomInClick then ZoomIn(z) else ZoomOut(z), clicks[1..]);
    }
  }

  /** n clicks on zoom-in reach min(5, z + n / 10): they stop exactly at the maximum. */
  lemma {:induction false} RepeatedZoomIn(z: real, n: nat)
    requires z <= MaxZoom
    ensures ApplyZoom(z, seq(n, _ => ZoomInClick)) == Min(MaxZoom, z + n as real * ZoomStep)
    decreases n
  {
    if n > 0 {
      var clicks := seq(n, _ => ZoomInClick);
      assert clicks[1..] == seq(n - 1, _ => ZoomInClick);
      RepeatedZoomIn(ZoomIn(z), n - 1);
    }
  }

  /** n clicks on zoom-out reach max(0.2, z - n / 10): they stop exactly at the minimum. */
  lemma {:induction false} RepeatedZoomOut(z: real, n: nat)
    requires MinZoom <= z
    ensures ApplyZoom(z, seq(n, _ => ZoomOutClick)) == Max(MinZoom, z - n as real * ZoomStep)
    decreases n
  {
    if n > 0 {
      var clicks := seq(n, _ => ZoomOutClick);
      assert clicks[1..] == seq(n - 1, _ => ZoomOutClick);
      RepeatedZoomOut(ZoomOut(z), n - 1);
    }
  }

  datatype Point = Point(x: int, y: int)

  /** One grab move: the offset follows the pointer by the distance moved since the last move. */
  function PanStep(offset: Point, dragStart: Point, client: Point): Point {
    Point(offset.x + (client.x - dragStart.x), offset.y + (client.y - dragStart.y))
  }

  /** A sequence of grab moves; each resets the drag anchor to the pointer. */
  function PanMoves(offset: Point, dragStart: Point, moves: seq<Point>): Point
    decreases |moves|
  {
    if |moves| == 0 then offset
    else PanMoves(PanStep(offset, dragStart, moves[0]), moves[0], moves[1..])
  }

  /** The moves of one drag add up to the displacement from the press to the last position. */
  lemma {:induction false} PanTotalDisplacement(offset: Point, dragStart: Point, moves: seq<Point>)
    requires |moves| > 0
    ensures PanMoves(offset, dragStart, moves)
            == Point(offset.x + moves[|moves| - 1].x - dragStart.x, offset.y + moves[|moves| - 1].y - dragStart.y)
    decreases |moves|
  {
    if |moves| > 1 {
      PanTotalDisplacement(PanStep(offset, dragStart, moves[0]), moves[0], moves[1..]);
    }
  }
}
