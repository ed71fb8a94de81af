/**
 * The fill tool: a stack-based, 4-connected recolouring of the canvas's
 * RGBA byte buffer. The buffer is row-major, four bytes per pixel, the
 * red byte of pixel (x, y) at index (y * width + x) * 4. Colours match
 * only when all four channels are equal.
 */
module FloodFill {
  import opened Wrappers
  import opened Color

  // ---------------------------------------------------------------------
  // Buffer geometry
  // ---------------------------------------------------------------------

  predicate InGrid(width: int, height: int, x: int, y: int) {
    0 <= x < width && 0 <= y < height
  }

  /** Index of the first byte of pixel (x, y). */
  function PixelOffset(width: int, x: int, y: int): int {
    (y * width + x) * 4
  }

  lemma MulLe(a: int, b: int, c: int)
    requires a <= b && 0 <= c
    ensures a * c <= b * c
  {
  }

  /** Pixel numbers of the grid lie in 0 .. width * height - 1. */
  lemma RowMajorBounds(width: int, height: int, x: int, y: int)
    requires InGrid(width, height, x, y)
    ensures 0 <= y * width + x < width * height
  {
    MulLe(0, y, width);
    MulLe(y, height - 1, width);
    assert (height - 1) * width == width * height - width;
  }

  /** Distinct grid pixels have distinct pixel numbers. */
  lemma RowMajorInjective(width: int, height: int, x1: int, y1: int, x2: int, y2: int)
    requires InGrid(width, height, x1, y1) && InGrid(width, height, x2, y2)
    requires y1 * width + x1 == y2 * width + x2
    ensures x1 == x2 && y1 == y2
  {
    if y1 < y2 {
      MulLe(y1 + 1, y2, width);
      assert false;
    } else if y2 < y1 {
      MulLe(y2 + 1, y1, width);
      assert false;
    }
  }

  /** Every byte of a grid pixel is inside the buffer. */
  lemma OffsetInBuffer(width: int, height: int, x: int, y: int)
    requires InGrid(width, height, x, y)
    ensures 0 <= PixelOffset(width, x, y) && PixelOffset(width, x, y) + 3 < width * height * 4
  {
    RowMajorBounds(width, height, x, y);
  }

  /** The source's getPixel, for a pixel of the grid. */
  function PixelAt(s: seq<Byte>, width: int, height: int, x: int, y: int): Rgba
    requires |s| == width * height * 4 && InGrid(width, height, x, y)
  {
    OffsetInBuffer(width, height, x, y);
    var i := PixelOffset(width, x, y);
    Rgba(s[i], s[i + 1], s[i + 2], s[i + 3])
  }

  /** Byte k of the buffer is channel k % 4 of the pixel with row-major index k / 4. */
  lemma ByteInPixel(width: int, height: int, k: int)
    requires 0 <= width && 0 <= height && 0 <= k < width * height * 4
    ensures width > 0
    ensures InGrid(width, height, (k / 4) % width, (k / 4) / width)
    ensures PixelOffset(width, (k / 4) % width, (k / 4) / width) == k - k % 4
  {
    var n := k / 4;
    assert n < width * height;
    if width == 0 {
      assert false;
    }
    var x, y := n % width, n / width;
    assert y * width + x == n;
    if y >= height {
      MulLe(height, y, width);
      assert false;
    }
  }

  /** A buffer is determined by its pixels: no byte lies outside every pixel. */
  lemma SamePixelsSameBuffer(s: seq<Byte>, t: seq<Byte>, width: int, height: int)
    requires 0 <= width && 0 <= height
    requires |s| == width * height * 4 && |t| == |s|
    requires forall x, y | InGrid(width, height, x, y) :: PixelAt(s, width, height, x, y) == PixelAt(t, width, height, x, y)
    ensures s == t
  {
    forall k | 0 <= k < |s| ensures s[k] == t[k] {
      ByteInPixel(width, height, k);
      var x, y := (k / 4) % width, (k / 4) / width;
      assert PixelAt(s, width, height, x, y) == PixelAt(t, width, height, x, y);
    }
  }

  /** The source's setPixel: write the four channels of pixel (x, y) in place. */
  method SetPixel(data: array<Byte>, width: int, height: int, x: int, y: int, color: Rgba)
    requires data.Length == width * height * 4 && InGrid(width, height, x, y)
    modifies data
    ensures forall k | 0 <= k < data.Length ::
      data[k] == if PixelOffset(width, x, y) <= k < PixelOffset(width, x, y) + 4
                 then Channel(color, k - PixelOffset(width, x, y)) else old(data[k])
    ensures forall px, py | InGrid(width, height, px, py) ::
      PixelAt(data[..], width, height, px, py)
      == if px == x && py == y then color else PixelAt(old(data[..]), width, height, px, py)
  {
    var i := PixelOffset(width, x, y);
    OffsetInBuffer(width, height, x, y);
    for j := 0 to 4
      invariant forall k | 0 <= k < data.Length ::
        data[k] == if i <= k < i + j then Channel(color, k - i) else old(data[k])
    {
      data[i + j] := Channel(color, j);
    }
    forall px, py | InGrid(width, height, px, py)
      ensures PixelAt(data[..], width, height, px, py)
              == if px == x && py == y then color else PixelAt(old(data[..]), width, height, px, py)
    {
      OffsetInBuffer(width, height, px, py);
      if px != x || py != y {
        if y * width + x == py * width + px {
          RowMajorInjective(width, height, x, y, px, py);
        }
      }
    }
  }

  // ---------------------------------------------------------------------
  // The region a fill must recolour
  // ---------------------------------------------------------------------

  /** 4-connectivity: the two points differ by one step along one axis. */
  predicate Adjacent(p: (int, int), q: (int, int)) {
    (p.0 == q.0 && (p.1 == q.1 + 1 || q.1 == p.1 + 1))
    || (p.1 == q.1 && (p.0 == q.0 + 1 || q.0 == p.0 + 1))
  }

  /** A 4-connected walk through grid pixels that all have colour `target` in `s`. */
  ghost predicate IsRegionPath(s: seq<Byte>, width: int, height: int, target: Rgba, path: seq<(int, int)>)
    requires |s| == width * height * 4
  {
    && (forall i | 0 <= i < |path| ::
          InGrid(width, height, path[i].0, path[i].1)
          && PixelAt(s, width, height, path[i].0, path[i].1) == target)
    && (forall i | 0 <= i < |path| - 1 :: Adjacent(path[i], path[i + 1]))
  }

  /** (px, py) belongs to the 4-connected region of the seed's colour around (sx, sy). */
  ghost predicate InRegion(s: seq<Byte>, width: int, height: int, sx: int, sy: int, px: int, py: int) {
    && |s| == width * height * 4
    && InGrid(width, height, sx, sy)
    && exists path: seq<(int, int)> ::
         && |path| > 0 && path[0] == (sx, sy) && path[|path| - 1] == (px, py)
         && IsRegionPath(s, width, height, PixelAt(s, width, height, sx, sy), path)
  }

  lemma SeedInRegion(s: seq<Byte>, width: int, height: int, sx: int, sy: int)
    requires |s| == width * height * 4 && InGrid(width, height, sx, sy)
    ensures InRegion(s, width, height, sx, sy, sx, sy)
  {
    var path := [(sx, sy)];
    assert IsRegionPath(s, width, height, PixelAt(s, width, height, sx, sy), path);
  }

  /** Region pixels lie in the grid and carry the seed's colour. */
  lemma RegionHasSeedColor(s: seq<Byte>, width: int, height: int, sx: int, sy: int, px: int, py: int)
    requires InRegion(s, width, height, sx, sy, px, py)
    ensures InGrid(width, height, px, py)
    ensures PixelAt(s, width, height, px, py) == PixelAt(s, width, height, sx, sy)
  {
    var path :| |path| > 0 && path[0] == (sx, sy) && path[|path| - 1] == (px, py)
                && IsRegionPath(s, width, height, PixelAt(s, width, height, sx, sy), path);
    assert path[|path| - 1] == (px, py);
  }

  /** The region is closed under stepping to an adjacent pixel of the seed's colour. */
  lemma RegionExtends(s: seq<Byte>, width: int, height: int, sx: int, sy: int, p: (int, int), q: (int, int))
    requires InRegion(s, width, height, sx, sy, p.0, p.1)
    requires InGrid(width, height, q.0, q.1) && Adjacent(p, q)
    requires PixelAt(s, width, height, q.0, q.1) == PixelAt(s, width, height, sx, sy)
    ensures InRegion(s, width, height, sx, sy, q.0, q.1)
  {
    var target := PixelAt(s, width, height, sx, sy);
    var path :| |path| > 0 && path[0] == (sx, sy) && path[|path| - 1] == (p.0, p.1)
                && IsRegionPath(s, width, height, target, path);
    var path' := path + [q];
    assert IsRegionPath(s, width, height, target, path');
    assert path'[|path'| - 1] == (q.0, q.1);
  }

  // ---------------------------------------------------------------------
  // The fill loop and its invariant
  // ---------------------------------------------------------------------

  /** The coordinates the loop pushes after painting (cx, cy), in push order. */
  function Neighbours(width: int, height: int, cx: int, cy: int): seq<(int, int)> {
    (if cx > 0 then [(cx - 1, cy)] else [])
    + (if cx < width - 1 then [(cx + 1, cy)] else [])
    + (if cy > 0 then [(cx, cy - 1)] else [])
    + (if cy < height - 1 then [(cx, cy + 1)] else [])
  }

  /** One guarded push of the loop body. */
  function PushIf(stack: seq<(int, int)>, cond: bool, p: (int, int)): seq<(int, int)> {
    if cond then stack + [p] else stack
  }

  /** The four guarded pushes of the loop body after painting (cx, cy), as they are written. */
  function PushNeighbours(stack: seq<(int, int)>, width: int, height: int, cx: int, cy: int): seq<(int, int)> {
    var s1 := PushIf(stack, cx > 0, (cx - 1, cy));
    var s2 := PushIf(s1, cx < width - 1, (cx + 1, cy));
    var s3 := PushIf(s2, cy > 0, (cx, cy - 1));
    PushIf(s3, cy < height - 1, (cx, cy + 1))
  }

  lemma PushIfAppends(stack: seq<(int, int)>, cond: bool, p: (int, int))
    ensures PushIf(stack, cond, p) == stack + (if cond then [p] else [])
  {
    if !cond {
      assert stack + [] == stack;
    }
  }

  /** The pushes append the neighbour list to whatever the stack held. */
  lemma PushNeighboursAppends(stack: seq<(int, int)>, width: int, height: int, cx: int, cy: int)
    ensures PushNeighbours(stack, width, height, cx, cy) == stack + Neighbours(width, height, cx, cy)
  {
    var n1 := if cx > 0 then [(cx - 1, cy)] else [];
    var n2 := if cx < width - 1 then [(cx + 1, cy)] else [];
    var n3 := if cy > 0 then [(cx, cy - 1)] else [];
    var n4 := if cy < height - 1 then [(cx, cy + 1)] else [];
    PushIfAppends(stack, cx > 0, (cx - 1, cy));
    PushIfAppends(stack + n1, cx < width - 1, (cx + 1, cy));
    PushIfAppends(stack + n1 + n2, cy > 0, (cx, cy - 1));
    PushIfAppends(stack + n1 + n2 + n3, cy < height - 1, (cx, cy + 1));
    assert stack + n1 + n2 + n3 + n4 == stack + (n1 + n2 + n3 + n4);
  }

  /** For a pixel on the grid, the pushed coordinates are exactly its on-grid 4-neighbours. */
  lemma NeighboursExact(width: int, height: int, cx: int, cy: int)
    requires InGrid(width, height, cx, cy)
    ensures forall k | 0 <= k < |Neighbours(width, height, cx, cy)| ::
      var q := Neighbours(width, height, cx, cy)[k];
      InGrid(width, height, q.0, q.1) && Adjacent((cx, cy), q)
    ensures forall q: (int, int) | InGrid(width, height, q.0, q.1) && Adjacent((cx, cy), q) ::
      q in Neighbours(width, height, cx, cy)
  {
  }

  /** A grid point q will still be looked at (it is on the stack) or no longer has the target colour. */
  ghost predicate Covered(s: seq<Byte>, width: int, height: int, target: Rgba, stack: seq<(int, int)>, q: (int, int))
    requires |s| == width * height * 4
  {
    !InGrid(width, height, q.0, q.1) || q in stack || PixelAt(s, width, height, q.0, q.1) != target
  }

  ghost predicate NeighboursCovered(s: seq<Byte>, width: int, height: int, target: Rgba, stack: seq<(int, int)>, px: int, py: int)
    requires |s| == width * height * 4
  {
    && Covered(s, width, height, target, stack, (px - 1, py))
    && Covered(s, width, height, target, stack, (px + 1, py))
    && Covered(s, width, height, target, stack, (px, py - 1))
    && Covered(s, width, height, target, stack, (px, py + 1))
  }

  /**
   * What holds at the top of each iteration of the fill loop, relating the
   * original buffer `orig`, the current buffer `cur` and the stack:
   * stack entries are grid points, and those of the target colour belong to
   * the region; every pixel either still has its original colour or has
   * been painted and belongs to the region; every painted pixel's
   * neighbours are covered; and the seed is covered.
   */
  ghost predicate FillInvariant(orig: seq<Byte>, cur: seq<Byte>, stack: seq<(int, int)>,
                                width: int, height: int, sx: int, sy: int, target: Rgba, fill: Rgba)
  {
    && |orig| == width * height * 4 && |cur| == |orig|
    && InGrid(width, height, sx, sy)
    && target == PixelAt(orig, width, height, sx, sy) && target != fill
    && (forall k | 0 <= k < |stack| :: InGrid(width, height, stack[k].0, stack[k].1))
    && (forall k | 0 <= k < |stack| ::
          PixelAt(orig, width, height, stack[k].0, stack[k].1) == target
          ==> InRegion(orig, width, height, sx, sy, stack[k].0, stack[k].1))
    && (forall px, py | InGrid(width, height, px, py) ::
          PixelAt(cur, width, height, px, py) == PixelAt(orig, width, height, px, py)
          || (PixelAt(cur, width, height, px, py) == fill && InRegion(orig, width, height, sx, sy, px, py)))
    && (forall px, py | InGrid(width, height, px, py)
          && PixelAt(cur, width, height, px, py) != PixelAt(orig, width, height, px, py) ::
          NeighboursCovered(cur, width, height, target, stack, px, py))
    && Covered(cur, width, height, target, stack, (sx, sy))
  }

  lemma FillInvariantInit(orig: seq<Byte>, width: int, height: int, sx: int, sy: int, fill: Rgba)
    requires |orig| == width * height * 4 && InGrid(width, height, sx, sy)
    requires PixelAt(orig, width, height, sx, sy) != fill
    ensures FillInvariant(orig, orig, [(sx, sy)], width, height, sx, sy, PixelAt(orig, width, height, sx, sy), fill)
  {
    SeedInRegion(orig, width, height, sx, sy);
  }

  /** Dropping q from the stack keeps r covered when q no longer has the target colour. */
  lemma CoveredWithout(s: seq<Byte>, width: int, height: int, target: Rgba, stack: seq<(int, int)>, q: (int, int), r: (int, int))
    requires |s| == width * height * 4
    requires Covered(s, width, height, target, stack + [q], r)
    requires InGrid(width, height, q.0, q.1) && PixelAt(s, width, height, q.0, q.1) != target
    ensures Covered(s, width, height, target, stack, r)
  {
    if InGrid(width, height, r.0, r.1) && r in stack + [q] && r !in stack {
      var k :| 0 <= k < |stack + [q]| && (stack + [q])[k] == r;
      if k < |stack| {
        assert stack[k] == r;
      }
    }
  }

  /** Popping an entry that no longer has the target colour keeps the invariant. */
  lemma FillInvariantSkip(orig: seq<Byte>, cur: seq<Byte>, stack: seq<(int, int)>, q: (int, int),
                          width: int, height: int, sx: int, sy: int, target: Rgba, fill: Rgba)
    requires FillInvariant(orig, cur, stack + [q], width, height, sx, sy, target, fill)
    requires InGrid(width, height, q.0, q.1)
    requires PixelAt(cur, width, height, q.0, q.1) != target
    ensures FillInvariant(orig, cur, stack, width, height, sx, sy, target, fill)
  {
    var full := stack + [q];
    assert forall k | 0 <= k < |stack| :: stack[k] == full[k];
    forall px, py | InGrid(width, height, px, py)
      && PixelAt(cur, width, height, px, py) != PixelAt(orig, width, height, px, py)
      ensures NeighboursCovered(cur, width, height, target, stack, px, py)
    {
      assert NeighboursCovered(cur, width, height, target, full, px, py);
      CoveredWithout(cur, width, height, target, stack, q, (px - 1, py));
      CoveredWithout(cur, width, height, target, stack, q, (px + 1, py));
      CoveredWithout(cur, width, height, target, stack, q, (px, py - 1));
      CoveredWithout(cur, width, height, target, stack, q, (px, py + 1));
    }
    CoveredWithout(cur, width, height, target, stack, q, (sx, sy));
  }

  /** Painting a popped entry of the target colour and pushing its neighbours keeps the invariant. */
  lemma FillInvariantPaint(orig: seq<Byte>, cur: seq<Byte>, cur': seq<Byte>, stack: seq<(int, int)>, q: (int, int),
                           next: seq<(int, int)>, width: int, height: int, sx: int, sy: int, target: Rgba, fill: Rgba)
    requires FillInvariant(orig, cur, stack + [q], width, height, sx, sy, target, fill)
    requires InGrid(width, height, q.0, q.1)
    requires PixelAt(cur, width, height, q.0, q.1) == target
    requires |cur'| == |cur|
    requires forall px, py | InGrid(width, height, px, py) ::
      PixelAt(cur', width, height, px, py)
      == if px == q.0 && py == q.1 then fill else PixelAt(cur, width, height, px, py)
    requires next == stack + Neighbours(width, height, q.0, q.1)
    ensures FillInvariant(orig, cur', next, width, height, sx, sy, target, fill)
  {
    var full := stack + [q];
    assert q == full[|stack|];
    assert forall k | 0 <= k < |stack| :: stack[k] == full[k];
    // q had the target colour all along, so it belongs to the region
    assert PixelAt(orig, width, height, q.0, q.1) == target;
    PaintStackEntries(orig, stack, q, next, width, height, sx, sy, target);
    forall r: (int, int) | Covered(cur, width, height, target, full, r)
      ensures Covered(cur', width, height, target, next, r)
    {
      PaintKeepsCovered(cur, cur', stack, q, next, width, height, target, fill, r);
    }
    forall px, py | InGrid(width, height, px, py)
      && PixelAt(cur', width, height, px, py) != PixelAt(orig, width, height, px, py)
      ensures NeighboursCovered(cur', width, height, target, next, px, py)
    {
      if px != q.0 || py != q.1 {
        assert NeighboursCovered(cur, width, height, target, full, px, py);
      } else {
        NeighboursInNext(stack, q, next, width, height);
      }
    }
  }

  /** After the push, stack entries are grid points and those of the target colour lie in the region. */
  lemma PaintStackEntries(orig: seq<Byte>, stack: seq<(int, int)>, q: (int, int), next: seq<(int, int)>,
                          width: int, height: int, sx: int, sy: int, target: Rgba)
    requires |orig| == width * height * 4
    requires InGrid(width, height, sx, sy) && target == PixelAt(orig, width, height, sx, sy)
    requires InGrid(width, height, q.0, q.1) && InRegion(orig, width, height, sx, sy, q.0, q.1)
    requires forall k | 0 <= k < |stack| :: InGrid(width, height, stack[k].0, stack[k].1)
    requires forall k | 0 <= k < |stack| ::
      PixelAt(orig, width, height, stack[k].0, stack[k].1) == target
      ==> InRegion(orig, width, height, sx, sy, stack[k].0, stack[k].1)
    requires next == stack + Neighbours(width, height, q.0, q.1)
    ensures forall k | 0 <= k < |next| :: InGrid(width, height, next[k].0, next[k].1)
    ensures forall k | 0 <= k < |next| ::
      PixelAt(orig, width, height, next[k].0, next[k].1) == target
      ==> InRegion(orig, width, height, sx, sy, next[k].0, next[k].1)
  {
    var ns := Neighbours(width, height, q.0, q.1);
    NeighboursExact(width, height, q.0, q.1);
    forall k | 0 <= k < |next|
      ensures InGrid(width, height, next[k].0, next[k].1)
      ensures PixelAt(orig, width, height, next[k].0, next[k].1) == target
              ==> InRegion(orig, width, height, sx, sy, next[k].0, next[k].1)
    {
      if k < |stack| {
        assert next[k] == stack[k];
      } else {
        var r := ns[k - |stack|];
        assert next[k] == r;
        if PixelAt(orig, width, height, r.0, r.1) == target {
          RegionExtends(orig, width, height, sx, sy, q, r);
        }
      }
    }
  }

  /** Painting q and pushing onto the remaining stack keeps every point covered that was covered before. */
  lemma PaintKeepsCovered(cur: seq<Byte>, cur': seq<Byte>, stack: seq<(int, int)>, q: (int, int), next: seq<(int, int)>,
                          width: int, height: int, target: Rgba, fill: Rgba, r: (int, int))
    requires |cur| == width * height * 4 && |cur'| == |cur|
    requires InGrid(width, height, q.0, q.1) && target != fill
    requires forall px, py | InGrid(width, height, px, py) ::
      PixelAt(cur', width, height, px, py)
      == if px == q.0 && py == q.1 then fill else PixelAt(cur, width, height, px, py)
    requires Covered(cur, width, height, target, stack + [q], r)
    requires |stack| <= |next| && next[..|stack|] == stack
    ensures Covered(cur', width, height, target, next, r)
  {
    if InGrid(width, height, r.0, r.1) && r != q && r in stack + [q] {
      var k :| 0 <= k < |stack + [q]| && (stack + [q])[k] == r;
      assert k < |stack|;
      assert next[k] == stack[k];
    }
  }

  /** The neighbours of q are in the stack after the push. */
  lemma NeighboursInNext(stack: seq<(int, int)>, q: (int, int), next: seq<(int, int)>, width: int, height: int)
    requires InGrid(width, height, q.0, q.1)
    requires next == stack + Neighbours(width, height, q.0, q.1)
    ensures forall r: (int, int) | InGrid(width, height, r.0, r.1) && Adjacent(q, r) :: r in next
  {
    var ns := Neighbours(width, height, q.0, q.1);
    NeighboursExact(width, height, q.0, q.1);
    forall r: (int, int) | InGrid(width, height, r.0, r.1) && Adjacent(q, r)
      ensures r in next
    {
      var k :| 0 <= k < |ns| && ns[k] == r;
      assert next[|stack| + k] == r;
    }
  }

  /** Every pixel on a region walk has been painted once the invariant holds with an empty stack. */
  lemma {:induction false} PathPainted(orig: seq<Byte>, cur: seq<Byte>, path: seq<(int, int)>, i: nat,
                                       width: int, height: int, sx: int, sy: int, target: Rgba, fill: Rgba)
    requires FillInvariant(orig, cur, [], width, height, sx, sy, target, fill)
    requires |path| > 0 && path[0] == (sx, sy) && IsRegionPath(orig, width, height, target, path)
    requires i < |path|
    ensures PixelAt(cur, width, height, path[i].0, path[i].1) == fill
  {
    if i > 0 {
      PathPainted(orig, cur, path, i - 1, width, height, sx, sy, target, fill);
      var p, q := path[i - 1], path[i];
      assert Adjacent(p, q);
      assert NeighboursCovered(cur, width, height, target, [], p.0, p.1);
      assert PixelAt(cur, width, height, q.0, q.1) != target;
    }
  }

  /** With an empty stack the buffer is the original with exactly the region painted. */
  lemma FillInvariantDone(orig: seq<Byte>, cur: seq<Byte>,
                          width: int, height: int, sx: int, sy: int, target: Rgba, fill: Rgba)
    requires FillInvariant(orig, cur, [], width, height, sx, sy, target, fill)
    ensures forall px, py | InGrid(width, height, px, py) ::
      PixelAt(cur, width, height, px, py)
      == if InRegion(orig, width, height, sx, sy, px, py) then fill else PixelAt(orig, width, height, px, py)
  {
    forall px, py | InGrid(width, height, px, py) && InRegion(orig, width, height, sx, sy, px, py)
      ensures PixelAt(cur, width, height, px, py) == fill
    {
      var path :| |path| > 0 && path[0] == (sx, sy) && path[|path| - 1] == (px, py)
                  && IsRegionPath(orig, width, height, target, path);
      PathPainted(orig, cur, path, |path| - 1, width, height, sx, sy, target, fill);
    }
  }

  /** The grid pixels that still have the target colour; the loop's measure. */
  ghost function TargetPixels(s: seq<Byte>, width: int, height: int, target: Rgba): set<(int, int)>
    requires |s| == width * height * 4
  {
    set px, py | 0 <= px < width && 0 <= py < height && PixelAt(s, width, height, px, py) == target :: (px, py)
  }

  /** Painting a pixel of the target colour removes exactly it from the measure. */
  lemma PaintShrinksTargetPixels(s: seq<Byte>, s': seq<Byte>, width: int, height: int, target: Rgba, fill: Rgba, q: (int, int))
    requires |s| == width * height * 4 && |s'| == |s| && target != fill
    requires InGrid(width, height, q.0, q.1) && PixelAt(s, width, height, q.0, q.1) == target
    requires forall px, py | InGrid(width, height, px, py) ::
      PixelAt(s', width, height, px, py)
      == if px == q.0 && py == q.1 then fill else PixelAt(s, width, height, px, py)
    ensures |TargetPixels(s', width, height, target)| < |TargetPixels(s, width, height, target)|
  {
    var before, after := TargetPixels(s, width, height, target), TargetPixels(s', width, height, target);
    assert after == before - {q};
    assert q in before;
  }

  /** Where the seed already has the fill colour, the region is painted already. */
  lemma RegionAlreadyFilled(s: seq<Byte>, width: int, height: int, sx: int, sy: int, fill: Rgba)
    requires |s| == width * height * 4 && InGrid(width, height, sx, sy)
    requires PixelAt(s, width, height, sx, sy) == fill
    ensures forall px, py | InGrid(width, height, px, py) ::
      PixelAt(s, width, height, px, py)
      == if InRegion(s, width, height, sx, sy, px, py) then fill else PixelAt(s, width, height, px, py)
  {
    forall px, py | InGrid(width, height, px, py) && InRegion(s, width, height, sx, sy, px, py)
      ensures PixelAt(s, width, height, px, py) == fill
    {
      RegionHasSeedColor(s, width, height, sx, sy, px, py);
    }
  }

  /**
   * The loop body once (cx, cy) has matched the target colour: paint it,
   * then push each neighbour that lies on the grid.
   */
  method PaintAndPush(data: array<Byte>, width: int, height: int, stack: seq<(int, int)>, cx: int, cy: int, fill: Rgba)
    returns (next: seq<(int, int)>)
    requires data.Length == width * height * 4 && InGrid(width, height, cx, cy)
    modifies data
    ensures next == stack + Neighbours(width, height, cx, cy)
    ensures forall px, py | InGrid(width, height, px, py) ::
      PixelAt(data[..], width, height, px, py)
      == if px == cx && py == cy then fill else PixelAt(old(data[..]), width, height, px, py)
  {
    SetPixel(data, width, height, cx, cy, fill);
    next := stack;
    if cx > 0 { next := next + [(cx - 1, cy)]; }
    ghost var s1 := next;
    assert s1 == PushIf(stack, cx > 0, (cx - 1, cy));
    if cx < width - 1 { next := next + [(cx + 1, cy)]; }
    ghost var s2 := next;
    assert s2 == PushIf(s1, cx < width - 1, (cx + 1, cy));
    if cy > 0 { next := next + [(cx, cy - 1)]; }
    ghost var s3 := next;
    assert s3 == PushIf(s2, cy > 0, (cx, cy - 1));
    if cy < height - 1 { next := next + [(cx, cy + 1)]; }
    assert next == PushNeighbours(stack, width, height, cx, cy);
    PushNeighboursAppends(stack, width, height, cx, cy);
  }

  /**
   * floodFill(imageData, x, y, fillColor). Afterwards every pixel of the
   * seed's 4-connected region has the fill colour and every other pixel
   * is as before. A seed already of the fill colour, or outside the grid,
   * leaves every byte unchanged. The latter is a correction: as written, a
   * seed above or below the grid never terminates (FillAsWrittenNeverEnds),
   * and one left or right of it fills from a pixel of the neighbouring row
   * (FillAsWrittenLeftOfCanvas).
   */
  method FloodFill(data: array<Byte>, width: int, height: int, x: int, y: int, fill: Rgba)
    requires data.Length == width * height * 4
    modifies data
    ensures !InGrid(width, height, x, y) ==> data[..] == old(data[..])
    ensures InGrid(width, height, x, y) && PixelAt(old(data[..]), width, height, x, y) == fill
            ==> data[..] == old(data[..])
    ensures InGrid(width, height, x, y) ==> PixelAt(data[..], width, height, x, y) == fill
    ensures forall px, py | InGrid(width, height, px, py) ::
      PixelAt(data[..], width, height, px, py)
      == if InRegion(old(data[..]), width, height, x, y, px, py) then fill
         else PixelAt(old(data[..]), width, height, px, py)
  {
    if !InGrid(width, height, x, y) {
      return;
    }
    var targetColor := PixelAt(data[..], width, height, x, y);
    if targetColor == fill {
      RegionAlreadyFilled(data[..], width, height, x, y, fill);
      return;
    }
    ghost var orig := data[..];
    var stack := [(x, y)];
    FillInvariantInit(orig, width, height, x, y, fill);
    while |stack| > 0
      invariant FillInvariant(orig, data[..], stack, width, height, x, y, targetColor, fill)
      decreases |TargetPixels(data[..], width, height, targetColor)|, |stack|
    {
      var top := stack[|stack| - 1];
      var rest := stack[..|stack| - 1];
      assert stack == rest + [top];
      stack := rest;
      var (cx, cy) := top;
      assert InGrid(width, height, cx, cy);
      var currentColor := PixelAt(data[..], width, height, cx, cy);
      if currentColor != targetColor {
        FillInvariantSkip(orig, data[..], rest, top, width, height, x, y, targetColor, fill);
        continue;
      }
      ghost var before := data[..];
      stack := PaintAndPush(data, width, height, rest, cx, cy, fill);
      PaintShrinksTargetPixels(before, data[..], width, height, targetColor, fill, top);
      FillInvariantPaint(orig, before, data[..], rest, top, stack, width, height, x, y, targetColor, fill);
    }
    FillInvariantDone(orig, data[..], width, height, x, y, targetColor, fill);
    SeedInRegion(orig, width, height, x, y);
  }

  // ---------------------------------------------------------------------
  // The loop as written, for a seed outside the grid
  // ---------------------------------------------------------------------

  /** The source's getPixel at any coordinate: reads outside the typed array give `undefined`. */
  function ReadAsWritten(s: seq<Byte>, width: int, x: int, y: int): Option<Rgba> {
    var i := PixelOffset(width, x, y);
    if 0 <= i && i + 3 < |s| then Some(Rgba(s[i], s[i + 1], s[i + 2], s[i + 3])) else None
  }

  /** The source's setPixel at any coordinate: writes outside the typed array are ignored. */
  function WriteAsWritten(s: seq<Byte>, width: int, x: int, y: int, c: Rgba): seq<Byte> {
    var i := PixelOffset(width, x, y);
    if 0 <= i && i + 3 < |s| then s[i := c.r][i + 1 := c.g][i + 2 := c.b][i + 3 := c.a] else s
  }

  datatype FillState = FillState(data: seq<Byte>, stack: seq<(int, int)>)

  /** One iteration of the source's loop; `target` is the seed's colour as read. */
  function StepAsWritten(st: FillState, width: int, height: int, target: Option<Rgba>, fill: Rgba): FillState
    requires |st.stack| > 0
  {
    var (cx, cy) := st.stack[|st.stack| - 1];
    var rest := st.stack[..|st.stack| - 1];
    if ReadAsWritten(st.data, width, cx, cy) != target then FillState(st.data, rest)
    else FillState(WriteAsWritten(st.data, width, cx, cy, fill), rest + Neighbours(width, height, cx, cy))
  }

  /** `n` iterations of the source's loop; once the stack is empty nothing changes. */
  function RunAsWritten(st: FillState, width: int, height: int, target: Option<Rgba>, fill: Rgba, n: nat): FillState
    decreases n
  {
    if n == 0 then st
    else
      var prev := RunAsWritten(st, width, height, target, fill, n - 1);
      if |prev.stack| == 0 then prev else StepAsWritten(prev, width, height, target, fill)
  }

  /** The states a fill seeded at (0, -1) on a 2 x 1 canvas cycles through. */
  function CycleState(s: seq<Byte>, k: nat): FillState
    requires k < 4
  {
    if k == 0 then FillState(s, [(0, -1)])
    else if k == 1 then FillState(s, [(1, -1), (0, 0)])
    else if k == 2 then FillState(s, [(1, -1)])
    else FillState(s, [(0, -1), (1, 0)])
  }

  /** While the stack is not empty, each further iteration is one step of the loop. */
  lemma RunLast(st: FillState, width: int, height: int, target: Option<Rgba>, fill: Rgba, n: nat)
    requires n > 0 && |RunAsWritten(st, width, height, target, fill, n - 1).stack| > 0
    ensures RunAsWritten(st, width, height, target, fill, n)
            == StepAsWritten(RunAsWritten(st, width, height, target, fill, n - 1), width, height, target, fill)
  {
  }

  /**
   * On a 2 x 1 canvas, a fill seeded one row above the canvas (a pointer
   * leaving through the top edge) reads `undefined` as its target, so it
   * does not exit early. After n iterations it is in the (n mod 4)-th state
   * of a four-state cycle, with nothing painted.
   */
  lemma {:induction false} FillAsWrittenCycles(s: seq<Byte>, fill: Rgba, n: nat)
    requires |s| == 8
    ensures ReadAsWritten(s, 2, 0, -1) == None
    ensures RunAsWritten(FillState(s, [(0, -1)]), 2, 1, None, fill, n) == CycleState(s, n % 4)
    decreases n
  {
    var start := FillState(s, [(0, -1)]);
    if n == 0 {
      CycleSteps(s, fill);
      assert RunAsWritten(start, 2, 1, None, fill, 0) == start;
    } else {
      var k := (n - 1) % 4;
      var prev := RunAsWritten(start, 2, 1, None, fill, n - 1);
      var cur := CycleState(s, k);
      var succ := CycleState(s, (k + 1) % 4);
      assert prev == cur by {
        FillAsWrittenCycles(s, fill, n - 1);
      }
      assert |cur.stack| > 0 && StepAsWritten(cur, 2, 1, None, fill) == succ by {
        CycleNext(s, fill, k);
      }
      assert RunAsWritten(start, 2, 1, None, fill, n) == StepAsWritten(prev, 2, 1, None, fill) by {
        RunLast(start, 2, 1, None, fill, n);
      }
      assert succ == CycleState(s, n % 4) by {
        NextPhase(n);
      }
      CycleSteps(s, fill);
    }
  }

  lemma NextPhase(n: nat)
    requires n > 0
    ensures ((n - 1) % 4 + 1) % 4 == n % 4
  {
    var q, r := (n - 1) / 4, (n - 1) % 4;
    assert n == 4 * q + (r + 1);
    if r < 3 {
      assert n % 4 == r + 1;
    } else {
      assert n == 4 * (q + 1);
    }
  }

  /** Each state of the cycle steps to the next. */
  lemma CycleNext(s: seq<Byte>, fill: Rgba, k: nat)
    requires |s| == 8 && k < 4
    ensures |CycleState(s, k).stack| > 0
    ensures StepAsWritten(CycleState(s, k), 2, 1, None, fill) == CycleState(s, (k + 1) % 4)
  {
    CycleSteps(s, fill);
    if k == 0 {
      assert CycleState(s, 1) == FillState(s, [(1, -1), (0, 0)]);
    } else if k == 1 {
      assert CycleState(s, 2) == FillState(s, [(1, -1)]);
    } else if k == 2 {
      assert CycleState(s, 3) == FillState(s, [(0, -1), (1, 0)]);
    } else {
      assert CycleState(s, 0) == FillState(s, [(0, -1)]);
    }
  }

  /** The four single iterations of that cycle. */
  lemma CycleSteps(s: seq<Byte>, fill: Rgba)
    requires |s| == 8
    ensures ReadAsWritten(s, 2, 0, -1) == None
    ensures StepAsWritten(FillState(s, [(0, -1)]), 2, 1, None, fill) == FillState(s, [(1, -1), (0, 0)])
    ensures StepAsWritten(FillState(s, [(1, -1), (0, 0)]), 2, 1, None, fill) == FillState(s, [(1, -1)])
    ensures StepAsWritten(FillState(s, [(1, -1)]), 2, 1, None, fill) == FillState(s, [(0, -1), (1, 0)])
    ensures StepAsWritten(FillState(s, [(0, -1), (1, 0)]), 2, 1, None, fill) == FillState(s, [(0, -1)])
  {
    assert [] + [(0, -1)] == [(0, -1)];
    StepFromAbove(s, fill, 0, [], [(1, -1), (0, 0)]);
    assert [(1, -1)] + [(0, 0)] == [(1, -1), (0, 0)];
    StepOnCanvas(s, fill, 0, [(1, -1)]);
    assert [] + [(1, -1)] == [(1, -1)];
    StepFromAbove(s, fill, 1, [], [(0, -1), (1, 0)]);
    assert [(0, -1)] + [(1, 0)] == [(0, -1), (1, 0)];
    StepOnCanvas(s, fill, 1, [(0, -1)]);
  }

  /** Above a 2 x 1 canvas the read is `undefined`, the write is dropped, and the neighbours are pushed. */
  lemma StepFromAbove(s: seq<Byte>, fill: Rgba, cx: int, below: seq<(int, int)>, after: seq<(int, int)>)
    requires |s| == 8 && (cx == 0 || cx == 1)
    requires after == below + Neighbours(2, 1, cx, -1)
    ensures ReadAsWritten(s, 2, cx, -1) == None
    ensures StepAsWritten(FillState(s, below + [(cx, -1)]), 2, 1, None, fill) == FillState(s, after)
  {
    assert PixelOffset(2, cx, -1) < 0;
    assert (below + [(cx, -1)])[..|below|] == below;
  }

  /** On the canvas the read is a colour, never `undefined`, so the entry is dropped. */
  lemma StepOnCanvas(s: seq<Byte>, fill: Rgba, cx: int, below: seq<(int, int)>)
    requires |s| == 8 && (cx == 0 || cx == 1)
    ensures StepAsWritten(FillState(s, below + [(cx, 0)]), 2, 1, None, fill) == FillState(s, below)
  {
    assert 0 <= PixelOffset(2, cx, 0) && PixelOffset(2, cx, 0) + 3 < 8;
    assert (below + [(cx, 0)])[..|below|] == below;
  }

  /**
   * Seeded above a 2 x 1 canvas, the loop as written still has work on its
   * stack after any number of iterations: it never terminates.
   */
  lemma FillAsWrittenNeverEnds(s: seq<Byte>, fill: Rgba, n: nat)
    requires |s| == 8
    ensures |RunAsWritten(FillState(s, [(0, -1)]), 2, 1, None, fill, n).stack| > 0
  {
    FillAsWrittenCycles(s, fill, n);
  }

  // ---------------------------------------------------------------------
  // The loop as written, for a seed left or right of the grid
  // ---------------------------------------------------------------------

  /**
   * Row-major offsets wrap around between rows: column -1 of row y is the
   * last pixel of row y - 1, and column `width` of row y is the first
   * pixel of row y + 1. Reads and writes there hit real pixels.
   */
  lemma ColumnsWrapAround(s: seq<Byte>, width: int, height: int, y: int, c: Rgba)
    requires |s| == width * height * 4
    ensures ReadAsWritten(s, width, -1, y) == ReadAsWritten(s, width, width - 1, y - 1)
    ensures WriteAsWritten(s, width, -1, y, c) == WriteAsWritten(s, width, width - 1, y - 1, c)
    ensures ReadAsWritten(s, width, width, y) == ReadAsWritten(s, width, 0, y + 1)
    ensures WriteAsWritten(s, width, width, y, c) == WriteAsWritten(s, width, 0, y + 1, c)
    ensures 0 < width && 1 <= y < height ==>
      ReadAsWritten(s, width, -1, y) == Some(PixelAt(s, width, height, width - 1, y - 1))
    ensures 0 < width && 0 <= y < height - 1 ==>
      ReadAsWritten(s, width, width, y) == Some(PixelAt(s, width, height, 0, y + 1))
  {
    assert PixelOffset(width, -1, y) == PixelOffset(width, width - 1, y - 1);
    assert PixelOffset(width, width, y) == PixelOffset(width, 0, y + 1);
    if 0 < width && 1 <= y < height {
      OffsetInBuffer(width, height, width - 1, y - 1);
    }
    if 0 < width && 0 <= y < height - 1 {
      OffsetInBuffer(width, height, 0, y + 1);
    }
  }

  const OpaqueWhite := Rgba(255, 255, 255, 255)

  /** A 2 x 2 canvas, opaque white except the pixels numbered (row-major) in `painted`, which have colour c. */
  function Canvas2x2(c: Rgba, painted: set<int>): (s: seq<Byte>)
    ensures |s| == 16
  {
    seq(16, i requires 0 <= i < 16 => if i / 4 in painted then Channel(c, i % 4) else 255)
  }

  /** Reading pixel (x, y) of that canvas as the source does: pixel number y * 2 + x, or `undefined` outside the buffer. */
  lemma ReadCanvas2x2(c: Rgba, painted: set<int>, x: int, y: int)
    ensures ReadAsWritten(Canvas2x2(c, painted), 2, x, y)
            == if 0 <= y * 2 + x < 4 then Some(if y * 2 + x in painted then c else OpaqueWhite) else None
  {
    var k := y * 2 + x;
    var s := Canvas2x2(c, painted);
    assert PixelOffset(2, x, y) == k * 4;
    if 0 <= k < 4 {
      assert s[k * 4] == Channel(c, 0) || k !in painted;
      assert (k * 4 + 1) / 4 == k && (k * 4 + 2) / 4 == k && (k * 4 + 3) / 4 == k;
      assert (k * 4 + 1) % 4 == 1 && (k * 4 + 2) % 4 == 2 && (k * 4 + 3) % 4 == 3;
    }
  }

  /** Writing colour c at pixel (x, y) of that canvas paints pixel number y * 2 + x. */
  lemma WriteCanvas2x2(c: Rgba, painted: set<int>, x: int, y: int)
    requires 0 <= y * 2 + x < 4
    ensures WriteAsWritten(Canvas2x2(c, painted), 2, x, y, c) == Canvas2x2(c, painted + {y * 2 + x})
  {
    var k := y * 2 + x;
    var s := Canvas2x2(c, painted);
    var t := Canvas2x2(c, painted + {k});
    var w := WriteAsWritten(s, 2, x, y, c);
    assert PixelOffset(2, x, y) == k * 4;
    forall i | 0 <= i < 16
      ensures w[i] == t[i]
    {
      if i / 4 == k {
        assert i == k * 4 + i % 4;
      }
    }
  }

  /**
   * The states of the loop as written, seeded at (-1, 1) on a white 2 x 2
   * canvas: the seed reads as pixel (1, 0), and the loop spreads from
   * there over the whole canvas.
   */
  function LeftState(c: Rgba, k: nat): FillState
    requires k <= 9
  {
    if k == 0 then FillState(Canvas2x2(c, {}), [(-1, 1)])
    else if k == 1 then FillState(Canvas2x2(c, {1}), [(0, 1), (-1, 0)])
    else if k == 2 then FillState(Canvas2x2(c, {1}), [(0, 1)])
    else if k == 3 then FillState(Canvas2x2(c, {1, 2}), [(1, 1), (0, 0)])
    else if k == 4 then FillState(Canvas2x2(c, {0, 1, 2}), [(1, 1), (1, 0), (0, 1)])
    else if k == 5 then FillState(Canvas2x2(c, {0, 1, 2}), [(1, 1), (1, 0)])
    else if k == 6 then FillState(Canvas2x2(c, {0, 1, 2}), [(1, 1)])
    else if k == 7 then FillState(Canvas2x2(c, {0, 1, 2, 3}), [(0, 1), (1, 0)])
    else if k == 8 then FillState(Canvas2x2(c, {0, 1, 2, 3}), [(0, 1)])
    else FillState(Canvas2x2(c, {0, 1, 2, 3}), [])
  }

  /** An iteration that pops a white pixel of the 2 x 2 canvas paints it and pushes its neighbours. */
  lemma PaintStep2x2(c: Rgba, painted: set<int>, painted': set<int>, rest: seq<(int, int)>, x: int, y: int,
                     stack: seq<(int, int)>, next: seq<(int, int)>)
    requires 0 <= y * 2 + x < 4 && y * 2 + x !in painted
    requires stack == rest + [(x, y)] && painted' == painted + {y * 2 + x}
    requires next == rest + Neighbours(2, 2, x, y)
    ensures StepAsWritten(FillState(Canvas2x2(c, painted), stack), 2, 2, Some(OpaqueWhite), c)
            == FillState(Canvas2x2(c, painted'), next)
  {
    assert stack[..|rest|] == rest;
    ReadCanvas2x2(c, painted, x, y);
    WriteCanvas2x2(c, painted, x, y);
  }

  /** An iteration that pops a painted pixel, or a coordinate outside the buffer, only drops it. */
  lemma SkipStep2x2(c: Rgba, painted: set<int>, rest: seq<(int, int)>, x: int, y: int, stack: seq<(int, int)>)
    requires c != OpaqueWhite
    requires !(0 <= y * 2 + x < 4) || y * 2 + x in painted
    requires stack == rest + [(x, y)]
    ensures StepAsWritten(FillState(Canvas2x2(c, painted), stack), 2, 2, Some(OpaqueWhite), c)
            == FillState(Canvas2x2(c, painted), rest)
  {
    assert stack[..|rest|] == rest;
    ReadCanvas2x2(c, painted, x, y);
  }

  /** Each iteration of the loop as written moves one of those states to the next. */
  lemma LeftStep(c: Rgba, k: nat)
    requires c != OpaqueWhite && k < 9
    ensures |LeftState(c, k).stack| > 0
    ensures StepAsWritten(LeftState(c, k), 2, 2, Some(OpaqueWhite), c) == LeftState(c, k + 1)
  {
    if k < 4 {
      LeftStepsFirst(c, k);
    } else {
      LeftStepsLast(c, k);
    }
  }

  /** Iterations 1 to 4: paint (1, 0) through the seed, drop (-1, 0), paint (0, 1) and (0, 0). */
  lemma LeftStepsFirst(c: Rgba, k: nat)
    requires c != OpaqueWhite && k < 4
    ensures |LeftState(c, k).stack| > 0
    ensures StepAsWritten(LeftState(c, k), 2, 2, Some(OpaqueWhite), c) == LeftState(c, k + 1)
  {
    if k == 0 {
      PaintStep2x2(c, {}, {1}, [], -1, 1, [(-1, 1)], [(0, 1), (-1, 0)]);
    } else if k == 1 {
      SkipStep2x2(c, {1}, [(0, 1)], -1, 0, [(0, 1), (-1, 0)]);
    } else if k == 2 {
      PaintStep2x2(c, {1}, {1, 2}, [], 0, 1, [(0, 1)], [(1, 1), (0, 0)]);
    } else {
      PaintStep2x2(c, {1, 2}, {0, 1, 2}, [(1, 1)], 0, 0, [(1, 1), (0, 0)], [(1, 1), (1, 0), (0, 1)]);
    }
  }

  /** Iterations 5 to 9: drop (0, 1) and (1, 0), paint (1, 1), drop (1, 0) and (0, 1). */
  lemma LeftStepsLast(c: Rgba, k: nat)
    requires c != OpaqueWhite && 4 <= k < 9
    ensures |LeftState(c, k).stack| > 0
    ensures StepAsWritten(LeftState(c, k), 2, 2, Some(OpaqueWhite), c) == LeftState(c, k + 1)
  {
    if k == 4 {
      SkipStep2x2(c, {0, 1, 2}, [(1, 1), (1, 0)], 0, 1, [(1, 1), (1, 0), (0, 1)]);
    } else if k == 5 {
      SkipStep2x2(c, {0, 1, 2}, [(1, 1)], 1, 0, [(1, 1), (1, 0)]);
    } else if k == 6 {
      PaintStep2x2(c, {0, 1, 2}, {0, 1, 2, 3}, [], 1, 1, [(1, 1)], [(0, 1), (1, 0)]);
    } else if k == 7 {
      SkipStep2x2(c, {0, 1, 2, 3}, [(0, 1)], 1, 0, [(0, 1), (1, 0)]);
    } else {
      SkipStep2x2(c, {0, 1, 2, 3}, [], 0, 1, [(0, 1)]);
    }
  }

  /** n iterations from the seed (-1, 1) reach the n-th of those states. */
  lemma {:induction false} FillAsWrittenFromLeft(c: Rgba, n: nat)
    requires c != OpaqueWhite && n <= 9
    ensures RunAsWritten(LeftState(c, 0), 2, 2, Some(OpaqueWhite), c, n) == LeftState(c, n)
  {
    if n > 0 {
      var start := LeftState(c, 0);
      var prev := RunAsWritten(start, 2, 2, Some(OpaqueWhite), c, n - 1);
      var cur := LeftState(c, n - 1);
      var succ := LeftState(c, n);
      assert prev == cur by {
        FillAsWrittenFromLeft(c, n - 1);
      }
      assert |cur.stack| > 0 && StepAsWritten(cur, 2, 2, Some(OpaqueWhite), c) == succ by {
        LeftStep(c, n - 1);
      }
      assert RunAsWritten(start, 2, 2, Some(OpaqueWhite), c, n) == StepAsWritten(prev, 2, 2, Some(OpaqueWhite), c) by {
        RunLast(start, 2, 2, Some(OpaqueWhite), c, n);
      }
    }
  }

  /**
   * Seeded at (-1, 1) on a white 2 x 2 canvas, the loop as written takes
   * pixel (1, 0) as its target, stops after nine iterations and leaves
   * every pixel of the canvas with the fill colour, where a seed off the
   * canvas should fill nothing.
   */
  lemma FillAsWrittenLeftOfCanvas(c: Rgba)
    requires c != OpaqueWhite
    ensures ReadAsWritten(Canvas2x2(c, {}), 2, -1, 1) == Some(PixelAt(Canvas2x2(c, {}), 2, 2, 1, 0))
    ensures PixelAt(Canvas2x2(c, {}), 2, 2, 1, 0) == OpaqueWhite
    ensures RunAsWritten(FillState(Canvas2x2(c, {}), [(-1, 1)]), 2, 2, Some(OpaqueWhite), c, 9)
            == FillState(Canvas2x2(c, {0, 1, 2, 3}), [])
    ensures forall px, py | InGrid(2, 2, px, py) :: PixelAt(Canvas2x2(c, {0, 1, 2, 3}), 2, 2, px, py) == c
  {
    var blank := Canvas2x2(c, {});
    assert ReadAsWritten(blank, 2, -1, 1) == Some(PixelAt(blank, 2, 2, 1, 0)) by {
      ColumnsWrapAround(blank, 2, 2, 1, c);
    }
    assert PixelAt(blank, 2, 2, 1, 0) == OpaqueWhite by {
      ReadCanvas2x2(c, {}, 1, 0);
    }
    assert RunAsWritten(LeftState(c, 0), 2, 2, Some(OpaqueWhite), c, 9) == LeftState(c, 9) by {
      FillAsWrittenFromLeft(c, 9);
    }
    AllPainted2x2(c);
  }

  lemma AllPainted2x2(c: Rgba)
    ensures forall px, py | InGrid(2, 2, px, py) :: PixelAt(Canvas2x2(c, {0, 1, 2, 3}), 2, 2, px, py) == c
  {
    forall px, py | InGrid(2, 2, px, py)
      ensures PixelAt(Canvas2x2(c, {0, 1, 2, 3}), 2, 2, px, py) == c
    {
      ReadCanvas2x2(c, {0, 1, 2, 3}, px, py);
    }
  }
}
