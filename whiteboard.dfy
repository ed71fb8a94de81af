/**
 * The whiteboard component's state and its pointer handlers. The handlers
 * (startDrawing, draw, stopDrawing on mouse down, move, up and leave)
 * decide when a gesture is in progress, when the pan offset moves, when
 * the fill runs and when a snapshot is pushed. Canvas drawing calls that
 * only render strokes, shapes or text leave the modelled buffer as it is.
 */
module WhiteBoard {
  import opened Wrappers
  import opened Color
  import FloodFill
  import opened History
  import Viewport

  datatype Tool = Pencil | Brush | Eraser | Text | Circle | Rectangle | Polygon | Grab | Fill

  datatype Tab = FileTab | DrawTab

  predicate IsShape(t: Tool) {
    t == Circle || t == Rectangle || t == Polygon
  }

  const Black: string := "#000000"
  const White: string := "#ffffff"

  /**
   * One mounted whiteboard. `hasContext` says whether the canvas yielded a
   * 2D context; without one every drawing operation does nothing. The
   * snapshot type `S` stands for the data URLs the canvas serialises to;
   * each snapshot is passed in by the caller.
   */
  class Session<S> {
    var activeTab: Tab
    var tool: Tool
    var color: string
    var brushSize: int
    var isDrawing: bool
    var mouseDownPosition: Option<Viewport.Point>
    var dragging: bool
    var dragStart: Option<Viewport.Point>
    var zoom: real
    var offset: Viewport.Point
    /** The context's `lineWidth` and `strokeStyle`. */
    var lineWidth: int
    var strokeStyle: string
    const hasContext: bool
    const width: nat
    const height: nat
    /** The canvas's RGBA bytes, as getImageData / putImageData see them. */
    const pixels: array<Byte>
    const snapshots: SnapshotHistory<S>

    ghost predicate Valid()
      reads this, snapshots
    {
      && pixels.Length == width * height * 4
      && Viewport.InZoomRange(zoom)
      && 1 <= brushSize <= 30
      && (hasContext ==> |snapshots.history| >= 1)
    }

    /** Mounting on the draw tab: size the canvas, paint it white and record the blank snapshot. */
    constructor (width: nat, height: nat, hasContext: bool, blank: S)
      ensures Valid() && fresh(pixels) && fresh(snapshots)
      ensures this.width == width && this.height == height && this.hasContext == hasContext
      ensures activeTab == DrawTab && tool == Pencil && color == Black && brushSize == 4
      ensures !isDrawing && mouseDownPosition == None && !dragging && dragStart == None
      ensures zoom == Viewport.InitialZoom && offset == Viewport.Point(0, 0)
      ensures lineWidth == 1 && strokeStyle == Black
      ensures hasContext ==> forall i | 0 <= i < pixels.Length :: pixels[i] == 255
      ensures snapshots.redoStack == []
      ensures snapshots.history == if hasContext then [blank] else []
    {
      var h := new SnapshotHistory<S>();
      if hasContext {
        h.SaveCanvasState(blank);
      }
      this.width, this.height, this.hasContext := width, height, hasContext;
      pixels := new Byte[width * height * 4](_ => if hasContext then 255 else 0);
      snapshots := h;
      activeTab, tool, color, brushSize := DrawTab, Pencil, Black, 4;
      isDrawing, mouseDownPosition, dragging, dragStart := false, None, false, None;
      zoom, offset := Viewport.InitialZoom, Viewport.Point(0, 0);
      lineWidth, strokeStyle := 1, Black;
    }

    method SelectTool(t: Tool)
      requires Valid()
      modifies this
      ensures Valid() && tool == t
      ensures unchanged(this`activeTab, this`color, this`brushSize, this`isDrawing, this`mouseDownPosition)
      ensures unchanged(this`dragging, this`dragStart, this`zoom, this`offset, this`lineWidth, this`strokeStyle)
    {
      tool := t;
    }

    /** The colour picker's `onChange`: the new colour code is taken as given. */
    method SelectColor(hex: string)
      requires Valid()
      modifies this
      ensures Valid() && color == hex
      ensures unchanged(this`activeTab, this`tool, this`brushSize, this`isDrawing, this`mouseDownPosition)
      ensures unchanged(this`dragging, this`dragStart, this`zoom, this`offset, this`lineWidth, this`strokeStyle)
    {
      color := hex;
    }

    /** The brush-size slider, whose range is 1 to 30. */
    method SelectBrushSize(size: int)
      requires Valid() && 1 <= size <= 30
      modifies this
      ensures Valid() && brushSize == size
      ensures unchanged(this`activeTab, this`tool, this`color, this`isDrawing, this`mouseDownPosition)
      ensures unchanged(this`dragging, this`dragStart, this`zoom, this`offset, this`lineWidth, this`strokeStyle)
    {
      brushSize := size;
    }

    method ZoomIn()
      requires Valid()
      modifies this
      ensures Valid() && zoom == Viewport.ZoomIn(old(zoom))
      ensures unchanged(this`activeTab, this`tool, this`color, this`brushSize, this`isDrawing, this`mouseDownPosition)
      ensures unchanged(this`dragging, this`dragStart, this`offset, this`lineWidth, this`strokeStyle)
    {
      zoom := Viewport.ZoomIn(zoom);
    }

    method ZoomOut()
      requires Valid()
      modifies this
      ensures Valid() && zoom == Viewport.ZoomOut(old(zoom))
      ensures unchanged(this`activeTab, this`tool, this`color, this`brushSize, this`isDrawing, this`mouseDownPosition)
      ensures unchanged(this`dragging, this`dragStart, this`offset, this`lineWidth, this`strokeStyle)
    {
      zoom := Viewport.ZoomOut(zoom);
    }

    /** The undo button; the asynchronous redraw of the canvas is not modelled. */
    method Undo()
      requires Valid()
      modifies snapshots
      ensures Valid() && snapshots.Value() == History.Undo(old(snapshots.Value()))
    {
      snapshots.HandleUndo();
    }

    /** The redo button; the asynchronous redraw of the canvas is not modelled. */
    method Redo()
      requires Valid()
      modifies snapshots
      ensures Valid() && snapshots.Value() == History.Redo(old(snapshots.Value()))
    {
      snapshots.HandleRedo();
    }

    /**
     * Switching tabs. Entering the draw tab re-runs the mount effect:
     * resizing the canvas clears it and resets the context's state, so the
     * line width is 1 and the stroke style black again; with a context the
     * canvas is painted white and a new blank snapshot is pushed.
     */
    method SelectTab(tab: Tab, blank: S)
      requires Valid()
      modifies this, snapshots, pixels
      ensures Valid() && activeTab == tab
      ensures unchanged(this`tool, this`color, this`brushSize, this`isDrawing, this`mouseDownPosition)
      ensures unchanged(this`dragging, this`dragStart, this`zoom, this`offset)
      ensures tab == old(activeTab) || tab == FileTab ==>
        && unchanged(this`lineWidth, this`strokeStyle)
        && unchanged(snapshots) && pixels[..] == old(pixels[..])
      ensures tab != old(activeTab) && tab == DrawTab ==>
        && lineWidth == 1 && strokeStyle == Black
        && (forall i | 0 <= i < pixels.Length :: pixels[i] == if hasContext then 255 else 0)
        && snapshots.Value() == if hasContext then Save(old(snapshots.Value()), blank) else old(snapshots.Value())
    {
      if tab == activeTab {
        return;
      }
      activeTab := tab;
      if tab == DrawTab {
        lineWidth, strokeStyle := 1, Black;
        var v: Byte := if hasContext then 255 else 0;
        forall i | 0 <= i < pixels.Length {
          pixels[i] := v;
        }
        if hasContext {
          snapshots.SaveCanvasState(blank);
        }
      }
    }

    /** Mouse down on the canvas; `offset…` is canvas-relative, `client…` is window-relative. */
    method StartDrawing(offsetX: int, offsetY: int, clientX: int, clientY: int)
      requires Valid()
      modifies this
      ensures Valid()
      ensures unchanged(this`activeTab, this`tool, this`color, this`brushSize, this`zoom, this`offset)
      ensures old(activeTab) != DrawTab ==> unchanged(this)
      ensures activeTab == DrawTab && tool == Grab ==>
        && dragging && dragStart == Some(Viewport.Point(clientX, clientY))
        && unchanged(this`isDrawing, this`mouseDownPosition, this`lineWidth, this`strokeStyle)
      ensures activeTab == DrawTab && tool != Grab ==>
        && isDrawing && mouseDownPosition == Some(Viewport.Point(offsetX, offsetY))
        && unchanged(this`dragging, this`dragStart)
        && (hasContext ==> lineWidth == (if tool == Pencil then 1 else brushSize)
                           && strokeStyle == (if tool == Eraser then White else color))
        && (!hasContext ==> unchanged(this`lineWidth, this`strokeStyle))
    {
      if activeTab != DrawTab {
        return;
      }
      if tool == Grab {
        dragging := true;
        dragStart := Some(Viewport.Point(clientX, clientY));
        return;
      }
      isDrawing := true;
      mouseDownPosition := Some(Viewport.Point(offsetX, offsetY));
      if !hasContext {
        return;
      }
      lineWidth := if tool == Pencil then 1 else brushSize;
      strokeStyle := if tool == Eraser then White else color;
    }

    /** Mouse move: pans while grabbing; a freehand stroke only renders. */
    method Draw(offsetX: int, offsetY: int, clientX: int, clientY: int)
      requires Valid()
      modifies this
      ensures Valid()
      ensures unchanged(this`activeTab, this`tool, this`color, this`brushSize, this`zoom, this`isDrawing)
      ensures unchanged(this`mouseDownPosition, this`dragging, this`lineWidth, this`strokeStyle)
      ensures if activeTab == DrawTab && hasContext && tool == Grab && dragging && old(dragStart).Some?
              then offset == Viewport.PanStep(old(offset), old(dragStart).value, Viewport.Point(clientX, clientY))
                   && dragStart == Some(Viewport.Point(clientX, clientY))
              else unchanged(this`offset, this`dragStart)
    {
      if activeTab != DrawTab || !hasContext {
        return;
      }
      if tool == Grab && dragging && dragStart.Some? {
        offset := Viewport.PanStep(offset, dragStart.value, Viewport.Point(clientX, clientY));
        dragStart := Some(Viewport.Point(clientX, clientY));
        return;
      }
    }

    /**
     * Mouse up or mouse leave. With the grab tool it only ends the drag.
     * Otherwise, if a gesture is in progress, it ends it and, given a
     * context, runs the fill for the fill tool, pushes `snap` (the canvas
     * as serialised afterwards) and forgets the press position.
     */
    method StopDrawing(offsetX: int, offsetY: int, snap: S)
      requires Valid()
      modifies this, snapshots, pixels
      ensures Valid()
      ensures unchanged(this`activeTab, this`tool, this`color, this`brushSize, this`zoom, this`offset, this`dragStart)
      ensures old(activeTab) != DrawTab || (tool != Grab && !old(isDrawing)) ==>
        unchanged(this) && unchanged(snapshots) && pixels[..] == old(pixels[..])
      ensures activeTab == DrawTab && tool == Grab ==>
        && !dragging
        && unchanged(this`isDrawing, this`mouseDownPosition, this`lineWidth, this`strokeStyle)
        && unchanged(snapshots) && pixels[..] == old(pixels[..])
      ensures activeTab == DrawTab && tool != Grab && old(isDrawing) ==> !isDrawing && unchanged(this`dragging)
      ensures activeTab == DrawTab && tool != Grab && old(isDrawing) && !hasContext ==>
        && unchanged(this`mouseDownPosition, this`lineWidth, this`strokeStyle)
        && unchanged(snapshots) && pixels[..] == old(pixels[..])
      ensures activeTab == DrawTab && tool != Grab && old(isDrawing) && hasContext ==>
        && snapshots.Value() == Save(old(snapshots.Value()), snap)
        && mouseDownPosition == None
        && (if IsShape(tool) && old(mouseDownPosition).Some?
            then lineWidth == brushSize && strokeStyle == color
            else unchanged(this`lineWidth, this`strokeStyle))
        && (tool != Fill ==> pixels[..] == old(pixels[..]))
        && (tool == Fill ==>
              forall px, py | FloodFill.InGrid(width, height, px, py) ::
                FloodFill.PixelAt(pixels[..], width, height, px, py)
                == if FloodFill.InRegion(old(pixels[..]), width, height, offsetX, offsetY, px, py)
                   then HexToRgba(color)
                   else FloodFill.PixelAt(old(pixels[..]), width, height, px, py))
    {
      if activeTab != DrawTab {
        return;
      }
      if tool == Grab {
        dragging := false;
        return;
      }
      if !isDrawing {
        return;
      }
      isDrawing := false;
      if !hasContext {
        return;
      }
      if IsShape(tool) && mouseDownPosition.Some? {
        // the circle, rectangle or pentagon outline is stroked here
        strokeStyle := color;
        lineWidth := brushSize;
      }
      // the text tool prompts for a string and renders it here
      if tool == Fill {
        FloodFill.FloodFill(pixels, width, height, offsetX, offsetY, HexToRgba(color));
      }
      snapshots.SaveCanvasState(snap);
      mouseDownPosition := None;
    }
  }

  /**
   * Mouse up followed at once by mouse leave: the leave finds no gesture in
   * progress, so the pair pushes exactly one snapshot.
   */
  method MouseUpThenLeave<S>(board: Session<S>, x: int, y: int, snap: S, leaveSnap: S)
    requires board.Valid() && board.activeTab == DrawTab && board.tool != Grab
    requires board.isDrawing && board.hasContext
    modifies board, board.snapshots, board.pixels
    ensures board.Valid() && !board.isDrawing
    ensures board.snapshots.Value() == Save(old(board.snapshots.Value()), snap)
  {
    board.StopDrawing(x, y, snap);
    board.StopDrawing(x, y, leaveSnap);
  }
}
