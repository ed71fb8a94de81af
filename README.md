# Collaborative whiteboard: a verified model of its drawing and login logic

This project models the logic of a React whiteboard application in Dafny.
It covers two components.

- **The whiteboard** (`src/components/WhiteBoard.tsx`):
  - the bucket-fill tool: a stack-based flood fill over the canvas's RGBA bytes, with its pixel read and write helpers;
  - the conversion of the colour picker's `#rrggbb` code into an RGBA quadruple;
  - the undo / redo history of canvas snapshots;
  - the zoom buttons, clamped to [0.2, 5];
  - the pan offset accumulated while dragging with the grab tool;
  - the mouse-down / move / up / leave handlers that decide when a gesture is in progress, when the fill runs and when a snapshot is pushed.
- **The login page** (`src/components/LoginPage.tsx`):
  - the email rule (the address ends with `@gmail.com`);
  - the password pattern;
  - the form-validity flag;
  - the change handler, which derives the username from the email;
  - the log-in / sign-up toggle, which clears the form.

Modules, one file each:

| file | module | contents |
|---|---|---|
| `wrappers.dfy` | `Wrappers` | `Option` |
| `color.dfy` | `Color` | bytes, RGBA, `parseInt(s, 16)`, 32-bit shifts and masks, `hexToRgba`, the picker's colour codes |
| `flood_fill.dfy` | `FloodFill` | the in-place fill on an `array<Byte>`; the connected region it must paint; the loop as written for a seed off the canvas |
| `history.dfy` | `History` | `Save` / `Undo` / `Redo` as functions on the two stacks; the class `SnapshotHistory` whose methods update them in place |
| `viewport.dfy` | `Viewport` | zoom clamp; pan offset |
| `whiteboard.dfy` | `WhiteBoard` | the class `Session`: the component's state and its handlers |
| `login_page.dfy` | `LoginPage` | the validators and the record updates, as pure functions |

The flood fill is specified against a path-connectivity definition, `InRegion`. A pixel is in the region when a 4-connected path of pixels, all of the seed's original colour, leads to it from the seed. The method ensures that every pixel in the region becomes the fill colour and that every other pixel keeps its colour. The proof carries a loop invariant, `FillInvariant`. It says four things:
- every pixel painted so far lies in the region;
- every stacked coordinate is on the canvas, and those of the target colour lie in the region;
- every painted pixel's neighbours are either painted, off-colour or still on the stack;
- the seed is painted or still stacked.

Termination uses the number of pixels still of the target colour, then the stack length.

## Model

| member | source | states |
|---|---|---|
| Color.TrimStartSuffix | src/components/WhiteBoard.tsx:268 | parseInt first drops leading white space: the result is a suffix of the input, everything dropped is white space, and it does not start with white space |
| Color.HexPrefixMaximal | src/components/WhiteBoard.tsx:268 | parseInt reads the longest run of hex digits: every counted character is a hex digit, and the next one is not |
| Color.HexPrefixOfDigits | src/components/WhiteBoard.tsx:268 | a string made only of hex digits is read to its end |
| Color.ToInt32Wraps | src/components/WhiteBoard.tsx:269 | the operand of `>>` and `&` is the parsed value reduced to a signed 32-bit integer, congruent to it mod 2^32; NaN becomes 0 |
| Color.HexToRgba | src/components/WhiteBoard.tsx:267-270 | the alpha is always 255; an unparsable code gives opaque black |
| Color.HexValueOfSix | src/components/WhiteBoard.tsx:268 | six hex digits read as the three byte pairs weighted by 2^16, 2^8 and 1 |
| Color.ParseColorCodeBody | src/components/WhiteBoard.tsx:268 | parseInt of six hex digits is their hex value |
| Color.ExtractBytes | src/components/WhiteBoard.tsx:269 | `>> 16 & 255`, `>> 8 & 255` and `& 255` recover the three bytes of r·2^16 + g·2^8 + b |
| Color.ColorCodeValue | src/components/WhiteBoard.tsx:268 | parsing the six digits after `#` gives r·2^16 + g·2^8 + b, where r, g and b are the three digit pairs |
| Color.HexToRgbaOfValue | src/components/WhiteBoard.tsx:267-270 | when the digits parse to a value below 2^31, the channels are its bits 16-23, 8-15 and 0-7, and the alpha is 255 |
| Color.HexToRgbaOfColorCode | src/components/WhiteBoard.tsx:267-270 | for any `#` followed by six hex digits, the channels are the three digit pairs and the alpha is 255 |
| Color.FormatHex | src/components/WhiteBoard.tsx:420 | the picker's code for (r, g, b) is `#` and six hex digits whose pairs are r, g and b |
| Color.HexToRgbaRoundTrip | src/components/WhiteBoard.tsx:267-270 | converting the picker's code for (r, g, b) gives back (r, g, b, 255) |
| FloodFill.RowMajorBounds | src/components/WhiteBoard.tsx:284 | a pixel on the canvas has a row-major index in [0, width·height) |
| FloodFill.RowMajorInjective | src/components/WhiteBoard.tsx:284 | two pixels on the canvas with the same index are the same pixel |
| FloodFill.OffsetInBuffer | src/components/WhiteBoard.tsx:284 | all four bytes of a pixel on the canvas lie inside the buffer |
| FloodFill.ByteInPixel | src/components/WhiteBoard.tsx:284 | every byte of the buffer belongs to the pixel whose offset is that byte's index rounded down to a multiple of 4 |
| FloodFill.SamePixelsSameBuffer | src/components/WhiteBoard.tsx:280-286 | two buffers that agree at every pixel are equal byte for byte |
| FloodFill.SetPixel | src/components/WhiteBoard.tsx:288-295 | the four bytes at the pixel's offset become the colour and every other byte is kept, so that pixel alone changes |
| FloodFill.SeedInRegion | src/components/WhiteBoard.tsx:297-300 | the seed belongs to its own region |
| FloodFill.RegionHasSeedColor | src/components/WhiteBoard.tsx:302-304 | every pixel of the region is on the canvas and has the seed's colour |
| FloodFill.RegionExtends | src/components/WhiteBoard.tsx:308-311 | an on-canvas neighbour of the seed's colour of a region pixel is in the region |
| FloodFill.NeighboursExact | src/components/WhiteBoard.tsx:308-311 | for a pixel on the canvas, the pushed coordinates are on the canvas and adjacent to it, and every adjacent on-canvas pixel is pushed |
| FloodFill.PushIfAppends | src/components/WhiteBoard.tsx:308-311 | a guarded push appends the coordinate when the guard holds and nothing otherwise |
| FloodFill.PushNeighboursAppends | src/components/WhiteBoard.tsx:308-311 | the four guarded pushes append exactly the on-canvas neighbours, in source order |
| FloodFill.FillInvariantInit | src/components/WhiteBoard.tsx:297-300 | the loop invariant holds with only the seed stacked |
| FloodFill.CoveredWithout | src/components/WhiteBoard.tsx:302-304 | a popped coordinate of another colour is not needed to keep the invariant |
| FloodFill.FillInvariantSkip | src/components/WhiteBoard.tsx:302-304 | the `continue` branch keeps the invariant |
| FloodFill.FillInvariantPaint | src/components/WhiteBoard.tsx:305-311 | painting the popped pixel and pushing its neighbours keeps the invariant |
| FloodFill.PaintStackEntries | src/components/WhiteBoard.tsx:308-311 | after the pushes, every stacked coordinate is on the canvas, and those of the target colour lie in the region |
| FloodFill.PaintKeepsCovered | src/components/WhiteBoard.tsx:305-311 | a coordinate that was stacked or off-colour before the paint still is afterwards |
| FloodFill.NeighboursInNext | src/components/WhiteBoard.tsx:308-311 | after the pushes, every on-canvas neighbour of the painted pixel is on the stack |
| FloodFill.PaintAndPush | src/components/WhiteBoard.tsx:305-311 | the popped pixel alone takes the fill colour, every other pixel keeps its colour, and the stack grows by exactly its on-canvas neighbours in source order |
| FloodFill.PathPainted | src/components/WhiteBoard.tsx:301-312 | when the stack is empty, every pixel on a region path from the seed is painted |
| FloodFill.FillInvariantDone | src/components/WhiteBoard.tsx:301-312 | when the stack is empty, region pixels have the fill colour and all others keep their original colour |
| FloodFill.PaintShrinksTargetPixels | src/components/WhiteBoard.tsx:301-312 | painting a target-coloured pixel reduces the number of target-coloured pixels, so the loop terminates |
| FloodFill.RegionAlreadyFilled | src/components/WhiteBoard.tsx:297-298 | when the seed already has the fill colour, the whole region has it |
| FloodFill.FloodFill | src/components/WhiteBoard.tsx:272-313 | a region pixel ends with the fill colour and every other pixel is as before; a seed already of the fill colour, or off the canvas, leaves the buffer unchanged; the seed ends filled |
| FloodFill.RunLast | src/components/WhiteBoard.tsx:301-312 | while the stack is non-empty, n iterations are n − 1 iterations followed by one more |
| FloodFill.StepFromAbove | src/components/WhiteBoard.tsx:302-311 | on a 2 x 1 canvas, for a coordinate in row -1 the loop as written reads `undefined`, matches the `undefined` target, leaves the buffer as it is and pushes the coordinates beside and below |
| FloodFill.StepOnCanvas | src/components/WhiteBoard.tsx:302-304 | on a 2 x 1 canvas, a real pixel never equals the `undefined` target, so it is popped and skipped |
| FloodFill.CycleSteps | src/components/WhiteBoard.tsx:301-312 | on a 2 x 1 canvas with target `undefined`, the four single iterations from [(0,-1)], [(1,-1),(0,0)], [(1,-1)] and [(0,-1),(1,0)] each lead to the next, and the last back to the first |
| FloodFill.CycleNext | src/components/WhiteBoard.tsx:301-312 | each of those four states has a non-empty stack, and one iteration moves it to the next state of the cycle |
| FloodFill.FillAsWrittenCycles | src/components/WhiteBoard.tsx:297-312 | on a 2 x 1 canvas seeded at (0, -1), the target is `undefined`, and after n iterations the state is the (n mod 4)-th of that four-state cycle, leaving the buffer unchanged |
| FloodFill.ColumnsWrapAround | src/components/WhiteBoard.tsx:280-295 | getPixel and setPixel at column -1 of row y address the last pixel of row y - 1, and at column `width` the first pixel of row y + 1; on the canvas these are real pixels |
| FloodFill.ReadCanvas2x2 | src/components/WhiteBoard.tsx:280-286 | on a white 2 x 2 canvas with some pixels painted, getPixel(x, y) gives pixel number 2y + x, painted or white, and `undefined` outside the buffer |
| FloodFill.WriteCanvas2x2 | src/components/WhiteBoard.tsx:288-295 | on that canvas, setPixel(x, y) with the fill colour paints pixel number 2y + x and nothing else |
| FloodFill.PaintStep2x2 | src/components/WhiteBoard.tsx:301-311 | popping a white pixel of that canvas paints it and pushes its neighbours in source order |
| FloodFill.SkipStep2x2 | src/components/WhiteBoard.tsx:301-304 | popping a painted pixel, or a coordinate outside the buffer, only drops it |
| FloodFill.LeftStep | src/components/WhiteBoard.tsx:301-311 | from the seed (-1, 1) each of the nine iterations moves one listed state to the next |
| FloodFill.LeftStepsFirst | src/components/WhiteBoard.tsx:301-311 | iterations 1 to 4: the seed paints pixel (1, 0) and pushes (0, 1) and (-1, 0); (-1, 0) reads `undefined` and is dropped; then (0, 1) and (0, 0) are painted |
| FloodFill.LeftStepsLast | src/components/WhiteBoard.tsx:301-311 | iterations 5 to 9: the painted (0, 1) and (1, 0) are dropped, (1, 1) is painted, then the painted (1, 0) and (0, 1) are dropped, leaving the stack empty |
| FloodFill.FillAsWrittenFromLeft | src/components/WhiteBoard.tsx:297-312 | after n ≤ 9 iterations from the seed (-1, 1), the state is the n-th listed state |
| FloodFill.AllPainted2x2 | src/components/WhiteBoard.tsx:280-286 | on the fully painted 2 x 2 canvas every pixel reads as the fill colour |
| FloodFill.FillAsWrittenLeftOfCanvas | src/components/WhiteBoard.tsx:280-312 | on a white 2 x 2 canvas seeded at (-1, 1), the target is the real pixel (1, 0); after nine iterations the stack is empty and every pixel has the fill colour |
| FloodFill.FillAsWrittenNeverEnds | src/components/WhiteBoard.tsx:301-312 | from that seed the stack is non-empty after any number of iterations: the loop as written does not terminate |
| History.Save | src/components/WhiteBoard.tsx:188-194 | the snapshot is appended to the history, earlier entries are kept, and the redo stack is cleared |
| History.Undo | src/components/WhiteBoard.tsx:210-214 | with one entry or none, nothing changes; otherwise the top entry of the history moves to the top of the redo stack and everything else stays in place; the first entry is never removed |
| History.Redo | src/components/WhiteBoard.tsx:216-219 | with an empty redo stack, nothing changes; otherwise the top entry of the redo stack moves back to the top of the history and everything else stays in place; the first entry is kept |
| History.RedoAfterUndo | src/components/WhiteBoard.tsx:210-219 | with more than one entry, redo after undo restores both stacks |
| History.UndoAfterRedo | src/components/WhiteBoard.tsx:210-219 | with a history and a pending redo, undo after redo restores both stacks |
| History.UndoAfterSave | src/components/WhiteBoard.tsx:188-214 | undoing a fresh save leaves the old history and only that snapshot to redo |
| History.FirstEntryKept | src/components/WhiteBoard.tsx:188-219 | for any sequence of saves, undos and redos, a non-empty history stays non-empty and keeps its first (blank-canvas) entry |
| History.SnapshotHistory.constructor | src/components/WhiteBoard.tsx:25-26 | both stacks start empty |
| History.SnapshotHistory.SaveCanvasState | src/components/WhiteBoard.tsx:188-194 | the stacks become `Save` of the old stacks |
| History.SnapshotHistory.HandleUndo | src/components/WhiteBoard.tsx:210-214 | the stacks become `Undo` of the old stacks |
| History.SnapshotHistory.HandleRedo | src/components/WhiteBoard.tsx:216-225 | the stacks become `Redo` of the old stacks |
| Viewport.ZoomIn | src/components/WhiteBoard.tsx:384 | the result is at most 5; it is the old zoom plus 0.1 when that is at most 5, and 5 otherwise; it stays in range and never decreases |
| Viewport.ZoomOut | src/components/WhiteBoard.tsx:388 | the result is at least 0.2; it is the old zoom minus 0.1 when that is at least 0.2, and 0.2 otherwise; it stays in range and never increases |
| Viewport.ZoomStaysInRange | src/components/WhiteBoard.tsx:384-388 | any sequence of zoom clicks keeps the zoom in [0.2, 5] |
| Viewport.RepeatedZoomIn | src/components/WhiteBoard.tsx:384 | n zoom-in clicks give min(5, z + n/10) |
| Viewport.RepeatedZoomOut | src/components/WhiteBoard.tsx:388 | n zoom-out clicks give max(0.2, z − n/10) |
| Viewport.PanTotalDisplacement | src/components/WhiteBoard.tsx:99-104 | after a drag through several pointer positions, the offset has moved by the last position minus the press position |
| WhiteBoard.Session.constructor | src/components/WhiteBoard.tsx:40-57 | mounting on the draw tab with a context paints the canvas white and records one blank snapshot; the initial tool, colour, brush size, zoom and offset are pencil, black, 4, 1 and (0, 0), and the context's line width and stroke style are 1 and black |
| WhiteBoard.Session.SelectTool | src/components/WhiteBoard.tsx:379 | only the tool changes |
| WhiteBoard.Session.SelectColor | src/components/WhiteBoard.tsx:420 | only the colour changes |
| WhiteBoard.Session.SelectBrushSize | src/components/WhiteBoard.tsx:402-407 | only the brush size changes, within 1 to 30 |
| WhiteBoard.Session.ZoomIn | src/components/WhiteBoard.tsx:384 | the zoom becomes `Viewport.ZoomIn` of the old zoom; nothing else changes |
| WhiteBoard.Session.ZoomOut | src/components/WhiteBoard.tsx:388 | the zoom becomes `Viewport.ZoomOut` of the old zoom; nothing else changes |
| WhiteBoard.Session.Undo | src/components/WhiteBoard.tsx:392 | the stacks become `Undo` of the old stacks |
| WhiteBoard.Session.Redo | src/components/WhiteBoard.tsx:396 | the stacks become `Redo` of the old stacks |
| WhiteBoard.Session.SelectTab | src/components/WhiteBoard.tsx:40-57 | re-entering the draw tab clears the canvas (to white when there is a context), resets the line width to 1 and the stroke style to black, and pushes a blank snapshot when there is a context; any other tab click changes only the tab |
| WhiteBoard.Session.StartDrawing | src/components/WhiteBoard.tsx:73-92 | with grab, a drag starts at the client position; otherwise a gesture starts at the canvas position, with line width 1 for the pencil and the brush size otherwise, and white stroke for the eraser and the colour otherwise; off the draw tab, nothing changes |
| WhiteBoard.Session.Draw | src/components/WhiteBoard.tsx:94-112 | while dragging with grab and a context, the offset moves by the pointer delta and the drag start follows the pointer; otherwise only rendering happens and no state changes |
| WhiteBoard.Session.StopDrawing | src/components/WhiteBoard.tsx:114-186 | with grab, only the drag ends; without a gesture, nothing changes; otherwise the gesture ends, and with a context the fill tool fills the region at the pointer with the picked colour, one snapshot is pushed, the redo stack is cleared and the press position is forgotten |
| WhiteBoard.MouseUpThenLeave | src/components/WhiteBoard.tsx:454-455 | a mouse up followed by a mouse leave pushes exactly one snapshot |
| LoginPage.EmailValidIff | src/components/LoginPage.tsx:20 | an email is valid exactly when it is some string followed by `@gmail.com` |
| LoginPage.DotStarThenIff | src/components/LoginPage.tsx:22 | a lookahead `.*[k]` matches exactly when a character of class k occurs before any line terminator |
| LoginPage.RepeatToEndIff | src/components/LoginPage.tsx:22 | `[k]{min,}$` matches exactly when there are at least min characters, all of class k |
| LoginPage.ContainsBeforeTerminator | src/components/LoginPage.tsx:22 | over allowed characters, a lookahead reduces to "contains a character of the class" |
| LoginPage.PasswordValidIff | src/components/LoginPage.tsx:21-24 | the pattern accepts exactly when all four rules hold: at least 8 characters, a digit, one of `!@#$%^&*`, and only letters, digits and those specials |
| LoginPage.PasswordValidImplies | src/components/LoginPage.tsx:21-24 | an accepted password has at least 8 characters, a digit and a special character |
| LoginPage.FormValidIff | src/components/LoginPage.tsx:25 | the submit button is enabled exactly when the email is `<local>@gmail.com` and the password meets the four rules |
| LoginPage.UsernamePart | src/components/LoginPage.tsx:34 | the derived username is a prefix of the value without `@`, and is either the whole value or followed by `@` |
| LoginPage.UsernamePartUnique | src/components/LoginPage.tsx:34 | those three properties determine the derived username |
| LoginPage.HandleChange | src/components/LoginPage.tsx:30-46 | an email change sets the email and the username before the first `@` and keeps the password; a username or password change sets that field only |
| LoginPage.GmailUsername | src/components/LoginPage.tsx:33-39 | typing `<local>@gmail.com`, with no `@` in local, gives a valid email and sets the username to local |
| LoginPage.ToggleMode | src/components/LoginPage.tsx:135-138 | the mode flips, all three fields become empty, and the form is then invalid |

## Left out

- Canvas rendering: the strokes, shape outlines (circle, rectangle, pentagon) and text leave the modelled pixel buffer as it is. Only the fill and a tab change write it. `lineCap`, `lineJoin`, `globalAlpha`, `font` and `fillStyle` are not modelled; `lineWidth` and `strokeStyle` are.
- Snapshots: `canvas.toDataURL()` is not modelled. Each handler that pushes a snapshot receives it as a parameter, so the history holds values of an arbitrary type.
- The redraw after undo and redo loads images asynchronously. The model does not capture its effect on the pixels.
- The text tool's `prompt` is interactive input and is not modelled. As in the code, a snapshot is pushed whether or not text was entered.
- React's deferred state updates: the model applies each handler's updates at once, including the offset update in `draw`.
- Zoom: JavaScript's binary floating-point is modelled as exact reals. So `z + 0.1` has no rounding error, and `Viewport.RepeatedZoomIn` holds exactly, where the browser gives an approximation.
- Pointer coordinates are modelled as integers. The browser's `offsetX` and `offsetY` can be fractional. A non-integral index reads `undefined` and writes nothing, but some fractional coordinates still give an integral index (for example x = 10.5 with y integral gives 4·y·width + 42), and the fill then reads and writes real bytes at positions not aligned to a pixel. None of this is modelled.
- Viewport.PanStep: no contract of its own. Its meaning is stated by `Viewport.PanTotalDisplacement` over a whole drag.
- The canvas size is fixed at mount. A re-entry into the draw tab re-reads the element's client size; the model keeps the first size.
- The colour picker: the model assumes it delivers a `#rrggbb` code, which `Color.FormatHex` produces. Its popup and the click-outside handler that closes it are not modelled. Neither are the cursor choice (`getCursor`), the file-upload panel, the PNG download (`handleSaveCanvas` with `saveAs`) or the profile initial.
- parseInt: parsed values of 2^53 or more (14 or more significant hex digits) are rounded in the browser, and values of 2^1024 or more become Infinity, which ToInt32 maps to 0. The model reads every digit string exactly, so only `Color.HexToRgba` on such long inputs is affected.
- `handleSubmit` on the login page navigates to the whiteboard and logs to the console. It has no other logic and is not modelled. The conditional error messages under the email and password inputs are not modelled either.
- `src/App.tsx` holds only route declarations and is not part of this model.

## Findings

| source | as written | input that shows it | evidently intended | confidence | as-written member | corrected member |
|---|---|---|---|---|---|---|
| src/components/WhiteBoard.tsx:297-312 | `floodFill` never checks that the seed is on the canvas. Reads outside the typed array give `undefined`, all such reads compare equal to the target, and writes there are ignored. So coordinates above or below the canvas are popped, "painted" and pushed again forever. `stopDrawing` is also the mouse-leave handler, so with the fill tool, pressing inside the canvas and leaving through its top or bottom edge reaches this with a seed row of -1 or height | a 2 x 1 canvas, seed (0, -1): the stack cycles [(0,-1)] → [(1,-1),(0,0)] → [(1,-1)] → [(0,-1),(1,0)] → [(0,-1)] | a seed above or below the canvas fills nothing and returns | high (not executed) | FloodFill.FillAsWrittenNeverEnds | FloodFill.FloodFill |
| src/components/WhiteBoard.tsx:280-295 | getPixel and setPixel compute the index `(y * width + x) * 4` without checking x. So column -1 of row y is the last pixel of row y - 1, and column `width` is the first pixel of row y + 1. A seed just left or right of the canvas takes that pixel's colour as the target, paints it, and spreads from it through the pushes at lines 308-311. `stopDrawing` also runs on mouse leave, so leaving through the left or right edge with the fill tool can reach this | a white 2 x 2 canvas, seed (-1, 1): the target is pixel (1, 0), and after nine iterations the whole canvas has the fill colour | a seed left or right of the canvas fills nothing and returns | high (not executed) | FloodFill.FillAsWrittenLeftOfCanvas | FloodFill.FloodFill |
