/**
 * The collaborative drawing board (`drawing-board.tsx`): a pen stroke
 * starts on mouse-down, grows on mouse-move and is committed as a line on
 * mouse-up or mouse-leave; "clear" wipes the canvas; a simulated
 * collaborator now and then appends a line of its own. Pointer positions
 * arrive already converted to canvas coordinates, and the collaborator's
 * random choices are inputs.
 */
module DrawingBoard {

  datatype Tool = Pen | Pointer

  datatype Point = Point(x: real, y: real, color: string, size: nat)

  datatype Line = Line(points: seq<Point>, color: string, size: nat)

  datatype Board = Board(isDrawing: bool, lines: seq<Line>, currentLine: seq<Point>,
                         color: string, size: nat, tool: Tool)

  /** The board as mounted: violet pen of size 3, nothing drawn. */
  const Mounted: Board := Board(false, [], [], "#8b5cf6", 3, Pen)

  /** `startDrawing`: with the pen, a new stroke of one point in the current colour and size. */
  function StartDrawing(b: Board, x: real, y: real): (r: Board)
    ensures b.tool == Pointer ==> r == b
    ensures b.tool == Pen ==> r == b.(isDrawing := true, currentLine := [Point(x, y, b.color, b.size)])
  {
    if b.tool != Pen then b
    else b.(isDrawing := true, currentLine := [Point(x, y, b.color, b.size)])
  }

  /** `draw`: while a pen stroke is in progress, one more point. */
  function Draw(b: Board, x: real, y: real): (r: Board)
    ensures !(b.isDrawing && b.tool == Pen) ==> r == b
    ensures b.isDrawing && b.tool == Pen ==>
              && r.currentLine == b.currentLine + [Point(x, y, b.color, b.size)]
              && r == b.(currentLine := r.currentLine)
  {
    if !b.isDrawing || b.tool != Pen then b
    else b.(currentLine := b.currentLine + [Point(x, y, b.color, b.size)])
  }

  /** `stopDrawing`: the stroke becomes a line in the colour and size current at this moment. */
  function StopDrawing(b: Board): (r: Board)
    ensures !b.isDrawing || |b.currentLine| == 0 ==> r == b
    ensures b.isDrawing && |b.currentLine| > 0 ==>
              && r.lines == b.lines + [Line(b.currentLine, b.color, b.size)]
              && r.currentLine == [] && !r.isDrawing
              && r.color == b.color && r.size == b.size && r.tool == b.tool
  {
    if !b.isDrawing || |b.currentLine| == 0 then b
    else b.(isDrawing := false, lines := b.lines + [Line(b.currentLine, b.color, b.size)], currentLine := [])
  }

  /** `clearCanvas`: no lines and no stroke; the drawing flag and the tool settings are kept. */
  function ClearCanvas(b: Board): (r: Board)
    ensures r.lines == [] && r.currentLine == []
    ensures r.isDrawing == b.isDrawing && r.tool == b.tool && r.color == b.color && r.size == b.size
  {
    b.(lines := [], currentLine := [])
  }

  /** The pen and pointer buttons: the tool changes; lines and the stroke in progress stay. */
  function SelectTool(b: Board, t: Tool): (r: Board)
    ensures r.tool == t
    ensures r.lines == b.lines && r.currentLine == b.currentLine && r.isDrawing == b.isDrawing
    ensures r.color == b.color && r.size == b.size
  {
    b.(tool := t)
  }

  /** A colour swatch: the colour changes; lines and the stroke in progress stay. */
  function SelectColor(b: Board, c: string): (r: Board)
    ensures r.color == c
    ensures r.lines == b.lines && r.currentLine == b.currentLine && r.isDrawing == b.isDrawing
    ensures r.tool == b.tool && r.size == b.size
  {
    b.(color := c)
  }

  /** A size button: the pen size changes; lines and the stroke in progress stay. */
  function SelectSize(b: Board, n: nat): (r: Board)
    ensures r.size == n
    ensures r.lines == b.lines && r.currentLine == b.currentLine && r.isDrawing == b.isDrawing
    ensures r.tool == b.tool && r.color == b.color
  {
    b.(size := n)
  }

  /**
   * A colour picked mid-stroke colours the points drawn after it, and the
   * committed line takes the new colour while its earlier points keep theirs.
   */
  lemma ColorChangeMidStroke(b: Board, c: string, x: real, y: real)
    requires b.isDrawing && b.tool == Pen && |b.currentLine| > 0
    ensures var drawn := Draw(SelectColor(b, c), x, y);
            var done := StopDrawing(drawn);
            && drawn.currentLine[|b.currentLine|].color == c
            && done.lines[|b.lines|].color == c
            && done.lines[|b.lines|].points[0] == b.currentLine[0]
  {
  }

  /**
   * Switching to the pointer mid-stroke stops points being added, but the
   * release still commits the stroke drawn so far.
   */
  lemma PointerMidStrokeStillCommits(b: Board, x: real, y: real)
    requires b.isDrawing && |b.currentLine| > 0
    ensures Draw(SelectTool(b, Pointer), x, y) == SelectTool(b, Pointer)
    ensures StopDrawing(SelectTool(b, Pointer)).lines == b.lines + [Line(b.currentLine, b.color, b.size)]
  {
  }

  /** Committing a stroke keeps every earlier line, in order, and adds exactly one. */
  lemma StopKeepsEarlierLines(b: Board)
    requires b.isDrawing && |b.currentLine| > 0
    ensures |StopDrawing(b).lines| == |b.lines| + 1
    ensures StopDrawing(b).lines[..|b.lines|] == b.lines
    ensures StopDrawing(b).lines[|b.lines|].points == b.currentLine
  {
  }

  /** A stroke made of a press, moves and a release becomes one line of all its points. */
  lemma StrokeBecomesLine(b: Board, x: real, y: real, moves: seq<(real, real)>)
    requires b.tool == Pen
    ensures var drawn := DrawAll(StartDrawing(b, x, y), moves);
            var done := StopDrawing(drawn);
            && done.lines == b.lines + [Line(drawn.currentLine, b.color, b.size)]
            && |drawn.currentLine| == |moves| + 1
            && drawn.currentLine[0] == Point(x, y, b.color, b.size)
  {
    DrawAllGrows(StartDrawing(b, x, y), moves);
  }

  function DrawAll(b: Board, moves: seq<(real, real)>): Board
    decreases |moves|
  {
    if |moves| == 0 then b else DrawAll(Draw(b, moves[0].0, moves[0].1), moves[1..])
  }

  lemma {:induction false} DrawAllGrows(b: Board, moves: seq<(real, real)>)
    requires b.isDrawing && b.tool == Pen
    ensures var r := DrawAll(b, moves);
            && r == b.(currentLine := r.currentLine)
            && |r.currentLine| == |b.currentLine| + |moves|
            && r.currentLine[..|b.currentLine|] == b.currentLine
    decreases |moves|
  {
    if |moves| > 0 {
      var b' := Draw(b, moves[0].0, moves[0].1);
      DrawAllGrows(b', moves[1..]);
      var r := DrawAll(b', moves[1..]);
      assert r.currentLine[..|b.currentLine|] == r.currentLine[..|b'.currentLine|][..|b.currentLine|];
    }
  }

  /**
   * Clearing in the middle of a stroke keeps the drawing flag while emptying
   * the stroke, so the release that follows commits nothing and leaves the
   * board still drawing.
   */
  lemma ClearMidStrokeKeepsDrawing(b: Board)
    requires b.isDrawing
    ensures StopDrawing(ClearCanvas(b)).isDrawing
    ensures StopDrawing(ClearCanvas(b)).lines == []
  {
  }

  /** Line `l` is painted as often as it occurs in `lines` when it has two points, else never. */
  predicate PaintedCount(lines: seq<Line>, r: seq<Line>, l: Line) {
    multiset(r)[l] == if |l.points| >= 2 then multiset(lines)[l] else 0
  }

  /** One step of the filter: the counts for the tail carry over to the whole list. */
  lemma PaintedCountStep(lines: seq<Line>, rest: seq<Line>, r: seq<Line>)
    requires |lines| > 0
    requires forall l :: PaintedCount(lines[1..], rest, l)
    requires r == if |lines[0].points| >= 2 then [lines[0]] + rest else rest
    ensures forall l :: PaintedCount(lines, r, l)
  {
    assert lines == [lines[0]] + lines[1..];
    assert multiset(lines) == multiset{lines[0]} + multiset(lines[1..]);
    if |lines[0].points| >= 2 {
      assert multiset(r) == multiset{lines[0]} + multiset(rest);
    }
    forall l ensures PaintedCount(lines, r, l) {
      assert PaintedCount(lines[1..], rest, l);
    }
  }

  /**
   * Lines of fewer than two points are skipped when the canvas is painted;
   * every other line is painted as often as it occurs, in its original order.
   */
  function PaintedLines(lines: seq<Line>): (r: seq<Line>)
    ensures forall i :: 0 <= i < |r| ==> |r[i].points| >= 2 && r[i] in lines
    ensures forall l :: l in lines && |l.points| >= 2 ==> l in r
    ensures forall l :: PaintedCount(lines, r, l)
    ensures |r| <= |lines|
    decreases |lines|
  {
    if |lines| == 0 then []
    else
      var rest := PaintedLines(lines[1..]);
      assert forall l :: l in lines[1..] ==> l in lines;
      assert lines == [lines[0]] + lines[1..];
      var r := if |lines[0].points| >= 2 then [lines[0]] + rest else rest;
      PaintedCountStep(lines, rest, r);
      r
  }

  /** Painting keeps the order of the lines: painting a concatenation paints each part in turn. */
  lemma {:induction false} PaintedLinesAppend(a: seq<Line>, b: seq<Line>)
    ensures PaintedLines(a + b) == PaintedLines(a) + PaintedLines(b)
    decreases |a|
  {
    if |a| > 0 {
      var ab := a + b;
      assert ab[0] == a[0] && ab[1..] == a[1..] + b;
      PaintedLinesAppend(a[1..], b);
      var tail := PaintedLines(a[1..]) + PaintedLines(b);
      if |a[0].points| >= 2 {
        assert PaintedLines(ab) == [a[0]] + tail;
        assert PaintedLines(a) == [a[0]] + PaintedLines(a[1..]);
      } else {
        assert PaintedLines(ab) == tail;
        assert PaintedLines(a) == PaintedLines(a[1..]);
      }
    } else {
      assert a + b == b;
    }
  }

  /** A committed line is painted after the earlier ones exactly when it has two points. */
  lemma CommittedLinePainted(b: Board)
    requires b.isDrawing && |b.currentLine| > 0
    ensures PaintedLines(StopDrawing(b).lines) ==
              PaintedLines(b.lines) + (if |b.currentLine| >= 2 then [Line(b.currentLine, b.color, b.size)] else [])
  {
    PaintedLinesAppend(b.lines, [Line(b.currentLine, b.color, b.size)]);
  }

  /**
   * The whole canvas: the painted lines in order, then the stroke in
   * progress, in the current colour and size, once it has two points.
   */
  function Picture(b: Board): (r: seq<Line>)
    ensures |r| == |PaintedLines(b.lines)| + (if |b.currentLine| > 1 then 1 else 0)
    ensures r[..|PaintedLines(b.lines)|] == PaintedLines(b.lines)
    ensures |b.currentLine| > 1 ==> r[|r| - 1] == Line(b.currentLine, b.color, b.size)
  {
    PaintedLines(b.lines) + (if |b.currentLine| > 1 then [Line(b.currentLine, b.color, b.size)] else [])
  }

  /**
   * Releasing the pen does not change the picture: the stroke painted as
   * the line in progress is painted as a committed line, in the same colour
   * and size, because both are taken from the current settings.
   */
  lemma ReleaseKeepsPicture(b: Board)
    requires b.isDrawing
    ensures Picture(StopDrawing(b)) == Picture(b)
  {
    if |b.currentLine| > 0 {
      CommittedLinePainted(b);
    }
  }

  /** A colour picked mid-stroke repaints the whole stroke in progress, earlier points included. */
  lemma ColorRepaintsStroke(b: Board, c: string)
    requires |b.currentLine| > 1
    ensures Picture(SelectColor(b, c))[|Picture(b)| - 1].color == c
    ensures Picture(SelectColor(b, c))[|Picture(b)| - 1].points == b.currentLine
  {
  }

  // ---------------------------------------------------------------- the simulated collaborator

  /** The simulated collaborator draws in its cursor's colour, which never changes, at size 2. */
  const OtherColor: string := "#06b6d4"
  const OtherSize: nat := 2

  /** The ring is sampled at this many steps, both ends included. */
  const RingSteps: nat := 20

  /**
   * The shapes the collaborator draws from its cursor position: a segment
   * to an offset end point, a closed square of the given side, or a ring
   * whose sampled points are given (the trigonometry is not modelled).
   */
  datatype Shape = Segment(dx: real, dy: real) | Square(side: real) | Ring(around: seq<(real, real)>)

  function OtherPoint(x: real, y: real): Point {
    Point(x, y, OtherColor, OtherSize)
  }

  /**
   * `simulateOtherDrawing`'s line: the cursor position, then the shape's
   * points, every point in the collaborator's colour and size.
   */
  function OtherLine(x: real, y: real, shape: Shape): (l: Line)
    requires shape.Ring? ==> |shape.around| == RingSteps + 1
    ensures l.color == OtherColor && l.size == OtherSize
    ensures |l.points| == (if shape.Segment? then 2 else if shape.Square? then 5 else 22)
    ensures l.points[0] == OtherPoint(x, y)
    ensures forall i :: 0 <= i < |l.points| ==> l.points[i].color == OtherColor && l.points[i].size == OtherSize
    ensures shape.Segment? ==> l.points[1] == OtherPoint(x + shape.dx, y + shape.dy)
    ensures shape.Square? ==> l.points[4] == l.points[0]
  {
    var start := OtherPoint(x, y);
    match shape
    case Segment(dx, dy) => Line([start, OtherPoint(x + dx, y + dy)], OtherColor, OtherSize)
    case Square(d) =>
      Line([start, OtherPoint(x + d, y), OtherPoint(x + d, y + d), OtherPoint(x, y + d), OtherPoint(x, y)],
           OtherColor, OtherSize)
    case Ring(around) =>
      Line([start] + seq(|around|, i requires 0 <= i < |around| => OtherPoint(around[i].0, around[i].1)),
           OtherColor, OtherSize)
  }

  /**
   * The 3 s interval's drawing step: the collaborator's line is appended to
   * the committed lines; the stroke in progress and the settings stay.
   */
  function OtherDraws(b: Board, l: Line): (r: Board)
    ensures r.lines == b.lines + [l]
    ensures r.isDrawing == b.isDrawing && r.currentLine == b.currentLine
    ensures r.color == b.color && r.size == b.size && r.tool == b.tool
  {
    b.(lines := b.lines + [l])
  }

  /**
   * A collaborator's line is always painted, after every earlier line; one
   * that arrives mid-stroke goes before the stroke, which still commits in
   * the user's colour.
   */
  lemma CollaboratorLineLands(b: Board, x: real, y: real, shape: Shape)
    requires shape.Ring? ==> |shape.around| == RingSteps + 1
    ensures var l := OtherLine(x, y, shape);
            PaintedLines(OtherDraws(b, l).lines) == PaintedLines(b.lines) + [l]
    ensures var l := OtherLine(x, y, shape);
            b.isDrawing && |b.currentLine| > 0 ==>
              StopDrawing(OtherDraws(b, l)).lines == b.lines + [l, Line(b.currentLine, b.color, b.size)]
  {
    var l := OtherLine(x, y, shape);
    PaintedLinesAppend(b.lines, [l]);
    assert PaintedLines([l]) == [l] by {
      assert [l][1..] == [];
    }
  }
}
