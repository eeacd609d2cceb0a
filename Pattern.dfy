/** The fabric pattern of app.js: `drawPattern` paints an off-screen 512 x 512
    canvas, through its 2D context, with a background colour and then
    stripes, a checkerboard or random dots in a second colour. The context is
    a class whose drawing methods append to the list of commands painted so
    far; `PatternCommands` is the list one call of `drawPattern` appends, and
    `ColourAt` reads the colour a point ends up with (the last command
    covering it wins). */
module Pattern {
  import opened Options

  /** A CSS colour string, as assigned to `fillStyle`. */
  type Colour = string

  /** The colour a fresh 2D context starts with for filling and stroking. */
  const Black: Colour := "#000000"

  /** The width and height of the off-screen pattern canvas. */
  const PatternSize: nat := 512

  /** A full circle added to the current path by `arc(cx, cy, r, 0, 2π)`. */
  datatype Circle = Circle(cx: real, cy: real, r: real)

  /** One painting operation, with the fill colour in force when it ran. */
  datatype Command =
    | RectFill(x: real, y: real, w: real, h: real, colour: Colour)
    | PathFill(circles: seq<Circle>, colour: Colour)

  /** A canvas's 2D context: its size, its fill and stroke colours, the
      current path, and everything filled so far. */
  class Context2D {
    const width: nat
    const height: nat
    var fillStyle: Colour
    var strokeStyle: Colour
    var path: seq<Circle>
    var drawn: seq<Command>

    /** A context for a blank canvas of the given size. */
    constructor (width: nat, height: nat)
      ensures this.width == width && this.height == height
      ensures fillStyle == Black && strokeStyle == Black
      ensures path == [] && drawn == []
    {
      this.width := width;
      this.height := height;
      fillStyle := Black;
      strokeStyle := Black;
      path := [];
      drawn := [];
    }

    /** `fillRect`: paints the rectangle in the current fill colour. */
    method FillRect(x: real, y: real, w: real, h: real)
      modifies this
      ensures drawn == old(drawn) + [RectFill(x, y, w, h, fillStyle)]
      ensures fillStyle == old(fillStyle) && strokeStyle == old(strokeStyle)
      ensures path == old(path)
    {
      drawn := drawn + [RectFill(x, y, w, h, fillStyle)];
    }

    /** `beginPath`: empties the current path. */
    method BeginPath()
      modifies this
      ensures path == []
      ensures drawn == old(drawn)
      ensures fillStyle == old(fillStyle) && strokeStyle == old(strokeStyle)
    {
      path := [];
    }

    /** `arc(cx, cy, r, 0, 2π)`: adds a full circle to the current path; a
        negative radius is an error. */
    method Arc(cx: real, cy: real, r: real)
      requires r >= 0.0
      modifies this
      ensures path == old(path) + [Circle(cx, cy, r)]
      ensures drawn == old(drawn)
      ensures fillStyle == old(fillStyle) && strokeStyle == old(strokeStyle)
    {
      path := path + [Circle(cx, cy, r)];
    }

    /** `fill`: paints the current path in the current fill colour. */
    method Fill()
      modifies this
      ensures drawn == old(drawn) + [PathFill(path, fillStyle)]
      ensures path == old(path)
      ensures fillStyle == old(fillStyle) && strokeStyle == old(strokeStyle)
    {
      drawn := drawn + [PathFill(path, fillStyle)];
    }
  }

  /** The off-screen canvas the pattern is drawn on, 512 pixels square. */
  method CreatePatternCanvas() returns (ctx: Context2D)
    ensures fresh(ctx)
    ensures ctx.width == PatternSize && ctx.height == PatternSize
    ensures ctx.drawn == [] && ctx.path == []
  {
    ctx := new Context2D(PatternSize, PatternSize);
  }

  // ---------------------------------------------------------------------
  // What one call of drawPattern paints
  // ---------------------------------------------------------------------

  /** The background: the whole canvas in the first colour. */
  function Background(w: real, h: real, c: Colour): Command {
    RectFill(0.0, 0.0, w, h, c)
  }

  /** Stripe `i`: a full-width band starting at `i` twentieths of the height,
      one fortieth of the height tall. */
  function Stripe(i: int, w: real, h: real, c: Colour): Command {
    RectFill(0.0, i as real * (h / 20.0), w, h / 40.0, c)
  }

  function Stripes(w: real, h: real, c: Colour): seq<Command> {
    seq(20, i => Stripe(i, w, h, c))
  }

  /** The checkerboard square in column `i` and row `j` of a 10 x 10 grid. */
  function Cell(i: int, j: int, w: real, h: real, c: Colour): Command {
    RectFill(i as real * (w / 10.0), j as real * (h / 10.0), w / 10.0, h / 10.0, c)
  }

  /** The squares the inner loop paints in column `i` for rows below `j`:
      those where `i + row` is even. */
  function ColumnCells(i: nat, j: nat, w: real, h: real, c: Colour): seq<Command> {
    if j == 0 then []
    else ColumnCells(i, j - 1, w, h, c) + (if (i + (j - 1)) % 2 == 0 then [Cell(i, j - 1, w, h, c)] else [])
  }

  /** The squares painted by the first `i` passes of the outer loop. */
  function ChecksUpTo(i: nat, w: real, h: real, c: Colour): seq<Command> {
    if i == 0 then [] else ChecksUpTo(i - 1, w, h, c) + ColumnCells(i - 1, 10, w, h, c)
  }

  function Checks(w: real, h: real, c: Colour): seq<Command> {
    ChecksUpTo(10, w, h, c)
  }

  /** Dot `k`: its centre and radius come from the random draws `3k`, `3k+1`
      and `3k+2`, in the order the loop body asks for them. */
  function Dot(k: nat, w: real, h: real, random: nat -> real): Circle {
    Circle(random(3 * k) * w, random(3 * k + 1) * h, 6.0 + random(3 * k + 2) * 10.0)
  }

  function Dots(w: real, h: real, c: Colour, random: nat -> real): seq<Command> {
    seq(100, k requires 0 <= k => PathFill([Dot(k, w, h, random)], c))
  }

  /** What is painted over the background for each pattern name; "solid" and
      every other name paint nothing. */
  function Overlay(kind: string, w: real, h: real, c: Colour, random: nat -> real): seq<Command> {
    if kind == "stripes" then Stripes(w, h, c)
    else if kind == "checks" then Checks(w, h, c)
    else if kind == "dots" then Dots(w, h, c, random)
    else []
  }

  /** Everything one call of drawPattern paints, in order. */
  function PatternCommands(kind: string, c1: Colour, c2: Colour, w: real, h: real, random: nat -> real): seq<Command> {
    [Background(w, h, c1)] + Overlay(kind, w, h, c2, random)
  }

  /** The stripes loop: twenty bands in the current fill colour. */
  method PaintStripes(ctx: Context2D)
    modifies ctx
    ensures ctx.drawn == old(ctx.drawn) + Stripes(ctx.width as real, ctx.height as real, ctx.fillStyle)
    ensures ctx.fillStyle == old(ctx.fillStyle) && ctx.strokeStyle == old(ctx.strokeStyle)
    ensures ctx.path == old(ctx.path)
  {
    var w, h, c := ctx.width as real, ctx.height as real, ctx.fillStyle;
    var i := 0;
    while i < 20
      invariant 0 <= i <= 20
      invariant ctx.drawn == old(ctx.drawn) + Stripes(w, h, c)[..i]
      invariant ctx.fillStyle == c && ctx.strokeStyle == old(ctx.strokeStyle)
      invariant ctx.path == old(ctx.path)
    {
      var y := i as real * (h / 20.0);
      ghost var before := ctx.drawn;
      ctx.FillRect(0.0, y, w, h / 40.0);
      assert RectFill(0.0, y, w, h / 40.0, c) == Stripe(i, w, h, c);
      assert ctx.drawn == before + [Stripe(i, w, h, c)];
      assert Stripes(w, h, c)[..i + 1] == Stripes(w, h, c)[..i] + [Stripe(i, w, h, c)];
      i := i + 1;
    }
  }

  /** The inner checks loop for column `i`: the squares of that column whose
      row has the parity of `i`, top to bottom, in the current fill colour. */
  method PaintColumn(ctx: Context2D, i: nat)
    modifies ctx
    ensures ctx.drawn == old(ctx.drawn) + ColumnCells(i, 10, ctx.width as real, ctx.height as real, ctx.fillStyle)
    ensures ctx.fillStyle == old(ctx.fillStyle) && ctx.strokeStyle == old(ctx.strokeStyle)
    ensures ctx.path == old(ctx.path)
  {
    var w, h, c := ctx.width as real, ctx.height as real, ctx.fillStyle;
    var j := 0;
    while j < 10
      invariant 0 <= j <= 10
      invariant ctx.drawn == old(ctx.drawn) + ColumnCells(i, j, w, h, c)
      invariant ctx.fillStyle == c && ctx.strokeStyle == old(ctx.strokeStyle)
      invariant ctx.path == old(ctx.path)
    {
      ghost var before := ctx.drawn;
      if (i + j) % 2 == 0 {
        ctx.FillRect(i as real * (w / 10.0), j as real * (h / 10.0), w / 10.0, h / 10.0);
        assert RectFill(i as real * (w / 10.0), j as real * (h / 10.0), w / 10.0, h / 10.0, c) == Cell(i, j, w, h, c);
        assert ctx.drawn == before + [Cell(i, j, w, h, c)];
      }
      assert ColumnCells(i, j + 1, w, h, c)
          == ColumnCells(i, j, w, h, c) + (if (i + j) % 2 == 0 then [Cell(i, j, w, h, c)] else []);
      j := j + 1;
    }
  }

  /** The checks loops: the squares of a 10 x 10 grid whose column and row
      add up to an even number, column by column, in the current fill colour. */
  method PaintChecks(ctx: Context2D)
    modifies ctx
    ensures ctx.drawn == old(ctx.drawn) + Checks(ctx.width as real, ctx.height as real, ctx.fillStyle)
    ensures ctx.fillStyle == old(ctx.fillStyle) && ctx.strokeStyle == old(ctx.strokeStyle)
    ensures ctx.path == old(ctx.path)
  {
    var w, h, c := ctx.width as real, ctx.height as real, ctx.fillStyle;
    var i := 0;
    while i < 10
      invariant 0 <= i <= 10
      invariant ctx.drawn == old(ctx.drawn) + ChecksUpTo(i, w, h, c)
      invariant ctx.fillStyle == c && ctx.strokeStyle == old(ctx.strokeStyle)
      invariant ctx.path == old(ctx.path)
    {
      PaintColumn(ctx, i);
      i := i + 1;
    }
  }

  /** The dots loop: a hundred filled circles in the current fill colour,
      each on a fresh path, placed and sized by three random draws. */
  method PaintDots(ctx: Context2D, random: nat -> real)
    requires forall n :: 0.0 <= random(n) < 1.0
    modifies ctx
    ensures ctx.drawn == old(ctx.drawn) + Dots(ctx.width as real, ctx.height as real, ctx.fillStyle, random)
    ensures ctx.fillStyle == old(ctx.fillStyle) && ctx.strokeStyle == old(ctx.strokeStyle)
    ensures ctx.path == [Dot(99, ctx.width as real, ctx.height as real, random)]
  {
    var w, h, c := ctx.width as real, ctx.height as real, ctx.fillStyle;
    var i := 0;
    while i < 100
      invariant 0 <= i <= 100
      invariant ctx.drawn == old(ctx.drawn) + Dots(w, h, c, random)[..i]
      invariant i > 0 ==> ctx.path == [Dot(i - 1, w, h, random)]
      invariant ctx.fillStyle == c && ctx.strokeStyle == old(ctx.strokeStyle)
    {
      var x, y, r := random(3 * i) * w, random(3 * i + 1) * h, 6.0 + random(3 * i + 2) * 10.0;
      ghost var before := ctx.drawn;
      ctx.BeginPath();
      ctx.Arc(x, y, r);
      assert Circle(x, y, r) == Dot(i, w, h, random);
      assert ctx.path == [Dot(i, w, h, random)];
      ctx.Fill();
      assert ctx.drawn == before + [PathFill([Dot(i, w, h, random)], c)];
      assert Dots(w, h, c, random)[..i + 1] == Dots(w, h, c, random)[..i] + [Dots(w, h, c, random)[i]];
      i := i + 1;
    }
  }

  /** The branch on the pattern name, drawing in the current fill colour. */
  method PaintOverlay(ctx: Context2D, kind: string, random: nat -> real)
    requires forall n :: 0.0 <= random(n) < 1.0
    modifies ctx
    ensures ctx.drawn == old(ctx.drawn) + Overlay(kind, ctx.width as real, ctx.height as real, ctx.fillStyle, random)
    ensures ctx.fillStyle == old(ctx.fillStyle) && ctx.strokeStyle == old(ctx.strokeStyle)
    ensures ctx.path == if kind == "dots" then [Dot(99, ctx.width as real, ctx.height as real, random)] else old(ctx.path)
  {
    if kind == "stripes" {
      PaintStripes(ctx);
    } else if kind == "checks" {
      PaintChecks(ctx);
    } else if kind == "dots" {
      PaintDots(ctx, random);
    }
  }

  /** drawPattern(type, c1, c2): paints the background in `c1`, switches the
      fill and stroke colours to `c2`, then draws the named pattern.
      `random(n)` is the value of the n-th call of Math.random in this call. */
  method DrawPattern(ctx: Context2D, kind: string, c1: Colour, c2: Colour, random: nat -> real)
    requires forall n :: 0.0 <= random(n) < 1.0
    modifies ctx
    ensures ctx.drawn == old(ctx.drawn) + PatternCommands(kind, c1, c2, ctx.width as real, ctx.height as real, random)
    ensures ctx.fillStyle == c2 && ctx.strokeStyle == c2
    ensures ctx.path == if kind == "dots" then [Dot(99, ctx.width as real, ctx.height as real, random)] else old(ctx.path)
  {
    ctx.fillStyle := c1;
    ctx.FillRect(0.0, 0.0, ctx.width as real, ctx.height as real);
    ctx.fillStyle := c2;
    ctx.strokeStyle := c2;
    PaintOverlay(ctx, kind, random);
  }

  // ---------------------------------------------------------------------
  // The colour a point ends up with
  // ---------------------------------------------------------------------

  predicate InCircle(d: Circle, px: real, py: real) {
    (px - d.cx) * (px - d.cx) + (py - d.cy) * (py - d.cy) <= d.r * d.r
  }

  /** Whether a command paints the point: a rectangle holds its left and top
      edges but not its right and bottom ones; a path holds its circles. */
  predicate Covers(cmd: Command, px: real, py: real) {
    match cmd
    case RectFill(x, y, w, h, _) => x <= px < x + w && y <= py < y + h
    case PathFill(circles, _) => exists k :: 0 <= k < |circles| && InCircle(circles[k], px, py)
  }

  predicate InCanvas(w: real, h: real, px: real, py: real) {
    0.0 <= px < w && 0.0 <= py < h
  }

  /** Command `k` is the last of `cmds` to cover the point. */
  predicate LastCover(cmds: seq<Command>, k: int, px: real, py: real) {
    && 0 <= k < |cmds| && Covers(cmds[k], px, py)
    && forall m :: k < m < |cmds| ==> !Covers(cmds[m], px, py)
  }

  /** The colour of a point once the commands have run: that of the last
      command covering it, or none when no command does. */
  function ColourAt(cmds: seq<Command>, px: real, py: real): (r: Option<Colour>)
    ensures r.None? <==> forall k :: 0 <= k < |cmds| ==> !Covers(cmds[k], px, py)
    ensures r.Some? ==> exists k :: LastCover(cmds, k, px, py) && r.value == cmds[k].colour
  {
    if cmds == [] then None
    else
      var last := |cmds| - 1;
      if Covers(cmds[last], px, py) then
        assert LastCover(cmds, last, px, py);
        Some(cmds[last].colour)
      else
        var init := cmds[..last];
        var r := ColourAt(init, px, py);
        assert forall k :: 0 <= k < last ==> init[k] == cmds[k];
        assert r.Some? ==> exists k :: LastCover(cmds, k, px, py) && r.value == cmds[k].colour by {
          if r.Some? {
            var k :| LastCover(init, k, px, py) && r.value == init[k].colour;
            assert LastCover(cmds, k, px, py);
          }
        }
        r
  }

  /** Over a background that covers the point, the point takes the overlay
      colour when some overlay command covers it and the background's
      otherwise. */
  lemma ColourOverBackground(base: Command, xs: seq<Command>, c: Colour, px: real, py: real)
    requires Covers(base, px, py)
    requires forall k :: 0 <= k < |xs| ==> xs[k].colour == c
    ensures ColourAt([base] + xs, px, py)
         == Some(if exists k :: 0 <= k < |xs| && Covers(xs[k], px, py) then c else base.colour)
  {
    var cmds := [base] + xs;
    assert cmds[0] == base;
    assert forall k :: 0 <= k < |xs| ==> cmds[k + 1] == xs[k];
    var r := ColourAt(cmds, px, py);
    var k :| LastCover(cmds, k, px, py) && r.value == cmds[k].colour;
    if exists i :: 0 <= i < |xs| && Covers(xs[i], px, py) {
      var i :| 0 <= i < |xs| && Covers(xs[i], px, py);
      assert Covers(cmds[i + 1], px, py);
      assert cmds[k] == xs[k - 1];
    } else {
      assert forall m :: 1 <= m < |cmds| ==> !Covers(cmds[m], px, py) by {
        forall m | 1 <= m < |cmds| ensures !Covers(cmds[m], px, py) {
          assert cmds[m] == xs[m - 1];
        }
      }
    }
  }

  /** A point has at most one last covering command. */
  lemma LastCoverUnique(cmds: seq<Command>, k: int, k2: int, px: real, py: real)
    requires LastCover(cmds, k, px, py) && LastCover(cmds, k2, px, py)
    ensures k == k2
  {
  }

  /** The point shows the colour of its last covering command. */
  lemma ColourOfLastCover(cmds: seq<Command>, k: int, px: real, py: real)
    requires LastCover(cmds, k, px, py)
    ensures ColourAt(cmds, px, py) == Some(cmds[k].colour)
  {
    var r := ColourAt(cmds, px, py);
    var k2 :| LastCover(cmds, k2, px, py) && r.value == cmds[k2].colour;
    LastCoverUnique(cmds, k, k2, px, py);
  }

  /** Drawing more first does not change which command covers a point last. */
  lemma ShiftLastCover(pre: seq<Command>, cmds: seq<Command>, k: int, px: real, py: real)
    requires LastCover(cmds, k, px, py)
    ensures LastCover(pre + cmds, |pre| + k, px, py)
  {
    var all := pre + cmds;
    assert all[|pre| + k] == cmds[k];
    forall m | |pre| + k < m < |all| ensures !Covers(all[m], px, py) {
      assert all[m] == cmds[m - |pre|];
    }
  }

  /** Once a later command covers the point, what was drawn before does not
      show there. */
  lemma LaterCoverWins(pre: seq<Command>, cmds: seq<Command>, i: int, px: real, py: real)
    requires 0 <= i < |cmds| && Covers(cmds[i], px, py)
    ensures ColourAt(pre + cmds, px, py) == ColourAt(cmds, px, py)
  {
    var r := ColourAt(cmds, px, py);
    assert r.Some?;
    var k :| LastCover(cmds, k, px, py) && r.value == cmds[k].colour;
    ShiftLastCover(pre, cmds, k, px, py);
    ColourOfLastCover(pre + cmds, |pre| + k, px, py);
    assert (pre + cmds)[|pre| + k] == cmds[k];
  }

  /** Redrawing regenerates the whole image: whatever the canvas held
      before, every point of it shows what the new pattern alone paints,
      because the background covers the whole canvas. */
  lemma PatternRedraw(pre: seq<Command>, kind: string, c1: Colour, c2: Colour, w: real, h: real,
                      random: nat -> real, px: real, py: real)
    requires InCanvas(w, h, px, py)
    ensures ColourAt(pre + PatternCommands(kind, c1, c2, w, h, random), px, py)
         == ColourAt(PatternCommands(kind, c1, c2, w, h, random), px, py)
  {
    PatternShape(kind, c1, c2, w, h, random);
    LaterCoverWins(pre, PatternCommands(kind, c1, c2, w, h, random), 0, px, py);
  }

  /** Every pattern starts with the background in the first colour, paints
      everything else in the second, and paints 20 stripes, 50 squares, 100
      dots or nothing more. */
  lemma PatternShape(kind: string, c1: Colour, c2: Colour, w: real, h: real, random: nat -> real)
    ensures var cmds := PatternCommands(kind, c1, c2, w, h, random);
      && cmds[0] == RectFill(0.0, 0.0, w, h, c1)
      && |cmds| == 1 + (if kind == "stripes" then 20 else if kind == "checks" then 50
                        else if kind == "dots" then 100 else 0)
      && forall k :: 1 <= k < |cmds| ==> cmds[k].colour == c2
  {
    ChecksUpToForm(10, w, h, c2);
  }

  /** "solid", and any name the page does not know, leaves every point of the
      canvas in the first colour. */
  lemma PlainColour(kind: string, c1: Colour, c2: Colour, w: real, h: real, random: nat -> real, px: real, py: real)
    requires kind != "stripes" && kind != "checks" && kind != "dots"
    requires InCanvas(w, h, px, py)
    ensures ColourAt(PatternCommands(kind, c1, c2, w, h, random), px, py) == Some(c1)
  {
    ColourOverBackground(Background(w, h, c1), [], c2, px, py);
  }

  // ---------------------------------------------------------------------
  // Stripes
  // ---------------------------------------------------------------------

  /** A rectangle that lies within a `w` x `h` canvas. */
  predicate Inside(cmd: Command, w: real, h: real) {
    && cmd.RectFill?
    && 0.0 <= cmd.x && cmd.x + cmd.w <= w
    && 0.0 <= cmd.y && cmd.y + cmd.h <= h
  }

  /** `i` steps of size `s` from 0, plus `part` of a step, with `part` at most
      one step and `i` below `n`, stay within `n` steps. */
  lemma StepWithin(i: int, n: int, s: real, part: real)
    requires 0 <= i < n && s >= 0.0 && 0.0 <= part <= s
    ensures 0.0 <= i as real * s
    ensures i as real * s + part <= n as real * s
  {
    assert (n - i - 1) as real * s >= 0.0;
  }

  /** The twenty stripes are full-width, lie inside the canvas, and leave a
      gap as tall as themselves below each one. */
  lemma StripesLayout(w: real, h: real, c: Colour)
    requires w >= 0.0 && h >= 0.0
    ensures var st := Stripes(w, h, c);
      && |st| == 20
      && (forall i :: 0 <= i < 20 ==> Inside(st[i], w, h) && st[i].x == 0.0 && st[i].w == w && st[i].h == h / 40.0)
      && (forall i :: 0 <= i < 19 ==> st[i].y + 2.0 * st[i].h == st[i + 1].y)
  {
    var st := Stripes(w, h, c);
    forall i | 0 <= i < 20 ensures Inside(st[i], w, h) {
      StepWithin(i, 20, h / 20.0, h / 40.0);
    }
  }

  /** The point lies in the upper half of one of twenty equal horizontal
      bands, counted from the top. */
  predicate UpperHalfOfBand(h: real, py: real)
    requires h > 0.0
  {
    var t := py / (h / 20.0);
    t - t.Floor as real < 0.5
  }

  predicate InStripe(i: int, h: real, py: real) {
    i as real * (h / 20.0) <= py < i as real * (h / 20.0) + h / 40.0
  }

  /** Multiplying by a positive factor keeps the order of two values. */
  lemma ScaleOrder(a: real, b: real, s: real)
    requires s > 0.0
    ensures a * s <= b * s <==> a <= b
    ensures a * s < b * s <==> a < b
  {
    if a <= b {
      assert (b - a) * s >= 0.0;
    } else {
      assert (a - b) * s > 0.0;
    }
  }

  /** `i` is the whole part of `t` exactly when `t` lies in [i, i + 1). */
  lemma FloorIs(t: real, i: int)
    ensures (i as real <= t < i as real + 1.0) <==> t.Floor == i
  {
    var f := t.Floor;
    assert f as real <= t < f as real + 1.0;
    if i as real <= t < i as real + 1.0 {
      assert f as real < i as real + 1.0;
      assert i as real < f as real + 1.0;
    }
  }

  /** Comparing a multiple of a positive step with a value is comparing the
      factor with the value divided by the step. */
  lemma DivOrder(v: real, s: real, a: real)
    requires s > 0.0
    ensures a * s <= v <==> a <= v / s
    ensures v < a * s <==> v / s < a
  {
    var t := v / s;
    assert t * s == v;
    ScaleOrder(a, t, s);
    ScaleOrder(t, a, s);
  }

  /** A value lies in step `i` of size `s` exactly when `i` is the whole part
      of the value divided by `s`. */
  lemma StepIndex(v: real, s: real, i: int)
    requires s > 0.0
    ensures (i as real * s <= v < i as real * s + s) <==> (v / s).Floor == i
  {
    DivOrder(v, s, i as real);
    DivOrder(v, s, i as real + 1.0);
    assert (i as real + 1.0) * s == i as real * s + s;
    FloorIs(v / s, i);
  }

  /** A height inside the canvas falls in one of the twenty bands. */
  lemma BandInRange(h: real, py: real)
    requires 0.0 <= py < h
    ensures 0 <= (py / (h / 20.0)).Floor < 20
  {
    var s := h / 20.0;
    DivOrder(py, s, 0.0);
    DivOrder(py, s, 20.0);
    assert 20.0 * s == h;
    var t := py / s;
    assert t.Floor as real <= t < t.Floor as real + 1.0;
  }

  /** Stripe `i` holds the height `py` exactly when `py` falls in band `i`
      and in the upper half of it. */
  lemma StripeBand(h: real, py: real, i: int)
    requires h > 0.0
    ensures InStripe(i, h, py) <==> (py / (h / 20.0)).Floor == i && UpperHalfOfBand(h, py)
  {
    var s := h / 20.0;
    var t := py / s;
    DivOrder(py, s, i as real);
    DivOrder(py, s, i as real + 0.5);
    assert (i as real + 0.5) * s == i as real * s + h / 40.0;
    assert InStripe(i, h, py) <==> i as real <= t < i as real + 0.5;
    FloorIs(t, i);
  }


  /** A point of the canvas lies on a stripe exactly when it lies in the
      upper half of its twentieth of the height. */
  lemma StripesCover(w: real, h: real, c: Colour, px: real, py: real)
    requires InCanvas(w, h, px, py)
    ensures (exists i :: 0 <= i < 20 && Covers(Stripes(w, h, c)[i], px, py)) <==> UpperHalfOfBand(h, py)
  {
    var st := Stripes(w, h, c);
    var s := h / 20.0;
    var b := (py / s).Floor;
    assert forall i :: 0 <= i < 20 ==> (Covers(st[i], px, py) <==> InStripe(i, h, py));
    BandInRange(h, py);
    StripeBand(h, py, b);
    forall i | 0 <= i < 20 ensures InStripe(i, h, py) ==> i == b {
      StripeBand(h, py, i);
    }
  }

  /** In the stripes pattern a point of the canvas has the second colour
      exactly when it lies in the upper half of its twentieth of the height. */
  lemma StripesColour(c1: Colour, c2: Colour, w: real, h: real, random: nat -> real, px: real, py: real)
    requires InCanvas(w, h, px, py)
    ensures ColourAt(PatternCommands("stripes", c1, c2, w, h, random), px, py)
         == Some(if UpperHalfOfBand(h, py) then c2 else c1)
  {
    ColourOverBackground(Background(w, h, c1), Stripes(w, h, c2), c2, px, py);
    StripesCover(w, h, c2, px, py);
  }

  // ---------------------------------------------------------------------
  // Checks
  // ---------------------------------------------------------------------

  /** Column `i` holds one square for every two rows below `j`, rounded
      according to the parity of `i` (so five for the whole column). */
  lemma {:induction false} ColumnCellsLength(i: nat, j: nat, w: real, h: real, c: Colour)
    ensures j <= 2 * |ColumnCells(i, j, w, h, c)| + i % 2 <= j + 1
  {
    if j > 0 {
      ColumnCellsLength(i, j - 1, w, h, c);
    }
  }

  /** A row of the same parity as column `i`, with `n` such rows above it,
      is row `2n + i % 2`. */
  lemma ParityRow(i: nat, row: nat, n: nat)
    requires row <= 2 * n + i % 2 <= row + 1
    requires (i + row) % 2 == 0
    ensures 2 * n + i % 2 == row
  {
    assert row % 2 == i % 2;
  }

  /** Column `i` holds the rows of `i`'s parity, in increasing order. */
  lemma {:induction false} ColumnCellsForm(i: nat, j: nat, w: real, h: real, c: Colour)
    ensures forall m :: 0 <= m < |ColumnCells(i, j, w, h, c)| ==>
      ColumnCells(i, j, w, h, c)[m] == Cell(i, 2 * m + i % 2, w, h, c)
  {
    if j > 0 {
      ColumnCellsForm(i, j - 1, w, h, c);
      var prev := ColumnCells(i, j - 1, w, h, c);
      if (i + (j - 1)) % 2 == 0 {
        ColumnCellsLength(i, j - 1, w, h, c);
        ParityRow(i, j - 1, |prev|);
        var cur := ColumnCells(i, j, w, h, c);
        assert cur == prev + [Cell(i, j - 1, w, h, c)];
        forall m | 0 <= m < |cur| ensures cur[m] == Cell(i, 2 * m + i % 2, w, h, c) {
          if m < |prev| { assert cur[m] == prev[m]; }
        }
      } else {
        assert ColumnCells(i, j, w, h, c) == prev;
      }
    }
  }

  /** The squares painted by the first `i` columns, five per column, the
      `k`-th in column `k / 5` at the `k % 5`-th row of that column's parity. */
  lemma {:induction false} ChecksUpToForm(i: nat, w: real, h: real, c: Colour)
    ensures |ChecksUpTo(i, w, h, c)| == 5 * i
    ensures forall k :: 0 <= k < 5 * i ==>
      ChecksUpTo(i, w, h, c)[k] == Cell(k / 5, 2 * (k % 5) + (k / 5) % 2, w, h, c)
  {
    if i > 0 {
      ChecksUpToForm(i - 1, w, h, c);
      ColumnCellsForm(i - 1, 10, w, h, c);
      ColumnCellsLength(i - 1, 10, w, h, c);
      var prev, col := ChecksUpTo(i - 1, w, h, c), ColumnCells(i - 1, 10, w, h, c);
      assert |col| == 5;
      forall k | 5 * (i - 1) <= k < 5 * i
        ensures (prev + col)[k] == Cell(k / 5, 2 * (k % 5) + (k / 5) % 2, w, h, c)
      {
        assert k / 5 == i - 1 && k % 5 == k - 5 * (i - 1);
      }
    }
  }

  /** The checks pattern, as a plain list: fifty squares, the `k`-th in
      column `k / 5`. */
  lemma ChecksForm(w: real, h: real, c: Colour)
    ensures Checks(w, h, c) == seq(50, k => Cell(k / 5, 2 * (k % 5) + (k / 5) % 2, w, h, c))
  {
    ChecksUpToForm(10, w, h, c);
  }

  /** The `k`-th square of the checks pattern. */
  lemma ChecksAt(w: real, h: real, c: Colour, k: int)
    requires 0 <= k < 50
    ensures |Checks(w, h, c)| == 50
    ensures Checks(w, h, c)[k] == Cell(k / 5, 2 * (k % 5) + (k / 5) % 2, w, h, c)
  {
    ChecksUpToForm(10, w, h, c);
  }

  /** Equal multiples of a positive step have equal factors. */
  lemma ScaleInjective(a: int, b: int, s: real)
    requires s > 0.0 && a as real * s == b as real * s
    ensures a == b
  {
    assert (a - b) as real * s == 0.0;
  }

  /** Squares at different places of the grid are different commands. */
  lemma CellInjective(i: int, j: int, i2: int, j2: int, w: real, h: real, c: Colour)
    requires w > 0.0 && h > 0.0
    requires Cell(i, j, w, h, c) == Cell(i2, j2, w, h, c)
    ensures i == i2 && j == j2
  {
    var a, b := Cell(i, j, w, h, c), Cell(i2, j2, w, h, c);
    assert a.x == b.x && a.y == b.y;
    ScaleInjective(i, i2, w / 10.0);
    ScaleInjective(j, j2, h / 10.0);
  }

  /** The checks pattern paints square (i, j) when both lie in 0..9 and
      i + j is even: it is the `5i + j/2`-th square painted. */
  lemma ChecksHasCell(w: real, h: real, c: Colour, i: int, j: int)
    requires 0 <= i < 10 && 0 <= j < 10 && (i + j) % 2 == 0
    ensures Cell(i, j, w, h, c) in Checks(w, h, c)
  {
    var k := 5 * i + j / 2;
    assert k / 5 == i && k % 5 == j / 2;
    assert 2 * (k % 5) + (k / 5) % 2 == j by {
      assert j % 2 == i % 2;
    }
    ChecksUpToForm(10, w, h, c);
    assert Checks(w, h, c)[k] == Cell(k / 5, 2 * (k % 5) + (k / 5) % 2, w, h, c);
  }

  /** The checks pattern paints no other square. */
  lemma ChecksOnlyCells(w: real, h: real, c: Colour, i: int, j: int)
    requires w > 0.0 && h > 0.0
    requires Cell(i, j, w, h, c) in Checks(w, h, c)
    ensures 0 <= i < 10 && 0 <= j < 10 && (i + j) % 2 == 0
  {
    ChecksAt(w, h, c, 0);
    var k :| 0 <= k < 50 && Checks(w, h, c)[k] == Cell(i, j, w, h, c);
    ChecksAt(w, h, c, k);
    CellInjective(k / 5, 2 * (k % 5) + (k / 5) % 2, i, j, w, h, c);
  }


  /** The checks pattern paints square (i, j) exactly when both lie in 0..9
      and i + j is even. */
  lemma ChecksCells(w: real, h: real, c: Colour, i: int, j: int)
    requires w > 0.0 && h > 0.0
    ensures Cell(i, j, w, h, c) in Checks(w, h, c) <==> 0 <= i < 10 && 0 <= j < 10 && (i + j) % 2 == 0
  {
    if 0 <= i < 10 && 0 <= j < 10 && (i + j) % 2 == 0 {
      ChecksHasCell(w, h, c, i, j);
    }
    if Cell(i, j, w, h, c) in Checks(w, h, c) {
      ChecksOnlyCells(w, h, c, i, j);
    }
  }

  /** Every square of the grid lies inside the canvas. */
  lemma CellInside(i: int, j: int, w: real, h: real, c: Colour)
    requires 0 <= i < 10 && 0 <= j < 10 && w >= 0.0 && h >= 0.0
    ensures Inside(Cell(i, j, w, h, c), w, h)
  {
    StepWithin(i, 10, w / 10.0, w / 10.0);
    StepWithin(j, 10, h / 10.0, h / 10.0);
  }

  /** Every square of the checks pattern lies inside the canvas. */
  lemma ChecksInside(w: real, h: real, c: Colour)
    requires w >= 0.0 && h >= 0.0
    ensures forall k :: 0 <= k < |Checks(w, h, c)| ==> Inside(Checks(w, h, c)[k], w, h)
  {
    var ch := Checks(w, h, c);
    ChecksUpToForm(10, w, h, c);
    forall k | 0 <= k < 50 ensures Inside(ch[k], w, h) {
      ChecksAt(w, h, c, k);
      CellInside(k / 5, 2 * (k % 5) + (k / 5) % 2, w, h, c);
    }
  }


  /** The point lies in square (i, j) of the 10 x 10 grid. */
  predicate InCell(i: int, j: int, w: real, h: real, px: real, py: real) {
    && i as real * (w / 10.0) <= px < i as real * (w / 10.0) + w / 10.0
    && j as real * (h / 10.0) <= py < j as real * (h / 10.0) + h / 10.0
  }

  /** A point lies in at most one square of the grid. */
  lemma CellUnique(i: int, j: int, i2: int, j2: int, w: real, h: real, px: real, py: real)
    requires w > 0.0 && h > 0.0
    requires InCell(i, j, w, h, px, py) && InCell(i2, j2, w, h, px, py)
    ensures i == i2 && j == j2
  {
    StepIndex(px, w / 10.0, i);
    StepIndex(px, w / 10.0, i2);
    StepIndex(py, h / 10.0, j);
    StepIndex(py, h / 10.0, j2);
  }

  /** A point of square (i, j) is painted by the checks pattern exactly when
      i + j is even. */
  lemma ChecksCover(w: real, h: real, c: Colour, i: int, j: int, px: real, py: real)
    requires w > 0.0 && h > 0.0
    requires 0 <= i < 10 && 0 <= j < 10 && InCell(i, j, w, h, px, py)
    ensures (exists k :: 0 <= k < |Checks(w, h, c)| && Covers(Checks(w, h, c)[k], px, py)) <==> (i + j) % 2 == 0
  {
    var ch := Checks(w, h, c);
    ChecksCells(w, h, c, i, j);
    ChecksAt(w, h, c, 0);
    forall k | 0 <= k < 50 && Covers(ch[k], px, py) ensures ch[k] == Cell(i, j, w, h, c) {
      ChecksAt(w, h, c, k);
      CellUnique(k / 5, 2 * (k % 5) + (k / 5) % 2, i, j, w, h, px, py);
    }
    assert Covers(Cell(i, j, w, h, c), px, py);
  }


  /** In the checks pattern a point of square (i, j) has the second colour
      exactly when i + j is even. */
  lemma ChecksColour(c1: Colour, c2: Colour, w: real, h: real, random: nat -> real,
                     i: int, j: int, px: real, py: real)
    requires w > 0.0 && h > 0.0
    requires 0 <= i < 10 && 0 <= j < 10 && InCell(i, j, w, h, px, py)
    ensures ColourAt(PatternCommands("checks", c1, c2, w, h, random), px, py)
         == Some(if (i + j) % 2 == 0 then c2 else c1)
  {
    assert InCanvas(w, h, px, py) by {
      StepWithin(i, 10, w / 10.0, w / 10.0);
      StepWithin(j, 10, h / 10.0, h / 10.0);
    }
    ChecksUpToForm(10, w, h, c2);
    ColourOverBackground(Background(w, h, c1), Checks(w, h, c2), c2, px, py);
    ChecksCover(w, h, c2, i, j, px, py);
  }

  // ---------------------------------------------------------------------
  // Dots
  // ---------------------------------------------------------------------

  /** A dot centred on the canvas with a radius from 6 up to 16. */
  predicate DotWithin(d: Circle, w: real, h: real) {
    0.0 <= d.cx < w && 0.0 <= d.cy < h && 6.0 <= d.r < 16.0
  }

  /** A fraction below 1 of a positive length stays below it. */
  lemma FractionOf(a: real, len: real)
    requires 0.0 <= a < 1.0 && len > 0.0
    ensures 0.0 <= a * len < len
  {
    assert (1.0 - a) * len > 0.0;
  }

  /** With Math.random's values in [0, 1), dot `k` is centred on the canvas
      and has a radius from 6 up to 16. */
  lemma DotPlaced(w: real, h: real, random: nat -> real, k: nat)
    requires forall n :: 0.0 <= random(n) < 1.0
    requires w > 0.0 && h > 0.0
    ensures DotWithin(Dot(k, w, h, random), w, h)
  {
    FractionOf(random(3 * k), w);
    FractionOf(random(3 * k + 1), h);
    FractionOf(random(3 * k + 2), 10.0);
  }

  /** With Math.random's values in [0, 1), the dots pattern paints a hundred
      single-circle paths, each centred on the canvas with a radius in [6, 16). */
  lemma DotsLayout(c1: Colour, c2: Colour, w: real, h: real, random: nat -> real)
    requires forall n :: 0.0 <= random(n) < 1.0
    requires w > 0.0 && h > 0.0
    ensures var cmds := PatternCommands("dots", c1, c2, w, h, random);
      && |cmds| == 101
      && forall k :: 1 <= k < 101 ==>
           cmds[k].PathFill? && |cmds[k].circles| == 1 && DotWithin(cmds[k].circles[0], w, h)
  {
    var cmds := PatternCommands("dots", c1, c2, w, h, random);
    forall k | 1 <= k < 101
      ensures cmds[k].PathFill? && |cmds[k].circles| == 1 && DotWithin(cmds[k].circles[0], w, h)
    {
      assert cmds[k] == PathFill([Dot(k - 1, w, h, random)], c2);
      DotPlaced(w, h, random, k - 1);
    }
  }
}
