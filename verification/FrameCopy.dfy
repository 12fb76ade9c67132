/** Copying the decoded pixels of an image into the screen: row order, clipping and transparency. */
module FrameCopy {
  import opened BitStrings
  import opened Interlace

  /** Screen size and image rectangle. */
  datatype Geometry = Geometry(width: nat, height: nat, ix: nat, iy: nat, iw: nat, ih: nat, interlace: bool)

  function At(width: nat, x: nat, y: nat): nat { y * width + x }

  /** The last of the first n steps that fills screen line y, or -1. */
  ghost function StepFilling(g: Geometry, n: nat, y: nat): (k: int)
    ensures k == -1 || (0 <= k < n && g.iy + Row(g.interlace, g.ih, k) == y)
    ensures k == -1 ==> forall j :: 0 <= j < n ==> g.iy + Row(g.interlace, g.ih, j) != y
  {
    if n == 0 then -1
    else if g.iy + Row(g.interlace, g.ih, n - 1) == y then n - 1
    else StepFilling(g, n - 1, y)
  }

  /** The colour the first n steps bring to screen position (x, y); 0 when they bring none. */
  ghost function Brought(g: Geometry, pixels: seq<byte>, act: seq<int>, n: nat, x: nat, y: nat): int
    requires |pixels| >= g.iw * g.ih && |act| == 256 && n <= g.ih
  {
    var k := StepFilling(g, n, y);
    if k >= 0 && g.ix <= x < g.ix + g.iw then
      SourceInRange(g, k, x - g.ix);
      act[pixels[k * g.iw + (x - g.ix)]]
    else 0
  }

  /** A colour of 0 leaves the screen as it was. */
  function Over(c: int, was: int): int { if c != 0 then c else was }

  lemma SourceInRange(g: Geometry, k: nat, t: nat)
    requires k < g.ih && t < g.iw
    ensures k * g.iw + t < g.iw * g.ih
  {
    NextMultiple(g.iw, k, g.ih);
    Commute(g.iw, k);
  }

  lemma Commute(a: int, b: int)
    ensures a * b == b * a
  {
  }

  lemma AtInRange(width: nat, height: nat, x: nat, y: nat)
    requires x < width && y < height
    ensures At(width, x, y) < width * height
  {
    NextMultiple(width, y, height);
    Commute(width, y);
  }

  /** What the screen holds after the first n steps. */
  ghost predicate Shows(g: Geometry, pixels: seq<byte>, act: seq<int>, n: nat, was: seq<int>, screen: seq<int>)
    requires |pixels| >= g.iw * g.ih && |act| == 256 && n <= g.ih
  {
    && |was| == |screen| && g.width * g.height <= |screen|
    && (forall x, y :: 0 <= x < g.width && 0 <= y < g.height ==>
          AtInScreen(g, x, y) &&
          screen[At(g.width, x, y)] == Over(Brought(g, pixels, act, n, x, y), was[At(g.width, x, y)]))
    && (forall j :: g.width * g.height <= j < |screen| ==> screen[j] == was[j])
  }

  ghost predicate AtInScreen(g: Geometry, x: nat, y: nat) {
    At(g.width, x, y) < g.width * g.height
  }

  /** The inner loop: one source row into the destination from dx up to dlim. */
  method CopyRow(dest: array<int>, pixels: array<byte>, act: array<int>, dx0: nat, dlim: int, sx0: nat)
    requires dest != act && act.Length == 256
    requires dx0 < dlim ==> dlim <= dest.Length && sx0 + (dlim - dx0) <= pixels.Length
    modifies dest
    ensures RowCopied(old(dest[..]), dest[..], pixels[..], act[..], dx0, dlim, sx0)
  {
    var dx, sx := dx0, sx0;
    while dx < dlim
      invariant dx0 <= dx && (dx0 < dlim ==> dx <= dlim) && sx - sx0 == dx - dx0
      invariant forall j :: 0 <= j < dest.Length ==>
                  dest[j] == if dx0 <= j < dx && j < dlim && act[pixels[sx0 + j - dx0]] != 0
                             then act[pixels[sx0 + j - dx0]] else old(dest[j])
    {
      var index := pixels[sx];
      sx := sx + 1;
      var c := act[index];
      if c != 0 {
        dest[dx] := c;
      }
      dx := dx + 1;
    }
  }

  /** One row copied from the source, as CopyRow leaves the destination. */
  ghost predicate RowCopied(screen: seq<int>, screen': seq<int>, pixels: seq<byte>, act: seq<int>, dx: nat,
                            dlim: int, sx: nat)
    requires |act| == 256 && (dx < dlim ==> sx + (dlim - dx) <= |pixels|)
  {
    |screen'| == |screen| &&
    forall j :: 0 <= j < |screen| ==>
      screen'[j] == if dx <= j < dlim && act[pixels[sx + j - dx]] != 0 then act[pixels[sx + j - dx]] else screen[j]
  }

  /** Source row i copied into screen line `line`, clipped at the right edge. */
  ghost predicate LineCopied(g: Geometry, pixels: seq<byte>, act: seq<int>, i: nat, screen: seq<int>, screen': seq<int>,
                             line: nat)
    requires |pixels| >= g.iw * g.ih && |act| == 256 && i < g.ih
  {
    RowInSource(g, i);
    var dx := line * g.width + g.ix;
    var dlim := if line * g.width + g.width < dx + g.iw then line * g.width + g.width else dx + g.iw;
    RowCopied(screen, screen', pixels, act, dx, dlim, i * g.iw)
  }

  /** Nothing is stored outside the screen line. */
  lemma OtherLine(width: nat, x: nat, y: nat, line: nat)
    requires x < width && y != line
    ensures At(width, x, y) < line * width || line * width + width <= At(width, x, y)
  {
    if y < line { NextMultiple(width, y, line); } else { NextMultiple(width, line, y); }
    Commute(width, y);
    Commute(width, line);
  }

  /** The step at i changes only what the rows so far bring to its own line. */
  lemma BroughtBefore(g: Geometry, pixels: seq<byte>, act: seq<int>, i: nat, x: nat, y: nat)
    requires |pixels| >= g.iw * g.ih && |act| == 256 && i < g.ih
    ensures y != g.iy + Row(g.interlace, g.ih, i) ==>
              Brought(g, pixels, act, i + 1, x, y) == Brought(g, pixels, act, i, x, y)
    ensures y == g.iy + Row(g.interlace, g.ih, i) ==> Brought(g, pixels, act, i, x, y) == 0
  {
    var k := StepFilling(g, i, y);
    if y == g.iy + Row(g.interlace, g.ih, i) && k != -1 {
      RowsDistinct(g.interlace, g.ih, k, i);
    }
  }

  lemma LineShown(g: Geometry, pixels: seq<byte>, act: seq<int>, i: nat, was: seq<int>, screen: seq<int>,
                  screen': seq<int>, x: nat, y: nat)
    requires |pixels| >= g.iw * g.ih && |act| == 256 && i < g.ih
    requires Shows(g, pixels, act, i, was, screen)
    requires x < g.width && y < g.height && y == g.iy + Row(g.interlace, g.ih, i)
    requires LineCopied(g, pixels, act, i, screen, screen', y)
    ensures AtInScreen(g, x, y)
    ensures screen'[At(g.width, x, y)] == Over(Brought(g, pixels, act, i + 1, x, y), was[At(g.width, x, y)])
  {
    hide Row;
    AtInRange(g.width, g.height, x, y);
    BroughtBefore(g, pixels, act, i, x, y);
    assert screen[At(g.width, x, y)] == was[At(g.width, x, y)];
    assert StepFilling(g, i + 1, y) == i;
  }

  lemma OtherLineShown(g: Geometry, pixels: seq<byte>, act: seq<int>, i: nat, was: seq<int>, screen: seq<int>,
                       screen': seq<int>, x: nat, y: nat, line: nat)
    requires |pixels| >= g.iw * g.ih && |act| == 256 && i < g.ih
    requires Shows(g, pixels, act, i, was, screen) && |screen'| == |screen|
    requires x < g.width && y < g.height && y != line == g.iy + Row(g.interlace, g.ih, i)
    requires forall j :: 0 <= j < |screen| && (j < line * g.width || line * g.width + g.width <= j) ==>
             screen'[j] == screen[j]
    ensures AtInScreen(g, x, y)
    ensures screen'[At(g.width, x, y)] == Over(Brought(g, pixels, act, i + 1, x, y), was[At(g.width, x, y)])
  {
    hide Row;
    AtInRange(g.width, g.height, x, y);
    BroughtBefore(g, pixels, act, i, x, y);
    OtherLine(g.width, x, y, line);
    hide At;
  }

  /** One step of the row loop: from what the first i steps show to what the first i + 1 show. */
  lemma CopyStep(g: Geometry, pixels: seq<byte>, act: seq<int>, i: nat, was: seq<int>, screen: seq<int>,
                 screen': seq<int>, line: nat)
    requires |pixels| >= g.iw * g.ih && |act| == 256 && i < g.ih
    requires Shows(g, pixels, act, i, was, screen)
    requires line == g.iy + Row(g.interlace, g.ih, i)
    requires if line < g.height then LineCopied(g, pixels, act, i, screen, screen', line) else screen' == screen
    ensures Shows(g, pixels, act, i + 1, was, screen')
  {
    hide Row, Brought, At;
    if line < g.height { LineInScreen(g, line); }
    forall x, y | 0 <= x < g.width && 0 <= y < g.height
      ensures AtInScreen(g, x, y)
      ensures screen'[At(g.width, x, y)] == Over(Brought(g, pixels, act, i + 1, x, y), was[At(g.width, x, y)])
    {
      if y == line {
        LineShown(g, pixels, act, i, was, screen, screen', x, y);
      } else {
        OtherLineShown(g, pixels, act, i, was, screen, screen', x, y, line);
      }
    }
  }

  lemma LineInScreen(g: Geometry, line: nat)
    requires line < g.height
    ensures line * g.width + g.width <= g.width * g.height
  {
    NextMultiple(g.width, line, g.height);
    Commute(g.width, line);
  }

  lemma RowInSource(g: Geometry, i: nat)
    requires i < g.ih
    ensures i * g.iw + g.iw <= g.iw * g.ih
  {
    NextMultiple(g.iw, i, g.ih);
    Commute(g.iw, i);
  }

  /** Source row i clipped into screen line `line`. */
  method CopyLine(g: Geometry, dest: array<int>, pixels: array<byte>, act: array<int>, line: nat, i: nat)
    requires dest != act && act.Length == 256
    requires pixels.Length >= g.iw * g.ih && dest.Length >= g.width * g.height
    requires line < g.height && i < g.ih
    modifies dest
    ensures LineCopied(g, pixels[..], act[..], i, old(dest[..]), dest[..], line)
  {
    hide RowCopied;
    RowInSource(g, i);
    LineInScreen(g, line);
    var k, sx := line * g.width, i * g.iw;
    assert sx + g.iw <= pixels.Length && k + g.width <= dest.Length;
    var dx := k + g.ix;
    var dlim := dx + g.iw;
    if k + g.width < dlim {
      dlim := k + g.width;
    }
    CopyRow(dest, pixels, act, dx, dlim, sx);
  }

  /** The row of the next step of an interlaced image, and the loop's variables after it. */
  method NextLine(ih: nat, ghost i: nat, pass0: nat, inc0: nat, iline0: nat)
    returns (pass: nat, inc: nat, iline: nat, line: nat)
    requires Schedule(pass0, inc0, iline0) == ScheduleAt(ih, i)
    ensures line == Row(true, ih, i) && Schedule(pass, inc, iline) == ScheduleAt(ih, i + 1)
  {
    pass, inc, iline := pass0, inc0, iline0;
    if iline >= ih {
      pass := pass + 1;
      match pass {
        case 2 =>
          iline := 4;
        case 3 =>
          iline := 2;
          inc := 4;
        case 4 =>
          iline := 1;
          inc := 2;
        case _ =>
      }
    }
    line := iline;
    iline := iline + inc;
  }

  /** The row loop: afterwards the screen shows, at every position, what all steps bring there. */
  method CopyLines(g: Geometry, dest: array<int>, pixels: array<byte>, act: array<int>)
    requires dest != act && act.Length == 256
    requires pixels.Length >= g.iw * g.ih && dest.Length >= g.width * g.height
    modifies dest
    ensures Shows(g, pixels[..], act[..], g.ih, old(dest[..]), dest[..])
  {
    assert ScheduleAt(g.ih, 0) == Schedule(1, 8, 0);
    hide Shows, LineCopied, ScheduleAt, TurnPass;
    var pass, inc, iline := 1, 8, 0;
    ghost var was := dest[..];
    NothingShown(g, pixels[..], act[..], was);
    for i := 0 to g.ih
      invariant g.interlace ==> Schedule(pass, inc, iline) == ScheduleAt(g.ih, i)
      invariant Shows(g, pixels[..], act[..], i, was, dest[..])
    {
      var line := i;
      if g.interlace {
        pass, inc, iline, line := NextLine(g.ih, i, pass, inc, iline);
      }
      line := line + g.iy;
      ghost var before := dest[..];
      if line < g.height {
        CopyLine(g, dest, pixels, act, line, i);
      }
      CopyStep(g, pixels[..], act[..], i, was, before, dest[..], line);
    }
  }

  /**
   * The finished screen, position by position: the colour of the source pixel whose row step k brought there, and what
   * was there before if that colour is 0, no step brought the line, or the column is not one of the image's.
   */
  lemma ScreenShows(g: Geometry, pixels: seq<byte>, act: seq<int>, was: seq<int>, screen: seq<int>, x: nat, y: nat,
                    k: int)
    requires |pixels| >= g.iw * g.ih && |act| == 256 && Shows(g, pixels, act, g.ih, was, screen)
    requires x < g.width && y < g.height && -1 <= k < g.ih
    requires if k >= 0 then g.iy + Row(g.interlace, g.ih, k) == y
             else forall i :: 0 <= i < g.ih ==> g.iy + Row(g.interlace, g.ih, i) != y
    ensures y * g.width + x < |screen| == |was|
    ensures if k >= 0 && g.ix <= x < g.ix + g.iw then
              && k * g.iw + (x - g.ix) < |pixels|
              && var c := act[pixels[k * g.iw + (x - g.ix)]];
                 screen[y * g.width + x] == if c == 0 then was[y * g.width + x] else c
            else screen[y * g.width + x] == was[y * g.width + x]
  {
    hide Row;
    assert AtInScreen(g, x, y);
    var s := StepFilling(g, g.ih, y);
    if s >= 0 && k >= 0 && s != k { RowsDistinct(g.interlace, g.ih, s, k); }
    if k >= 0 && g.ix <= x < g.ix + g.iw { SourceInRange(g, k, x - g.ix); }
  }

  lemma NothingShown(g: Geometry, pixels: seq<byte>, act: seq<int>, screen: seq<int>)
    requires |pixels| >= g.iw * g.ih && |act| == 256 && g.width * g.height <= |screen|
    ensures Shows(g, pixels, act, 0, screen, screen)
  {
    forall x, y | 0 <= x < g.width && 0 <= y < g.height
      ensures AtInScreen(g, x, y)
    {
      AtInRange(g.width, g.height, x, y);
    }
  }

  /** The whole screen after an image was copied over `was`. */
  ghost function Composed(g: Geometry, pixels: seq<byte>, act: seq<int>, was: seq<int>): (screen: seq<int>)
    requires |pixels| >= g.iw * g.ih && |act| == 256
    ensures |screen| == |was|
  {
    seq(|was|, j requires 0 <= j < |was| =>
      if j < g.width * g.height then
        Coordinates(g.width, g.height, j);
        Over(Brought(g, pixels, act, g.ih, j % g.width, j / g.width), was[j])
      else was[j])
  }

  /** Every position is in some column and line. */
  lemma Coordinates(width: nat, height: nat, j: nat)
    requires j < width * height
    ensures width > 0 && j % width < width && 0 <= j / width < height && At(width, j % width, j / width) == j
  {
    if j / width >= height { LineTooLow(width, height, j); }
  }

  lemma LineTooLow(width: nat, height: nat, j: nat)
    requires width > 0 && j / width >= height
    ensures j >= width * height
  {
    NextMultiple(width, height, j / width + 1);
  }

  lemma ShowsComposed(g: Geometry, pixels: seq<byte>, act: seq<int>, was: seq<int>, screen: seq<int>)
    requires |pixels| >= g.iw * g.ih && |act| == 256
    requires Shows(g, pixels, act, g.ih, was, screen)
    ensures screen == Composed(g, pixels, act, was)
  {
    hide Brought;
    forall j | 0 <= j < |screen|
      ensures screen[j] == Composed(g, pixels, act, was)[j]
    {
      if j < g.width * g.height {
        Coordinates(g.width, g.height, j);
        assert AtInScreen(g, j % g.width, j / g.width);
      }
    }
  }

  /**
   * What an image brings to the screen, at every height: in its columns the colours of the source row whose step fills
   * the line, elsewhere nothing.
   */
  lemma ImageBrings(g: Geometry, pixels: seq<byte>, act: seq<int>, x: nat, y: nat)
    requires |pixels| >= g.iw * g.ih && |act| == 256
    ensures var k := if y >= g.iy then StepFor(g.interlace, g.ih, y - g.iy) else -1;
            if k >= 0 && g.ix <= x < g.ix + g.iw then
              && k < g.ih && At(g.iw, x - g.ix, k) < |pixels|
              && Brought(g, pixels, act, g.ih, x, y) == act[pixels[At(g.iw, x - g.ix, k)]]
            else Brought(g, pixels, act, g.ih, x, y) == 0
  {
    hide Row, StepFor;
    var k := StepFilling(g, g.ih, y);
    if y >= g.iy {
      StepForFills(g.interlace, g.ih, y - g.iy);
      var s := StepFor(g.interlace, g.ih, y - g.iy);
      if k >= 0 && s >= 0 && k != s { RowsDistinct(g.interlace, g.ih, k, s); }
      if s >= 0 && g.ix <= x < g.ix + g.iw { SourceInRange(g, s, x - g.ix); }
    }
  }

  /** Only the first iw * ih pixels matter. */
  lemma ComposedPrefix(g: Geometry, pixels: seq<byte>, act: seq<int>, was: seq<int>)
    requires |pixels| >= g.iw * g.ih && |act| == 256
    ensures Composed(g, pixels, act, was) == Composed(g, pixels[..g.iw * g.ih], act, was)
  {
    var p := pixels[..g.iw * g.ih];
    var a, b := Composed(g, pixels, act, was), Composed(g, p, act, was);
    forall j | 0 <= j < |was|
      ensures a[j] == b[j]
    {
      if j < g.width * g.height {
        Coordinates(g.width, g.height, j);
        BroughtPrefix(g, pixels, act, j % g.width, j / g.width);
        hide Brought, At;
      }
    }
  }

  lemma BroughtPrefix(g: Geometry, pixels: seq<byte>, act: seq<int>, x: nat, y: nat)
    requires |pixels| >= g.iw * g.ih && |act| == 256
    ensures Brought(g, pixels, act, g.ih, x, y) == Brought(g, pixels[..g.iw * g.ih], act, g.ih, x, y)
  {
    var k := StepFilling(g, g.ih, y);
    if k >= 0 && g.ix <= x < g.ix + g.iw { SourceInRange(g, k, x - g.ix); }
  }
}
