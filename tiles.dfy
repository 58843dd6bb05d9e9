/**
 * The 32x32 two-layer tile grid of one level (ccl::LevelMap). Cells are
 * stored row-major in two flat arrays indexed by y*32 + x: the foreground
 * (visible) layer and the background layer underneath it.
 */
module Tiles {
  import opened Bytes
  import opened Streams

  type Tile = byte

  const Width: nat := 32
  const Height: nat := 32
  const Cells: nat := 1024

  datatype Point = Point(X: int, Y: int)

  /** findNext's answer when no cell holds the tile. */
  const NoPoint := Point(-1, -1)

  function Index(x: int, y: int): int { y * Width + x }

  lemma IndexOfCell(x: int, y: int)
    requires 0 <= x < Width && 0 <= y
    ensures Index(x, y) % Width == x && Index(x, y) / Width == y
  {
  }

  /** The grid's empty layer. */
  function Zeros(): (r: seq<Tile>)
    ensures |r| == Cells && forall i :: 0 <= i < Cells ==> r[i] == 0
  {
    seq(Cells, i => 0)
  }

  // ------------------------------------------------------------------
  // One cell seen as a two-deep stack.
  // ------------------------------------------------------------------

  datatype Stack2 = Stack2(fg: Tile, bg: Tile)

  /** push: the foreground sinks into the background (losing what was there), the tile goes on top. */
  function Pushed(c: Stack2, t: Tile): Stack2 { Stack2(t, c.fg) }

  /** pop: answers the foreground; the background rises and the background becomes 0. */
  function Popped(c: Stack2): (Tile, Stack2) { (c.fg, Stack2(c.bg, 0)) }

  lemma PopUndoesPush(c: Stack2, t: Tile)
    ensures Popped(Pushed(c, t)) == (t, Stack2(c.fg, 0))
  {
  }

  lemma PushForgetsBackground(c: Stack2, t: Tile, u: Tile)
    ensures Pushed(Pushed(c, t), u) == Pushed(Pushed(c.(bg := 0), t), u)
  {
  }

  // ------------------------------------------------------------------
  // copyFrom's rectangle.
  // ------------------------------------------------------------------

  /** The width (or height) after clamping: the rectangle stops at the grid's edge. */
  function Clamp(dest: int, extent: int): (r: int)
    ensures dest + r <= Width
    ensures dest + extent <= Width ==> r == extent
    ensures dest + extent > Width ==> r == Width - dest
    ensures r <= extent
  {
    if dest + extent > Width then Width - dest else extent
  }

  /** Cell `i` lies in the `w` by `h` rectangle whose top-left corner is (dx, dy). */
  predicate InRect(i: int, dx: int, dy: int, w: int, h: int) {
    dx <= i % Width < dx + w && dy <= i / Width < dy + h
  }

  /** The source cell that destination cell `i` copies. */
  function SourceOf(i: int, sx: int, sy: int, dx: int, dy: int): int {
    Index(i % Width - dx + sx, i / Width - dy + sy)
  }

  /** A non-empty `w` by `h` source rectangle at (sx, sy) lies inside the grid. */
  predicate SourceFits(sx: int, sy: int, w: int, h: int) {
    w > 0 && h > 0 ==> 0 <= sx && sx + w <= Width && 0 <= sy && sy + h <= Height
  }

  lemma SourceInGrid(i: int, sx: int, sy: int, dx: int, dy: int, w: int, h: int)
    requires SourceFits(sx, sy, w, h) && InRect(i, dx, dy, w, h)
    ensures 0 <= SourceOf(i, sx, sy, dx, dy) < Cells
  {
  }

  /**
   * The layer `dst` after cell (dx + x, dy + y) has taken the source cell
   * (sx + x, sy + y) for every x < w and y < h; every other cell is kept.
   */
  function CopyLayer(dst: seq<Tile>, src: seq<Tile>, sx: int, sy: int, dx: int, dy: int, w: int, h: int): (r: seq<Tile>)
    requires |dst| == Cells && |src| == Cells && SourceFits(sx, sy, w, h)
    ensures |r| == Cells
  {
    seq(Cells, i requires 0 <= i < Cells =>
      if InRect(i, dx, dy, w, h) then (SourceInGrid(i, sx, sy, dx, dy, w, h); src[SourceOf(i, sx, sy, dx, dy)])
      else dst[i])
  }

  /** The copy loop's progress: columns before `x` done, and the first `y` rows of column `x`. */
  ghost predicate CopiedBy(i: int, dx: int, dy: int, h: int, x: int, y: int) {
    InRect(i, dx, dy, x, h) || InRect(i, dx + x, dy, 1, y)
  }

  ghost function CopyPartial(dst: seq<Tile>, src: seq<Tile>, sx: int, sy: int, dx: int, dy: int, w: int, h: int,
                             x: int, y: int): (r: seq<Tile>)
    requires |dst| == Cells && |src| == Cells && SourceFits(sx, sy, w, h)
    requires 0 <= x <= w && 0 <= y <= h && (x < w || y == 0)
    ensures |r| == Cells
  {
    seq(Cells, i requires 0 <= i < Cells =>
      if CopiedBy(i, dx, dy, h, x, y) then (CopiedInRect(i, dx, dy, w, h, x, y); SourceInGrid(i, sx, sy, dx, dy, w, h);
        src[SourceOf(i, sx, sy, dx, dy)])
      else dst[i])
  }

  lemma CopiedInRect(i: int, dx: int, dy: int, w: int, h: int, x: int, y: int)
    requires 0 <= x <= w && 0 <= y <= h && (x < w || y == 0) && CopiedBy(i, dx, dy, h, x, y)
    ensures InRect(i, dx, dy, w, h)
  {
  }

  lemma CopyNothing(dst: seq<Tile>, src: seq<Tile>, sx: int, sy: int, dx: int, dy: int, w: int, h: int)
    requires |dst| == Cells && |src| == Cells && SourceFits(sx, sy, w, h) && (w <= 0 || h <= 0)
    ensures CopyLayer(dst, src, sx, sy, dx, dy, w, h) == dst
  {
  }

  lemma CopyStep(dst: seq<Tile>, src: seq<Tile>, sx: int, sy: int, dx: int, dy: int, w: int, h: int, x: int, y: int)
    requires |dst| == Cells && |src| == Cells && SourceFits(sx, sy, w, h)
    requires 0 <= x < w && 0 <= y < h && 0 <= dx && dx + w <= Width && 0 <= dy && dy + h <= Height
    ensures 0 <= Index(x + dx, y + dy) < Cells && 0 <= Index(x + sx, y + sy) < Cells
    ensures CopyPartial(dst, src, sx, sy, dx, dy, w, h, x, y + 1)
         == CopyPartial(dst, src, sx, sy, dx, dy, w, h, x, y)[Index(x + dx, y + dy) := src[Index(x + sx, y + sy)]]
  {
    var k := Index(x + dx, y + dy);
    IndexOfCell(x + dx, y + dy);
    var l, r := CopyPartial(dst, src, sx, sy, dx, dy, w, h, x, y + 1),
      CopyPartial(dst, src, sx, sy, dx, dy, w, h, x, y)[k := src[Index(x + sx, y + sy)]];
    forall i | 0 <= i < Cells ensures l[i] == r[i] {
      if i == k {
        assert SourceOf(i, sx, sy, dx, dy) == Index(x + sx, y + sy);
      }
    }
  }

  lemma CopyColumnDone(dst: seq<Tile>, src: seq<Tile>, sx: int, sy: int, dx: int, dy: int, w: int, h: int, x: int)
    requires |dst| == Cells && |src| == Cells && SourceFits(sx, sy, w, h)
    requires 0 <= x < w && 0 < h
    ensures CopyPartial(dst, src, sx, sy, dx, dy, w, h, x, h) == CopyPartial(dst, src, sx, sy, dx, dy, w, h, x + 1, 0)
  {
    var l, r := CopyPartial(dst, src, sx, sy, dx, dy, w, h, x, h), CopyPartial(dst, src, sx, sy, dx, dy, w, h, x + 1, 0);
    forall i | 0 <= i < Cells ensures l[i] == r[i] {
      assert CopiedBy(i, dx, dy, h, x, h) == CopiedBy(i, dx, dy, h, x + 1, 0);
    }
  }

  lemma CopyAllDone(dst: seq<Tile>, src: seq<Tile>, sx: int, sy: int, dx: int, dy: int, w: int, h: int)
    requires |dst| == Cells && |src| == Cells && SourceFits(sx, sy, w, h) && 0 < w && 0 < h
    ensures CopyPartial(dst, src, sx, sy, dx, dy, w, h, w, 0) == CopyLayer(dst, src, sx, sy, dx, dy, w, h)
  {
    var l, r := CopyPartial(dst, src, sx, sy, dx, dy, w, h, w, 0), CopyLayer(dst, src, sx, sy, dx, dy, w, h);
    forall i | 0 <= i < Cells ensures l[i] == r[i] {
      assert CopiedBy(i, dx, dy, h, w, 0) == InRect(i, dx, dy, w, h);
    }
  }

  // ------------------------------------------------------------------
  // The grid object.
  // ------------------------------------------------------------------

  class LevelMap {
    var fg: array<Tile>
    var bg: array<Tile>

    ghost predicate Valid()
      reads this
    {
      fg.Length == Cells && bg.Length == Cells && fg != bg
    }

    ghost function CellAt(i: int): Stack2
      reads this, fg, bg
      requires Valid() && 0 <= i < Cells
    {
      Stack2(fg[i], bg[i])
    }

    /** A fresh grid: both layers zeroed. */
    constructor ()
      ensures Valid() && fresh(fg) && fresh(bg)
      ensures fg[..] == Zeros() && bg[..] == Zeros()
    {
      fg := new Tile[Cells](i => 0);
      bg := new Tile[Cells](i => 0);
    }

    /** Assignment from another grid: both layers copied. */
    method Assign(source: LevelMap)
      requires Valid() && source.Valid()
      requires source.fg != bg && source.bg != fg
      modifies fg, bg
      ensures fg[..] == old(source.fg[..]) && bg[..] == old(source.bg[..])
    {
      forall i | 0 <= i < Cells {
        fg[i] := source.fg[i];
      }
      forall i | 0 <= i < Cells {
        bg[i] := source.bg[i];
      }
    }

    /**
     * Copies a rectangle of both layers from `source`, clamping the width and
     * height so that the destination rectangle ends at the grid's edge. The
     * source rectangle is not clamped; callers keep it, and the destination
     * corner, inside the grid.
     */
    method CopyFrom(source: LevelMap, srcX: int, srcY: int, destX: int, destY: int, width: int, height: int)
      requires Valid() && source.Valid()
      requires {source.fg, source.bg} !! {fg, bg}
      requires 0 <= destX && 0 <= destY
      requires SourceFits(srcX, srcY, Clamp(destX, width), Clamp(destY, height))
      modifies fg, bg
      ensures var w, h := Clamp(destX, width), Clamp(destY, height);
        && fg[..] == CopyLayer(old(fg[..]), source.fg[..], srcX, srcY, destX, destY, w, h)
        && bg[..] == CopyLayer(old(bg[..]), source.bg[..], srcX, srcY, destX, destY, w, h)
    {
      var w, h := width, height;
      if destX + w > Width {
        w := Width - destX;
      }
      if destY + h > Height {
        h := Height - destY;
      }
      if w <= 0 || h <= 0 {
        CopyNothing(fg[..], source.fg[..], srcX, srcY, destX, destY, w, h);
        CopyNothing(bg[..], source.bg[..], srcX, srcY, destX, destY, w, h);
        return;
      }
      ghost var f0, b0, sf, sb := fg[..], bg[..], source.fg[..], source.bg[..];
      var x := 0;
      while x < w
        invariant 0 <= x <= w
        invariant fg[..] == CopyPartial(f0, sf, srcX, srcY, destX, destY, w, h, x, 0)
        invariant bg[..] == CopyPartial(b0, sb, srcX, srcY, destX, destY, w, h, x, 0)
      {
        CopyColumn(source, srcX, srcY, destX, destY, w, h, x, f0, b0);
        CopyColumnDone(f0, sf, srcX, srcY, destX, destY, w, h, x);
        CopyColumnDone(b0, sb, srcX, srcY, destX, destY, w, h, x);
        x := x + 1;
      }
      CopyAllDone(f0, sf, srcX, srcY, destX, destY, w, h);
      CopyAllDone(b0, sb, srcX, srcY, destX, destY, w, h);
    }

    /** copyFrom's inner loop: column `x` of the clamped rectangle, top to bottom. */
    method CopyColumn(source: LevelMap, srcX: int, srcY: int, destX: int, destY: int, w: int, h: int, x: int,
                      ghost f0: seq<Tile>, ghost b0: seq<Tile>)
      requires Valid() && source.Valid() && {source.fg, source.bg} !! {fg, bg}
      requires |f0| == Cells && |b0| == Cells && SourceFits(srcX, srcY, w, h)
      requires 0 <= x < w && 0 < h && 0 <= destX && destX + w <= Width && 0 <= destY && destY + h <= Height
      requires fg[..] == CopyPartial(f0, source.fg[..], srcX, srcY, destX, destY, w, h, x, 0)
      requires bg[..] == CopyPartial(b0, source.bg[..], srcX, srcY, destX, destY, w, h, x, 0)
      modifies fg, bg
      ensures fg[..] == CopyPartial(f0, source.fg[..], srcX, srcY, destX, destY, w, h, x, h)
      ensures bg[..] == CopyPartial(b0, source.bg[..], srcX, srcY, destX, destY, w, h, x, h)
    {
      ghost var sf, sb := source.fg[..], source.bg[..];
      var y := 0;
      while y < h
        invariant 0 <= y <= h
        invariant fg[..] == CopyPartial(f0, sf, srcX, srcY, destX, destY, w, h, x, y)
        invariant bg[..] == CopyPartial(b0, sb, srcX, srcY, destX, destY, w, h, x, y)
      {
        var k := Index(x + destX, y + destY);
        CopyStep(f0, sf, srcX, srcY, destX, destY, w, h, x, y);
        CopyStep(b0, sb, srcX, srcY, destX, destY, w, h, x, y);
        fg[k] := source.fg[Index(x + srcX, y + srcY)];
        bg[k] := source.bg[Index(x + srcX, y + srcY)];
        y := y + 1;
      }
    }

    method Push(x: int, y: int, tile: Tile)
      requires Valid() && 0 <= Index(x, y) < Cells
      modifies fg, bg
      ensures var k := Index(x, y);
        && CellAt(k) == Pushed(old(CellAt(k)), tile)
        && fg[..] == old(fg[..])[k := fg[k]] && bg[..] == old(bg[..])[k := bg[k]]
    {
      var k := Index(x, y);
      bg[k] := fg[k];
      fg[k] := tile;
    }

    method Pop(x: int, y: int) returns (tile: Tile)
      requires Valid() && 0 <= Index(x, y) < Cells
      modifies fg, bg
      ensures var k := Index(x, y);
        && (tile, CellAt(k)) == Popped(old(CellAt(k)))
        && fg[..] == old(fg[..])[k := fg[k]] && bg[..] == old(bg[..])[k := bg[k]]
    {
      var k := Index(x, y);
      tile := fg[k];
      fg[k] := bg[k];
      bg[k] := 0;
    }

    /** Tile `tile` is in either layer of cell `i`. */
    ghost predicate Has(i: int, tile: Tile)
      reads this, fg, bg
      requires Valid() && 0 <= i < Cells
    {
      fg[i] == tile || bg[i] == tile
    }

    /**
     * Scans row-major from the cell after (x, y), wrapping to the next row
     * and from the last cell to (0, 0), for a cell holding `tile` in either
     * layer; the start cell is visited last.
     */
    method FindNext(x: int, y: int, tile: Tile) returns (r: Point)
      requires Valid() && 0 <= x < Width && 0 <= y < Height
      ensures r == NoPoint <==> forall i :: 0 <= i < Cells ==> !Has(i, tile)
      ensures r != NoPoint ==>
        && 0 <= r.X < Width && 0 <= r.Y < Height && Has(Index(r.X, r.Y), tile)
        && forall j :: 1 <= j < Steps(Index(x, y), Index(r.X, r.Y)) ==> !Has(Visit(Index(x, y), j), tile)
    {
      ghost var start := Index(x, y);
      var rx, ry := x, y;
      ghost var k := 0;
      while true
        invariant 0 <= rx < Width && 0 <= ry < Height && 0 <= k < Cells
        invariant Index(rx, ry) == Visit(start, k)
        invariant forall j :: 1 <= j <= k ==> !Has(Visit(start, j), tile)
        decreases Cells - k
      {
        ghost var (x0, y0) := (rx, ry);
        rx := rx + 1;
        if rx >= Width {
          ry := ry + 1;
          if ry >= Height {
            ry := 0;
          }
          rx := 0;
        }
        NextCell(x0, y0, rx, ry);
        VisitNext(start, k);
        k := k + 1;
        if fg[Index(rx, ry)] == tile || bg[Index(rx, ry)] == tile {
          StepsOfVisit(start, k);
          assert Has(Index(rx, ry), tile);
          return Point(rx, ry);
        }
        if rx == x && ry == y {
          VisitReturns(start, k);
          forall i | 0 <= i < Cells ensures !Has(i, tile) {
            VisitCovers(start, i);
          }
          return NoPoint;
        }
        VisitFull(start);
      }
    }

    /** LevelMap::read: the foreground layer then the background layer, run-length coded. */
    method Read(s: Stream) returns (r: Result<nat>)
      requires Valid() && s.Valid()
      modifies s, fg, bg
      ensures s.Valid() && s.data == old(s.data)
      ensures match DecodeLayers(s.data, old(s.pos))
        case Success(l) => r == Success(l.next - old(s.pos)) && s.pos == l.next && fg[..] == l.fg && bg[..] == l.bg
        case Failure(e) => r == Failure(e)
    {
      var begin := s.Tell();
      var f :- s.ReadRle(fg);
      var b :- s.ReadRle(bg);
      r := Success(s.Tell() - begin);
    }

    /** LevelMap::write: answers the number of bytes written. */
    method Write(s: Stream) returns (n: nat)
      requires Valid() && s.Valid()
      modifies s
      ensures s.Valid() && s.data == Splice(old(s.data), old(s.pos), LayersBytes(fg[..], bg[..]))
      ensures s.pos == old(s.pos) + n && n == |LayersBytes(fg[..], bg[..])|
    {
      ghost var d0, p0 := s.data, s.pos;
      ghost var f, b := fg[..], bg[..];
      ghost var e1, e2 := RleEncode(f), RleEncode(b);
      var n1 := s.WriteRle(fg, f);
      var n2 := s.WriteRle(bg, b);
      SpliceExtend(d0, p0, e1, e2, LayersBytes(f, b));
      n := n1 + n2;
    }
  }

  /** The k-th cell visited after cell `start`. */
  function Visit(start: int, k: int): int { (start + k) % Cells }

  /** How many steps after `start` the scan reaches cell `i` (the start itself is step 1024). */
  function Steps(start: int, i: int): int { (i - start - 1) % Cells + 1 }

  /** The scan's step from (x0, y0) to (x1, y1) moves to the next cell in row-major order, wrapping at the end. */
  lemma NextCell(x0: int, y0: int, x1: int, y1: int)
    requires 0 <= x0 < Width && 0 <= y0 < Height
    requires x1 == (if x0 + 1 >= Width then 0 else x0 + 1)
    requires y1 == (if x0 + 1 < Width then y0 else if y0 + 1 >= Height then 0 else y0 + 1)
    ensures Index(x1, y1) == (Index(x0, y0) + 1) % Cells
  {
  }

  lemma VisitNext(start: int, k: int)
    requires 0 <= start < Cells && 0 <= k
    ensures Visit(start, k + 1) == (Visit(start, k) + 1) % Cells
  {
  }

  lemma VisitFull(start: int)
    requires 0 <= start < Cells
    ensures Visit(start, Cells) == start
  {
  }

  lemma StepsOfVisit(start: int, k: int)
    requires 0 <= start < Cells && 1 <= k <= Cells
    ensures Steps(start, Visit(start, k)) == k
  {
  }

  lemma VisitCovers(start: int, i: int)
    requires 0 <= start < Cells && 0 <= i < Cells
    ensures 1 <= Steps(start, i) <= Cells && Visit(start, Steps(start, i)) == i
  {
  }

  lemma VisitReturns(start: int, k: int)
    requires 0 <= start < Cells && 1 <= k <= Cells && Visit(start, k) == start
    ensures k == Cells
  {
  }

  /** Both layers as the stream holds them. */
  function LayersBytes(fg: seq<Tile>, bg: seq<Tile>): seq<byte> {
    RleEncode(fg) + RleEncode(bg)
  }

  datatype Layers = Layers(fg: seq<Tile>, bg: seq<Tile>, next: nat)

  function DecodeLayers(d: seq<byte>, p: nat): (r: Result<Layers>)
    requires p <= |d|
    ensures r.Success? ==> |r.value.fg| == Cells && |r.value.bg| == Cells && p <= r.value.next <= |d|
    ensures r.Failure? ==> r.error == EndOfStream || r.error == InvalidRun
  {
    var f :- RleDecode(d, p, Cells);
    var b :- RleDecode(d, f.next, Cells);
    Success(Layers(f.val, b.val, b.next))
  }

  /** `r` decoded both layers as `fg` and `bg`, stopping at `next`. */
  predicate LayersRead(r: Result<Layers>, fg: seq<Tile>, bg: seq<Tile>, next: nat) {
    r.Success? && r.value.fg == fg && r.value.bg == bg && r.value.next == next
  }

  lemma LayersStep(d: seq<byte>, p: nat, fg: seq<Tile>, q: nat, bg: seq<Tile>, next: nat)
    requires p <= |d| && RleDecode(d, p, Cells) == Success(Read(fg, q))
    requires q <= |d| && RleDecode(d, q, Cells) == Success(Read(bg, next))
    ensures LayersRead(DecodeLayers(d, p), fg, bg, next)
  {
  }

  /** The layers write emits read back, and the read stops right after them. */
  lemma LayersRoundTrip(d: seq<byte>, p: nat, fg: seq<Tile>, bg: seq<Tile>)
    requires |fg| == Cells && |bg| == Cells && Holds(d, p, LayersBytes(fg, bg))
    ensures LayersRead(DecodeLayers(d, p), fg, bg, p + |LayersBytes(fg, bg)|)
  {
    LayersDecode(d, p, fg, bg, RleEncode, p + |RleEncode(fg)|, p + |LayersBytes(fg, bg)|);
  }

  /** LayersRoundTrip, with the run-length encoder seen as `enc`, and where each layer ends. */
  lemma LayersDecode(d: seq<byte>, p: nat, fg: seq<Tile>, bg: seq<Tile>, enc: seq<byte> -> seq<byte>, q: nat, e: nat)
    requires IsRleEncoder(enc) && |fg| == Cells && |bg| == Cells && Holds(d, p, enc(fg) + enc(bg))
    requires q == p + |enc(fg)| && e == q + |enc(bg)|
    ensures LayersRead(DecodeLayers(d, p), fg, bg, e)
  {
    HoldsSplit(d, p, enc(fg), enc(bg));
    RleDecodes(d, p, fg, enc, q);
    RleDecodes(d, q, bg, enc, e);
    LayersStep(d, p, fg, q, bg, e);
  }

  /** A client of push and pop: popping right after a push answers the pushed tile and restores the foreground. */
  method PushThenPop(m: LevelMap, x: int, y: int, tile: Tile) returns (got: Tile)
    requires m.Valid() && 0 <= Index(x, y) < Cells
    modifies m.fg, m.bg
    ensures got == tile
    ensures var k := Index(x, y);
      m.fg[..] == old(m.fg[..]) && m.bg[..] == old(m.bg[..])[k := 0]
  {
    ghost var k := Index(x, y);
    m.Push(x, y, tile);
    got := m.Pop(x, y);
    PopUndoesPush(old(m.CellAt(k)), tile);
    assert m.fg[..] == old(m.fg[..]);
    assert m.bg[..] == old(m.bg[..])[k := 0];
  }
}
