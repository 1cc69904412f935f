/** src/framebuffer.c as functions on values.  Every painting function takes a flag: `diff` for the kernel's
    differential copy, which skips pixels it believes unchanged, or a plain copy that skips nothing. */
module FramebufferSpec {
  import opened LittleEndian

  /** Width, height, bytes per row and bytes per pixel. */
  datatype Geo = Geo(w: nat, h: nat, pitch: nat, bytes: nat)

  /** A row of pixels fits in a row of bytes. */
  predicate GoodGeo(g: Geo) {
    0 < g.w && 0 < g.h && (g.bytes == 3 || g.bytes == 4) && g.w * g.bytes <= g.pitch
  }

  /** The back buffer, its shadow copy, video memory, and fb_force_full. */
  datatype Screen = Screen(draw: seq<u32>, display: seq<u32>, video: seq<byte>, force: bool)

  predicate Fits(s: Screen, g: Geo) {
    |s.draw| == g.w * g.h && |s.display| == g.w * g.h && |s.video| == g.pitch * g.h
  }

  predicate On(g: Geo, x: int, y: int) {
    0 <= x < g.w && 0 <= y < g.h
  }

  /** Where a pixel is in the buffers. */
  function Index(g: Geo, x: nat, y: nat): (i: nat) {
    y * g.w + x
  }

  /** Where a pixel's bytes start in video memory. */
  function Offset(g: Geo, x: nat, y: nat): (o: nat) {
    y * g.pitch + x * g.bytes
  }

  /** Pixels follow each other in a row, and rows follow each other. */
  lemma PixelPlaces(g: Geo, x: nat, y: nat)
    ensures Index(g, 0, 0) == 0 && Index(g, x + 1, y) == Index(g, x, y) + 1
            && Index(g, x, y + 1) == Index(g, x, y) + g.w
    ensures Offset(g, 0, 0) == 0
    ensures Offset(g, x + 1, y) == Offset(g, x, y) + g.bytes && Offset(g, x, y + 1) == Offset(g, x, y) + g.pitch
  {
    NextRow(g.w, y);
    NextRow(g.pitch, y);
    NextRow(g.bytes, x);
  }

  lemma IndexFits(g: Geo, x: nat, y: nat)
    requires On(g, x, y)
    ensures Index(g, x, y) < g.w * g.h
  {
    RowsOrdered(g.w, y, g.h);
  }

  lemma OffsetFits(g: Geo, x: nat, y: nat)
    requires GoodGeo(g) && On(g, x, y)
    ensures Offset(g, x, y) + g.bytes <= g.pitch * g.h
  {
    RowsOrdered(g.bytes, x, g.w);
    RowsOrdered(g.pitch, y, g.h);
  }

  /** Different pixels have different buffer cells. */
  lemma IndexInjective(g: Geo, x: nat, y: nat, x': nat, y': nat)
    requires On(g, x, y) && On(g, x', y') && (x != x' || y != y')
    ensures Index(g, x, y) != Index(g, x', y')
  {
    if y < y' {
      RowsOrdered(g.w, y, y');
    } else if y' < y {
      RowsOrdered(g.w, y', y);
    }
  }

  lemma {:induction false} RowsOrdered(width: nat, y: nat, y': nat)
    requires y < y'
    ensures y * width + width <= y' * width
    decreases y'
  {
    NextRow(width, y' - 1);
    if y < y' - 1 {
      RowsOrdered(width, y, y' - 1);
    }
  }

  lemma NextRow(width: nat, y: nat)
    ensures (y + 1) * width == y * width + width
  {
  }

  /** Different pixels have disjoint bytes. */
  lemma OffsetsDisjoint(g: Geo, x: nat, y: nat, x': nat, y': nat)
    requires GoodGeo(g) && On(g, x, y) && On(g, x', y') && (x != x' || y != y')
    ensures Offset(g, x, y) + g.bytes <= Offset(g, x', y') || Offset(g, x', y') + g.bytes <= Offset(g, x, y)
  {
    if y < y' {
      OffsetsOrdered(g, x, y, x', y');
    } else if y' < y {
      OffsetsOrdered(g, x', y', x, y);
    } else if x < x' {
      RowsOrdered(g.bytes, x, x');
    } else {
      RowsOrdered(g.bytes, x', x);
    }
  }

  lemma OffsetsOrdered(g: Geo, x: nat, y: nat, x': nat, y': nat)
    requires GoodGeo(g) && On(g, x, y) && On(g, x', y') && y < y'
    ensures Offset(g, x, y) + g.bytes <= Offset(g, x', y')
  {
    RowsOrdered(g.bytes, x, g.w);
    RowsOrdered(g.pitch, y, y');
  }

  // ---- one pixel -------------------------------------------------------------------------------------

  /** Some bytes replaced. */
  function Patched(v: seq<byte>, at: nat, b: seq<byte>): (p: seq<byte>)
    requires at + |b| <= |v|
    ensures |p| == |v|
  {
    v[..at] + b + v[at + |b|..]
  }

  /** The bytes video memory shows for a pixel. */
  function Shown(s: Screen, g: Geo, x: nat, y: nat): (b: seq<byte>)
    requires GoodGeo(g) && Fits(s, g) && On(g, x, y)
  {
    OffsetFits(g, x, y);
    s.video[Offset(g, x, y)..Offset(g, x, y) + g.bytes]
  }

  function Drawn(s: Screen, g: Geo, x: nat, y: nat): u32
    requires Fits(s, g) && On(g, x, y)
  {
    IndexFits(g, x, y);
    s.draw[Index(g, x, y)]
  }

  function Displayed(s: Screen, g: Geo, x: nat, y: nat): u32
    requires Fits(s, g) && On(g, x, y)
  {
    IndexFits(g, x, y);
    s.display[Index(g, x, y)]
  }

  function CopyPixel(s: Screen, g: Geo, x: nat, y: nat): (t: Screen)
    requires GoodGeo(g) && Fits(s, g) && On(g, x, y)
    ensures Fits(t, g)
  {
    IndexFits(g, x, y);
    OffsetFits(g, x, y);
    var px := Drawn(s, g, x, y);
    s.(display := s.display[Index(g, x, y) := px], video := Patched(s.video, Offset(g, x, y), Le(px, g.bytes)))
  }

  /** The innermost statement of blit_rect. */
  function Paint(s: Screen, g: Geo, x: nat, y: nat, diff: bool): (t: Screen)
    requires GoodGeo(g) && Fits(s, g) && On(g, x, y)
    ensures Fits(t, g) && t.draw == s.draw && t.force == s.force
  {
    if diff && !s.force && Drawn(s, g, x, y) == Displayed(s, g, x, y) then s else CopyPixel(s, g, x, y)
  }

  // ---- rectangles ------------------------------------------------------------------------------------

  datatype Rect = Rect(x: int, y: int, w: int, h: int)

  /** The part of a rectangle on the screen, as blit_rect cuts it; empty areas are all zero. */
  datatype Area = Area(x: nat, y: nat, w: nat, h: nat)

  function Clip(g: Geo, r: Rect): (a: Area)
    ensures a.x + a.w <= g.w && a.y + a.h <= g.h
    ensures forall i, j :: InArea(a, i, j) <==> On(g, i, j) && r.x <= i < r.x + r.w && r.y <= j < r.y + r.h
  {
    var x, w := if r.x < 0 then 0 else r.x, if r.x < 0 then r.w + r.x else r.w;
    var y, h := if r.y < 0 then 0 else r.y, if r.y < 0 then r.h + r.y else r.h;
    if x >= g.w || y >= g.h then Area(0, 0, 0, 0)
    else
      var w' := if x + w > g.w then g.w - x else w;
      var h' := if y + h > g.h then g.h - y else h;
      if w' <= 0 || h' <= 0 then Area(0, 0, 0, 0) else Area(x, y, w', h')
  }

  predicate InArea(a: Area, i: int, j: int) {
    a.x <= i < a.x + a.w && a.y <= j < a.y + a.h
  }

  /** The first n pixels of a row of the area. */
  function PaintRow(s: Screen, g: Geo, x: nat, y: nat, n: nat, diff: bool): (t: Screen)
    requires GoodGeo(g) && Fits(s, g) && x + n <= g.w && y < g.h
    ensures Fits(t, g) && t.draw == s.draw && t.force == s.force
    decreases n
  {
    if n == 0 then s else Paint(PaintRow(s, g, x, y, n - 1, diff), g, x + n - 1, y, diff)
  }

  /** The first n rows of the area. */
  function PaintRows(s: Screen, g: Geo, a: Area, n: nat, diff: bool): (t: Screen)
    requires GoodGeo(g) && Fits(s, g) && a.x + a.w <= g.w && n <= a.h && a.y + a.h <= g.h
    ensures Fits(t, g) && t.draw == s.draw && t.force == s.force
    decreases n
  {
    if n == 0 then s else PaintRow(PaintRows(s, g, a, n - 1, diff), g, a.x, a.y + n - 1, a.w, diff)
  }

  /** blit_rect. */
  function Blit(s: Screen, g: Geo, r: Rect, diff: bool): (t: Screen)
    requires GoodGeo(g) && Fits(s, g)
    ensures Fits(t, g) && t.draw == s.draw && t.force == s.force
  {
    PaintRows(s, g, Clip(g, r), Clip(g, r).h, diff)
  }

  function BlitAll(s: Screen, g: Geo, rects: seq<Rect>, diff: bool): (t: Screen)
    requires GoodGeo(g) && Fits(s, g)
    ensures Fits(t, g) && t.draw == s.draw && t.force == s.force
    decreases |rects|
  {
    if |rects| == 0 then s else Blit(BlitAll(s, g, rects[..|rects| - 1], diff), g, rects[|rects| - 1], diff)
  }

  /** fb_present_rects: an empty list leaves even the force flag alone. */
  function Present(s: Screen, g: Geo, rects: seq<Rect>, diff: bool): (t: Screen)
    requires GoodGeo(g) && Fits(s, g)
    ensures Fits(t, g) && t.draw == s.draw
  {
    if |rects| == 0 then s else BlitAll(s, g, rects, diff).(force := false)
  }

  function FullScreen(g: Geo): Rect {
    Rect(0, 0, g.w, g.h)
  }

  /** fb_put_pixel with a back buffer; off-screen pixels are dropped. */
  function Put(s: Screen, g: Geo, x: int, y: int, px: u32): (t: Screen)
    requires Fits(s, g)
    ensures Fits(t, g)
  {
    if !On(g, x, y) then s
    else
      IndexFits(g, x, y);
      s.(draw := s.draw[Index(g, x, y) := px])
  }

  /** fb_put_pixel with no back buffer: straight to video memory. */
  function PutDirect(video: seq<byte>, g: Geo, x: int, y: int, px: u32): (v: seq<byte>)
    requires GoodGeo(g) && |video| == g.pitch * g.h
    ensures |v| == |video|
  {
    if !On(g, x, y) then video
    else
      OffsetFits(g, x, y);
      Patched(video, Offset(g, x, y), Le(px, g.bytes))
  }

  /** The number in a pixel's bytes. */
  function ReadDirect(video: seq<byte>, g: Geo, x: nat, y: nat): u32
    requires GoodGeo(g) && |video| == g.pitch * g.h && On(g, x, y)
  {
    OffsetFits(g, x, y);
    Pow256Values();
    FromLe(video[Offset(g, x, y)..Offset(g, x, y) + g.bytes])
  }

  // ---- runs ------------------------------------------------------------------------------------------

  datatype Op = OpPut(x: int, y: int, px: u32) | OpPresent(rects: seq<Rect>)

  function Step(s: Screen, g: Geo, op: Op, diff: bool): (t: Screen)
    requires GoodGeo(g) && Fits(s, g)
    ensures Fits(t, g)
  {
    match op
    case OpPut(x, y, px) => Put(s, g, x, y, px)
    case OpPresent(rects) => Present(s, g, rects, diff)
  }

  function Run(s: Screen, g: Geo, ops: seq<Op>, diff: bool): (t: Screen)
    requires GoodGeo(g) && Fits(s, g)
    ensures Fits(t, g)
    decreases |ops|
  {
    if |ops| == 0 then s else Step(Run(s, g, ops[..|ops| - 1], diff), g, ops[|ops| - 1], diff)
  }
}
