/** src/framebuffer.c: the two buffers and video memory, changed pixel by pixel. */
module FramebufferDevice {
  import opened LittleEndian
  import opened FramebufferColors
  import opened FramebufferSpec
  import opened FramebufferLaws

  function PixelOf(l: Channels, c: Color): u32 {
    FbPixelValue(l, c) as nat
  }

  /** The colour of a pixel number. */
  function ColorAt(l: Channels, px: u32): Color {
    ColorOf(l, px as bv32)
  }

  lemma NumberFits(b: seq<byte>)
    requires |b| <= 4
    ensures FromLe(b) < 0x1_0000_0000
  {
    Pow256Values();
    assert Pow256(0) == 1 && Pow256(1) == 256;
  }

  lemma ColorBack(l: Channels, c: Color)
    requires Apart(l.r, l.g) && Apart(l.r, l.b) && Apart(l.g, l.b)
    ensures ColorAt(l, PixelOf(l, c)) == c
  {
    ColorRoundTrip(l, c);
    hide ColorOf, FbPixelValue;
  }

  /** What is drawn into the back buffer is read back, colour for colour, and no other pixel changes. */
  lemma PutThenGet(s: Screen, g: Geo, l: Channels, x: nat, y: nat, c: Color, i: nat, j: nat)
    requires Fits(s, g) && On(g, x, y) && On(g, i, j) && Apart(l.r, l.g) && Apart(l.r, l.b) && Apart(l.g, l.b)
    ensures ColorAt(l, Drawn(Put(s, g, x, y, PixelOf(l, c)), g, x, y)) == c
    ensures i != x || j != y ==> Drawn(Put(s, g, x, y, PixelOf(l, c)), g, i, j) == Drawn(s, g, i, j)
  {
    IndexFits(g, x, y);
    IndexFits(g, i, j);
    if i != x || j != y {
      IndexInjective(g, x, y, i, j);
    }
    ColorBack(l, c);
    hide ColorAt, PixelOf, Index, Apart;
  }

  /** The same without a back buffer, when the pixel's number fits its bytes. */
  lemma PutThenGetDirect(v: seq<byte>, g: Geo, l: Channels, x: nat, y: nat, c: Color, i: nat, j: nat)
    requires GoodGeo(g) && |v| == g.pitch * g.h && On(g, x, y) && On(g, i, j)
    requires Apart(l.r, l.g) && Apart(l.r, l.b) && Apart(l.g, l.b) && PixelOf(l, c) < Pow256(g.bytes)
    ensures ColorAt(l, ReadDirect(PutDirect(v, g, x, y, PixelOf(l, c)), g, x, y)) == c
    ensures i != x || j != y ==> ReadDirect(PutDirect(v, g, x, y, PixelOf(l, c)), g, i, j) == ReadDirect(v, g, i, j)
  {
    OffsetFits(g, x, y);
    OffsetFits(g, i, j);
    var px := PixelOf(l, c);
    PatchedAt(v, Offset(g, x, y), Le(px, g.bytes), Offset(g, x, y), Offset(g, x, y) + g.bytes);
    PatchedAt(v, Offset(g, x, y), Le(px, g.bytes), Offset(g, i, j), Offset(g, i, j) + g.bytes);
    if i != x || j != y {
      OffsetsDisjoint(g, x, y, i, j);
    }
    LeRoundTrip(px, g.bytes);
    ColorBack(l, c);
    hide ColorAt, PixelOf, Offset, Apart, Patched, Le, FromLe;
  }

  /** One more byte of a number written out. */
  lemma NextByte(done: seq<byte>, rest: nat, n: nat)
    requires n > 0
    ensures (done + [rest % 256]) + Le(rest / 256, n - 1) == done + Le(rest, n)
  {
    assert Le(rest, n) == [rest % 256] + Le(rest / 256, n - 1);
    hide Le;
  }

  lemma LastByte(done: seq<byte>, rest: nat)
    ensures done + Le(rest, 0) == done
  {
  }

  lemma PatchedNothing(v: seq<byte>, at: nat)
    requires at <= |v|
    ensures Patched(v, at, []) == v
  {
  }

  lemma PatchedNext(v: seq<byte>, at: nat, done: seq<byte>, x: byte)
    requires at + |done| < |v|
    ensures Patched(v, at, done)[at + |done| := x] == Patched(v, at, done + [x])
  {
  }

  class Framebuffer {
    const g: Geo
    const channels: Channels
    const video: array<byte>
    var drawBuf: array?<u32>
    var displayBuf: array?<u32>
    var forceFull: bool

    ghost predicate Valid()
      reads this, drawBuf, displayBuf
    {
      && GoodGeo(g) && video.Length == g.pitch * g.h
      && (drawBuf == null <==> displayBuf == null)
      && (drawBuf != null ==> drawBuf != displayBuf && drawBuf.Length == g.w * g.h && displayBuf.Length == g.w * g.h)
    }

    ghost function Model(): (s: Screen)
      reads this, drawBuf, displayBuf, video
      requires Valid() && drawBuf != null
      ensures Fits(s, g)
    {
      Screen(drawBuf[..], displayBuf[..], video[..], forceFull)
    }

    /** The mode fb_init accepted; no back buffer yet. */
    constructor (g: Geo, channels: Channels, video: array<byte>)
      requires GoodGeo(g) && video.Length == g.pitch * g.h
      ensures Valid() && drawBuf == null && this.g == g && this.channels == channels && this.video == video
    {
      this.g, this.channels, this.video := g, channels, video;
      drawBuf, displayBuf, forceFull := null, null, false;
    }

    /** fb_enable_backbuffer; `gotDraw` and `gotDisplay` say whether kmalloc found room. */
    method EnableBackbuffer(gotDraw: bool, gotDisplay: bool)
      requires Valid()
      modifies this
      ensures Valid() && (old(drawBuf) != null ==>
                          drawBuf == old(drawBuf) && displayBuf == old(displayBuf) && forceFull == old(forceFull))
      ensures old(drawBuf) == null && gotDraw && gotDisplay ==>
              drawBuf != null && Model().force && fresh(drawBuf) && fresh(displayBuf)
      ensures old(drawBuf) == null && !(gotDraw && gotDisplay) ==> drawBuf == null
    {
      if drawBuf != null && displayBuf != null {
        return;
      }
      if !gotDraw || !gotDisplay {
        drawBuf, displayBuf := null, null;
        return;
      }
      drawBuf := new u32[g.w * g.h](_ => 0);
      displayBuf := new u32[g.w * g.h](_ => 0);
      forceFull := true;
    }

    /** A pixel's bytes, lowest first. */
    method StoreBytes(at: nat, px: nat)
      requires at + g.bytes <= video.Length
      modifies video
      ensures video[..] == Patched(old(video[..]), at, Le(px, g.bytes))
    {
      ghost var was, done: seq<byte> := video[..], [];
      PatchedNothing(was, at);
      hide Le, Patched;
      var b, rest := 0, px;
      while b < g.bytes
        invariant 0 <= b <= g.bytes && |done| == b && done + Le(rest, g.bytes - b) == Le(px, g.bytes)
        invariant video[..] == Patched(was, at, done)
      {
        NextByte(done, rest, g.bytes - b);
        PatchedNext(was, at, done, rest % 256);
        video[at + b] := rest % 256;
        done := done + [rest % 256];
        rest := rest / 256;
        b := b + 1;
      }
      LastByte(done, rest);
    }

    /** fb_put_pixel: into the back buffer when there is one, else straight to video memory. */
    method PutPixel(x: int, y: int, c: Color)
      requires Valid()
      modifies video, drawBuf
      ensures Valid()
      ensures drawBuf != null ==> Model() == Put(old(Model()), g, x, y, PixelOf(channels, c))
      ensures drawBuf == null ==> video[..] == PutDirect(old(video[..]), g, x, y, PixelOf(channels, c))
    {
      if x < 0 || x >= g.w || y < 0 || y >= g.h {
        return;
      }
      var px := PixelOf(channels, c);
      IndexFits(g, x, y);
      OffsetFits(g, x, y);
      hide Index, Offset, Patched, Le, PixelOf;
      if drawBuf != null {
        drawBuf[Index(g, x, y)] := px;
        return;
      }
      StoreBytes(Offset(g, x, y), px);
    }

    /** fb_get_pixel; black off the screen. */
    method GetPixel(x: int, y: int) returns (c: Color)
      requires Valid()
      ensures !On(g, x, y) ==> c == Color(0, 0, 0)
      ensures On(g, x, y) && drawBuf != null ==> c == ColorAt(channels, Drawn(Model(), g, x, y))
      ensures On(g, x, y) && drawBuf == null ==> c == ColorAt(channels, ReadDirect(video[..], g, x, y))
    {
      if x < 0 || x >= g.w || y < 0 || y >= g.h {
        return Color(0, 0, 0);
      }
      IndexFits(g, x, y);
      OffsetFits(g, x, y);
      hide Index, Offset, ColorAt;
      if drawBuf != null {
        return ColorAt(channels, drawBuf[Index(g, x, y)]);
      }
      var px := LoadBytes(Offset(g, x, y));
      return ColorAt(channels, px);
    }

    /** A pixel's number, from its bytes. */
    method LoadBytes(at: nat) returns (px: u32)
      requires at + g.bytes <= video.Length && g.bytes <= 4
      ensures px == FromLe(video[at..at + g.bytes])
    {
      var i, v := 0, 0;
      while i < g.bytes
        invariant 0 <= i <= g.bytes && v == FromLe(video[at..at + i])
      {
        FromLeMore(video[at..at + i], video[at + i]);
        assert video[at..at + i + 1] == video[at..at + i] + [video[at + i]];
        v := v + video[at + i] * Pow256(i);
        i := i + 1;
      }
      NumberFits(video[at..at + g.bytes]);
      return v;
    }

    /** One row of blit_rect. */
    method BlitRow(x: nat, y: nat, w: nat)
      requires Valid() && drawBuf != null && x + w <= g.w && y < g.h
      modifies video, displayBuf
      ensures Valid() && Model() == PaintRow(old(Model()), g, x, y, w, true)
    {
      var col := 0;
      while col < w
        invariant 0 <= col <= w && Valid()
        invariant Model() == PaintRow(old(Model()), g, x, y, col, true)
      {
        IndexFits(g, x + col, y);
        OffsetFits(g, x + col, y);
        assert PaintRow(old(Model()), g, x, y, col + 1, true) ==
               Paint(PaintRow(old(Model()), g, x, y, col, true), g, x + col, y, true);
        hide PaintRow, Patched, Le, Index, Offset;
        var i := Index(g, x + col, y);
        if forceFull || drawBuf[i] != displayBuf[i] {
          StoreBytes(Offset(g, x + col, y), drawBuf[i]);
          displayBuf[i] := drawBuf[i];
        }
        col := col + 1;
      }
    }

    /** blit_rect. */
    method BlitRect(r: Rect)
      requires Valid() && drawBuf != null
      modifies video, displayBuf
      ensures Valid() && Model() == Blit(old(Model()), g, r, true)
    {
      var x, y, w, h := r.x, r.y, r.w, r.h;
      if x < 0 {
        w := w + x;
        x := 0;
      }
      if y < 0 {
        h := h + y;
        y := 0;
      }
      if x >= g.w || y >= g.h {
        return;
      }
      if x + w > g.w {
        w := g.w - x;
      }
      if y + h > g.h {
        h := g.h - y;
      }
      if w <= 0 || h <= 0 {
        return;
      }
      assert Clip(g, r) == Area(x, y, w, h);
      BlitRows(Area(x, y, w, h));
    }

    /** The row loop of blit_rect. */
    method BlitRows(a: Area)
      requires Valid() && drawBuf != null && a.x + a.w <= g.w && a.y + a.h <= g.h
      modifies video, displayBuf
      ensures Valid() && Model() == PaintRows(old(Model()), g, a, a.h, true)
    {
      hide PaintRow;
      var row := 0;
      while row < a.h
        invariant 0 <= row <= a.h && Valid()
        invariant Model() == PaintRows(old(Model()), g, a, row, true)
      {
        BlitRow(a.x, a.y + row, a.w);
        row := row + 1;
      }
    }

    /** fb_present_rects. */
    method PresentRects(rects: seq<Rect>)
      requires Valid()
      modifies this`forceFull, video, displayBuf
      ensures Valid() && (drawBuf != null ==> Model() == Present(old(Model()), g, rects, true))
      ensures drawBuf == null ==> video[..] == old(video[..]) && forceFull == old(forceFull)
    {
      if drawBuf == null || displayBuf == null || |rects| == 0 {
        return;
      }
      var i := 0;
      while i < |rects|
        invariant 0 <= i <= |rects| && Valid() && forceFull == old(forceFull)
        invariant Model() == BlitAll(old(Model()), g, rects[..i], true)
      {
        assert rects[..i + 1][..i] == rects[..i];
        hide Blit;
        BlitRect(rects[i]);
        i := i + 1;
      }
      assert rects[..i] == rects;
      forceFull := false;
    }

    /** fb_present. */
    method PresentAll()
      requires Valid()
      modifies this`forceFull, video, displayBuf
      ensures Valid() && (drawBuf != null ==> Model() == Present(old(Model()), g, [FullScreen(g)], true))
      ensures drawBuf == null ==> video[..] == old(video[..]) && forceFull == old(forceFull)
    {
      if drawBuf == null || displayBuf == null {
        return;
      }
      PresentRects([FullScreen(g)]);
    }
  }
}
