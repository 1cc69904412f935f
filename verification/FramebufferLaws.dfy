/** Skipping pixels believed unchanged never shows: the differential copy is the plain copy. */
module FramebufferLaws {
  import opened LittleEndian
  import opened FramebufferSpec

  /** Video memory shows what the shadow buffer says, at one pixel. */
  predicate SyncedAt(s: Screen, g: Geo, x: nat, y: nat)
    requires GoodGeo(g) && Fits(s, g) && On(g, x, y)
  {
    Shown(s, g, x, y) == Le(Displayed(s, g, x, y), g.bytes)
  }

  /** ... and everywhere (low 24 bits at three bytes per pixel). */
  ghost predicate Synced(s: Screen, g: Geo)
    requires GoodGeo(g) && Fits(s, g)
  {
    forall x: nat, y: nat :: On(g, x, y) ==> SyncedAt(s, g, x, y)
  }

  // ---- one pixel -------------------------------------------------------------------------------------

  lemma PatchedAt(v: seq<byte>, at: nat, b: seq<byte>, from: nat, to: nat)
    requires at + |b| <= |v| && from <= to <= |v|
    ensures from == at && to == at + |b| ==> Patched(v, at, b)[from..to] == b
    ensures to <= at || at + |b| <= from ==> Patched(v, at, b)[from..to] == v[from..to]
  {
    var p := Patched(v, at, b);
    assert forall k :: 0 <= k < |v| ==> p[k] == if at <= k < at + |b| then b[k - at] else v[k];
    hide Patched;
  }

  lemma PatchedSame(v: seq<byte>, at: nat, b: seq<byte>)
    requires at + |b| <= |v| && v[at..at + |b|] == b
    ensures Patched(v, at, b) == v
  {
    assert v == v[..at] + v[at..at + |b|] + v[at + |b|..];
  }

  /** Copying a pixel shows it, and changes no other. */
  lemma CopyPixelEffect(s: Screen, g: Geo, x: nat, y: nat, i: nat, j: nat)
    requires GoodGeo(g) && Fits(s, g) && On(g, x, y) && On(g, i, j)
    ensures var t := CopyPixel(s, g, x, y);
            if i == x && j == y
            then Displayed(t, g, i, j) == Drawn(s, g, x, y) && Shown(t, g, i, j) == Le(Drawn(s, g, x, y), g.bytes)
            else Displayed(t, g, i, j) == Displayed(s, g, i, j) && Shown(t, g, i, j) == Shown(s, g, i, j)
  {
    IndexFits(g, x, y);
    IndexFits(g, i, j);
    OffsetFits(g, x, y);
    OffsetFits(g, i, j);
    PatchedAt(s.video, Offset(g, x, y), Le(Drawn(s, g, x, y), g.bytes), Offset(g, i, j), Offset(g, i, j) + g.bytes);
    if i != x || j != y {
      IndexInjective(g, x, y, i, j);
      OffsetsDisjoint(g, x, y, i, j);
    }
    hide Index, Offset, Patched, Le;
  }

  /** Where the shadow is right, skipping an unchanged pixel and copying it give the same state. */
  lemma PaintIsCopy(s: Screen, g: Geo, x: nat, y: nat)
    requires GoodGeo(g) && Fits(s, g) && On(g, x, y) && (s.force || SyncedAt(s, g, x, y))
    ensures Paint(s, g, x, y, true) == CopyPixel(s, g, x, y) == Paint(s, g, x, y, false)
  {
    IndexFits(g, x, y);
    OffsetFits(g, x, y);
    if !s.force && Drawn(s, g, x, y) == Displayed(s, g, x, y) {
      PatchedSame(s.video, Offset(g, x, y), Le(Drawn(s, g, x, y), g.bytes));
    }
  }

  // ---- areas -----------------------------------------------------------------------------------------

  /** A copy of the pixel would be made: always by a plain or forced copy, otherwise if the shadow differs. */
  predicate Repainted(s: Screen, g: Geo, diff: bool, i: nat, j: nat)
    requires Fits(s, g) && On(g, i, j)
  {
    !diff || s.force || Drawn(s, g, i, j) != Displayed(s, g, i, j)
  }

  /** The pixel shows the drawing. */
  predicate Shows(s: Screen, t: Screen, g: Geo, i: nat, j: nat)
    requires GoodGeo(g) && Fits(s, g) && Fits(t, g) && On(g, i, j)
  {
    Displayed(t, g, i, j) == Drawn(s, g, i, j) && Shown(t, g, i, j) == Le(Drawn(s, g, i, j), g.bytes)
  }

  /** The pixel is as it was. */
  predicate Stays(s: Screen, t: Screen, g: Geo, i: nat, j: nat)
    requires GoodGeo(g) && Fits(s, g) && Fits(t, g) && On(g, i, j)
  {
    Displayed(t, g, i, j) == Displayed(s, g, i, j) && Shown(t, g, i, j) == Shown(s, g, i, j)
  }

  /** From any state whatever: covered pixels that get repainted show the drawing, all others stay. */
  predicate PixelAfter(s: Screen, t: Screen, g: Geo, diff: bool, covered: bool, i: nat, j: nat)
    requires GoodGeo(g) && Fits(s, g) && Fits(t, g) && On(g, i, j)
  {
    if covered && Repainted(s, g, diff, i, j) then Shows(s, t, g, i, j) else Stays(s, t, g, i, j)
  }

  /** One more pixel of either kind of copy. */
  lemma PaintStep(s: Screen, t: Screen, g: Geo, x: nat, y: nat, diff: bool, covered: bool, i: nat, j: nat)
    requires GoodGeo(g) && Fits(s, g) && Fits(t, g) && On(g, x, y) && On(g, i, j) && t.draw == s.draw
             && t.force == s.force
    requires PixelAfter(s, t, g, diff, covered, i, j)
    ensures PixelAfter(s, Paint(t, g, x, y, diff), g, diff, covered || (i == x && j == y), i, j)
  {
    CopyPixelEffect(t, g, x, y, i, j);
    assert Drawn(t, g, i, j) == Drawn(s, g, i, j);
    hide Shown, Displayed, CopyPixel, Le, Drawn;
  }

  lemma {:induction false} PaintRowEffect(s: Screen, g: Geo, x: nat, y: nat, n: nat, diff: bool, i: nat, j: nat)
    requires GoodGeo(g) && Fits(s, g) && x + n <= g.w && y < g.h && On(g, i, j)
    ensures PixelAfter(s, PaintRow(s, g, x, y, n, diff), g, diff, x <= i < x + n && j == y, i, j)
    decreases n
  {
    if n == 0 {
      Untouched(s, g, diff, i, j);
    } else {
      var t := PaintRow(s, g, x, y, n - 1, diff);
      hide Paint, PixelAfter;
      PaintRowEffect(s, g, x, y, n - 1, diff, i, j);
      PaintStep(s, t, g, x + n - 1, y, diff, x <= i < x + (n - 1) && j == y, i, j);
    }
  }

  lemma Untouched(s: Screen, g: Geo, diff: bool, i: nat, j: nat)
    requires GoodGeo(g) && Fits(s, g) && On(g, i, j)
    ensures PixelAfter(s, s, g, diff, false, i, j)
  {
  }

  /** Painting after painting. */
  lemma PixelAfterBoth(s: Screen, t: Screen, u: Screen, g: Geo, diff: bool, first: bool, second: bool, i: nat, j: nat)
    requires GoodGeo(g) && Fits(s, g) && Fits(t, g) && Fits(u, g) && On(g, i, j) && t.draw == s.draw
             && t.force == s.force
    requires PixelAfter(s, t, g, diff, first, i, j) && PixelAfter(t, u, g, diff, second, i, j)
    ensures PixelAfter(s, u, g, diff, first || second, i, j)
  {
    assert Drawn(t, g, i, j) == Drawn(s, g, i, j);
    hide Shown, Displayed, Le, Drawn;
  }

  lemma {:induction false} PaintRowsEffect(s: Screen, g: Geo, a: Area, n: nat, diff: bool, i: nat, j: nat)
    requires GoodGeo(g) && Fits(s, g) && a.x + a.w <= g.w && n <= a.h && a.y + a.h <= g.h && On(g, i, j)
    ensures PixelAfter(s, PaintRows(s, g, a, n, diff), g, diff, a.x <= i < a.x + a.w && a.y <= j < a.y + n, i, j)
    decreases n
  {
    if n == 0 {
      Untouched(s, g, diff, i, j);
    } else {
      var t := PaintRows(s, g, a, n - 1, diff);
      var u := PaintRow(t, g, a.x, a.y + n - 1, a.w, diff);
      hide PaintRow, PixelAfter;
      PaintRowsEffect(s, g, a, n - 1, diff, i, j);
      PaintRowEffect(t, g, a.x, a.y + n - 1, a.w, diff, i, j);
      PixelAfterBoth(s, t, u, g, diff, a.x <= i < a.x + a.w && a.y <= j < a.y + (n - 1),
                     a.x <= i < a.x + a.w && j == a.y + n - 1, i, j);
    }
  }

  predicate Covered(g: Geo, rects: seq<Rect>, i: int, j: int) {
    exists k :: 0 <= k < |rects| && InArea(Clip(g, rects[k]), i, j)
  }

  lemma BlitEffect(s: Screen, g: Geo, r: Rect, diff: bool, i: nat, j: nat)
    requires GoodGeo(g) && Fits(s, g) && On(g, i, j)
    ensures PixelAfter(s, Blit(s, g, r, diff), g, diff, InArea(Clip(g, r), i, j), i, j)
  {
    PaintRowsEffect(s, g, Clip(g, r), Clip(g, r).h, diff, i, j);
  }

  lemma {:induction false} BlitAllEffect(s: Screen, g: Geo, rects: seq<Rect>, diff: bool, i: nat, j: nat)
    requires GoodGeo(g) && Fits(s, g) && On(g, i, j)
    ensures PixelAfter(s, BlitAll(s, g, rects, diff), g, diff, Covered(g, rects, i, j), i, j)
    decreases |rects|
  {
    if |rects| == 0 {
      Untouched(s, g, diff, i, j);
    } else {
      var before, last := rects[..|rects| - 1], rects[|rects| - 1];
      var t := BlitAll(s, g, before, diff);
      hide PixelAfter, Blit, Clip;
      BlitAllEffect(s, g, before, diff, i, j);
      BlitEffect(t, g, last, diff, i, j);
      PixelAfterBoth(s, t, Blit(t, g, last, diff), g, diff,
                     Covered(g, before, i, j), InArea(Clip(g, last), i, j), i, j);
      CoveredByOneMore(g, rects, i, j);
    }
  }

  /** A pixel in step stays in step under any copy. */
  lemma StillSynced(s: Screen, t: Screen, g: Geo, diff: bool, covered: bool, i: nat, j: nat)
    requires GoodGeo(g) && Fits(s, g) && Fits(t, g) && On(g, i, j) && SyncedAt(s, g, i, j)
    requires PixelAfter(s, t, g, diff, covered, i, j)
    ensures SyncedAt(t, g, i, j)
  {
  }

  lemma PaintRowsKeepSynced(s: Screen, g: Geo, a: Area, n: nat, diff: bool)
    requires GoodGeo(g) && Fits(s, g) && a.x + a.w <= g.w && n <= a.h && a.y + a.h <= g.h && Synced(s, g)
    ensures Synced(PaintRows(s, g, a, n, diff), g)
  {
    var t := PaintRows(s, g, a, n, diff);
    hide PaintRows, PixelAfter, SyncedAt;
    forall i: nat, j: nat | On(g, i, j)
      ensures SyncedAt(t, g, i, j)
    {
      PaintRowsEffect(s, g, a, n, diff, i, j);
      StillSynced(s, t, g, diff, a.x <= i < a.x + a.w && a.y <= j < a.y + n, i, j);
    }
  }

  lemma CoveredByOneMore(g: Geo, rects: seq<Rect>, i: int, j: int)
    requires |rects| > 0
    ensures Covered(g, rects, i, j) <==>
            Covered(g, rects[..|rects| - 1], i, j) || InArea(Clip(g, rects[|rects| - 1]), i, j)
  {
    var before := rects[..|rects| - 1];
    if Covered(g, before, i, j) {
      var k :| 0 <= k < |before| && InArea(Clip(g, before[k]), i, j);
      assert InArea(Clip(g, rects[k]), i, j);
    }
    if Covered(g, rects, i, j) {
      var k :| 0 <= k < |rects| && InArea(Clip(g, rects[k]), i, j);
      assert k < |before| ==> InArea(Clip(g, before[k]), i, j);
    }
  }

  // ---- whole presents --------------------------------------------------------------------------------

  /** What a present does to each pixel, in any state. */
  lemma PresentEffect(s: Screen, g: Geo, rects: seq<Rect>, i: nat, j: nat)
    requires GoodGeo(g) && Fits(s, g) && On(g, i, j)
    ensures PixelAfter(s, Present(s, g, rects, true), g, true, Covered(g, rects, i, j), i, j)
  {
    BlitAllEffect(s, g, rects, true, i, j);
    hide Covered;
    if |rects| == 0 {
      NothingCovered(g, rects, i, j);
    }
  }

  /** fb_present_rects, once in step or forced: the union of the clipped rectangles shows the drawing, and
      every other pixel is as it was. */
  lemma PresentShowsRects(s: Screen, g: Geo, rects: seq<Rect>, i: nat, j: nat)
    requires GoodGeo(g) && Fits(s, g) && On(g, i, j) && (s.force || SyncedAt(s, g, i, j))
    ensures var t := Present(s, g, rects, true);
            if Covered(g, rects, i, j) then Shows(s, t, g, i, j) else Stays(s, t, g, i, j)
  {
    PresentEffect(s, g, rects, i, j);
    hide Covered, Present;
  }

  lemma NothingCovered(g: Geo, rects: seq<Rect>, i: int, j: int)
    requires |rects| == 0
    ensures !Covered(g, rects, i, j)
  {
  }

  /** A forced present leaves video memory in step with the shadow exactly when the rectangles cover every
      pixel that was out of step. */
  lemma ForcedPresentSyncsExactly(s: Screen, g: Geo, rects: seq<Rect>)
    requires GoodGeo(g) && Fits(s, g) && s.force && |rects| > 0
    ensures !Present(s, g, rects, true).force
    ensures Synced(Present(s, g, rects, true), g) <==>
              forall x: nat, y: nat :: On(g, x, y) ==> Covered(g, rects, x, y) || SyncedAt(s, g, x, y)
  {
    var t := Present(s, g, rects, true);
    hide Covered, Present;
    forall x: nat, y: nat | On(g, x, y)
      ensures SyncedAt(t, g, x, y) <==> Covered(g, rects, x, y) || SyncedAt(s, g, x, y)
    {
      PresentEffect(s, g, rects, x, y);
    }
  }

  /** Without the flag, a pixel is in step afterwards exactly if it was, or if it is covered and its drawing
      differs from the shadow: a pixel once missed is only caught up with by drawing something else there. */
  lemma UnforcedPresentSyncsExactly(s: Screen, g: Geo, rects: seq<Rect>, i: nat, j: nat)
    requires GoodGeo(g) && Fits(s, g) && On(g, i, j) && !s.force
    ensures SyncedAt(Present(s, g, rects, true), g, i, j) <==>
              SyncedAt(s, g, i, j) || (Covered(g, rects, i, j) && Drawn(s, g, i, j) != Displayed(s, g, i, j))
  {
    PresentEffect(s, g, rects, i, j);
    hide Covered, Present, Le;
  }

  /** An out-of-step pixel with an unchanged drawing that the forced present misses: no later present of
      anything changes it. */
  lemma MissedPixelStays(s: Screen, g: Geo, rects: seq<Rect>, later: seq<Rect>, i: nat, j: nat)
    requires GoodGeo(g) && Fits(s, g) && On(g, i, j) && s.force && |rects| > 0 && !Covered(g, rects, i, j)
    requires Drawn(s, g, i, j) == Displayed(s, g, i, j) && !SyncedAt(s, g, i, j)
    ensures var t := Present(s, g, rects, true);
            var u := Present(t, g, later, true);
            !t.force && !SyncedAt(u, g, i, j) && Shown(u, g, i, j) == Shown(s, g, i, j)
  {
    var t := Present(s, g, rects, true);
    PresentEffect(s, g, rects, i, j);
    PresentEffect(t, g, later, i, j);
    assert !t.force && t.draw == s.draw;
    assert Drawn(t, g, i, j) == Drawn(s, g, i, j);
    hide Covered, Present, Le, Shown, Drawn, Displayed;
  }

  /** Fresh buffers over old bytes, as fb_enable_backbuffer leaves them. */
  function StaleScreen(g: Geo): (s: Screen)
    ensures Fits(s, g)
  {
    Screen(seq(g.w * g.h, _ => 0), seq(g.w * g.h, _ => 0), seq(g.pitch * g.h, _ => 255), true)
  }

  /** On any screen two pixels wide or more: when the first present covers only the top left pixel, the one
      beside it keeps its old bytes whatever is presented later. */
  lemma PartialPresentExample(g: Geo, later: seq<Rect>)
    requires GoodGeo(g) && g.w >= 2
    ensures var t := Present(StaleScreen(g), g, [Rect(0, 0, 1, 1)], true);
            !t.force && !Synced(Present(t, g, later, true), g)
  {
    StalePixel(g);
    hide StaleScreen, Covered, Present, SyncedAt, Shown, Displayed, Drawn;
    MissedPixelStays(StaleScreen(g), g, [Rect(0, 0, 1, 1)], later, 1, 0);
  }

  lemma StalePixel(g: Geo)
    requires GoodGeo(g) && g.w >= 2
    ensures !Covered(g, [Rect(0, 0, 1, 1)], 1, 0)
    ensures StaleScreen(g).force && Drawn(StaleScreen(g), g, 1, 0) == Displayed(StaleScreen(g), g, 1, 0)
    ensures !SyncedAt(StaleScreen(g), g, 1, 0)
  {
    IndexFits(g, 1, 0);
    OffsetFits(g, 1, 0);
    hide Clip, Le, Index, Offset;
    assert Shown(StaleScreen(g), g, 1, 0)[0] == 255;
    LowestByte(Displayed(StaleScreen(g), g, 1, 0), g.bytes);
  }

  lemma LowestByte(v: nat, n: nat)
    requires n > 0
    ensures Le(v, n)[0] == v % 256
  {
  }

  /** A forced full-screen present always does. */
  lemma FullPresentSyncs(s: Screen, g: Geo)
    requires GoodGeo(g) && Fits(s, g) && s.force
    ensures Synced(Present(s, g, [FullScreen(g)], true), g)
  {
    var rects := [FullScreen(g)];
    ForcedPresentSyncsExactly(s, g, rects);
    forall x: nat, y: nat | On(g, x, y)
      ensures Covered(g, rects, x, y)
    {
      assert InArea(Clip(g, rects[0]), x, y);
    }
  }

  // ---- bytes between the rows ------------------------------------------------------------------------

  /** Byte k of video memory belongs to no pixel of the area. */
  ghost predicate Outside(g: Geo, a: Area, k: nat) {
    forall x: nat, y: nat :: InArea(a, x, y) ==> k < Offset(g, x, y) || Offset(g, x, y) + g.bytes <= k
  }

  lemma PaintKeepsByte(s: Screen, g: Geo, x: nat, y: nat, diff: bool, k: nat)
    requires GoodGeo(g) && Fits(s, g) && On(g, x, y) && k < |s.video|
    requires k < Offset(g, x, y) || Offset(g, x, y) + g.bytes <= k
    ensures Paint(s, g, x, y, diff).video[k] == s.video[k]
  {
    OffsetFits(g, x, y);
    hide Offset;
  }

  lemma OutsidePixel(g: Geo, a: Area, x: nat, y: nat, k: nat)
    requires Outside(g, a, k) && InArea(a, x, y)
    ensures k < Offset(g, x, y) || Offset(g, x, y) + g.bytes <= k
  {
    hide Offset;
  }

  lemma {:induction false} PaintRowKeepsByte(s: Screen, g: Geo, a: Area, y: nat, n: nat, diff: bool, k: nat)
    requires GoodGeo(g) && Fits(s, g) && a.x + a.w <= g.w && n <= a.w && a.y <= y < a.y + a.h && y < g.h
    requires k < |s.video| && Outside(g, a, k)
    ensures PaintRow(s, g, a.x, y, n, diff).video[k] == s.video[k]
    decreases n
  {
    if n > 0 {
      hide Paint, Offset, GoodGeo, Outside;
      PaintRowKeepsByte(s, g, a, y, n - 1, diff, k);
      OutsidePixel(g, a, a.x + n - 1, y, k);
      PaintKeepsByte(PaintRow(s, g, a.x, y, n - 1, diff), g, a.x + n - 1, y, diff, k);
    }
  }

  lemma {:induction false} PaintRowsKeepByte(s: Screen, g: Geo, a: Area, n: nat, diff: bool, k: nat)
    requires GoodGeo(g) && Fits(s, g) && a.x + a.w <= g.w && n <= a.h && a.y + a.h <= g.h && k < |s.video|
             && Outside(g, a, k)
    ensures PaintRows(s, g, a, n, diff).video[k] == s.video[k]
    decreases n
  {
    hide Outside, PaintRow, PaintRows, GoodGeo, Fits;
    if n == 0 {
      NoRowsPainted(s, g, a, n, diff);
    } else {
      RowsFit(s, g, a, n, diff);
      PaintRowsNext(s, g, a, n, diff);
      PaintRowsKeepByte(s, g, a, n - 1, diff, k);
      PaintRowKeepsByte(PaintRows(s, g, a, n - 1, diff), g, a, a.y + n - 1, a.w, diff, k);
    }
  }

  /** Presenting writes no byte of video memory outside the pixels of its clipped rectangles. */
  lemma {:induction false} PresentKeepsByte(s: Screen, g: Geo, rects: seq<Rect>, diff: bool, k: nat)
    requires GoodGeo(g) && Fits(s, g) && k < |s.video|
    requires forall r :: 0 <= r < |rects| ==> Outside(g, Clip(g, rects[r]), k)
    ensures BlitAll(s, g, rects, diff).video[k] == s.video[k]
    decreases |rects|
  {
    if |rects| > 0 {
      var before, last := rects[..|rects| - 1], rects[|rects| - 1];
      PresentKeepsByte(s, g, before, diff, k);
      hide Outside, PaintRows, Clip;
      PaintRowsKeepByte(BlitAll(s, g, before, diff), g, Clip(g, last), Clip(g, last).h, diff, k);
    }
  }

  // ---- the same as a plain copy ----------------------------------------------------------------------

  lemma {:induction false} RowIsCopy(s: Screen, g: Geo, x: nat, y: nat, n: nat)
    requires GoodGeo(g) && Fits(s, g) && x + n <= g.w && y < g.h && (s.force || Synced(s, g))
    ensures PaintRow(s, g, x, y, n, true) == PaintRow(s, g, x, y, n, false)
    decreases n
  {
    if n > 0 {
      RowIsCopy(s, g, x, y, n - 1);
      NextPixelIsCopy(s, g, x, y, n);
      LastPixel(s, g, x, y, n);
    }
  }

  lemma NextPixelIsCopy(s: Screen, g: Geo, x: nat, y: nat, n: nat)
    requires GoodGeo(g) && Fits(s, g) && 0 < n && x + n <= g.w && y < g.h && (s.force || Synced(s, g))
    ensures var t := PaintRow(s, g, x, y, n - 1, true);
            Paint(t, g, x + n - 1, y, true) == Paint(t, g, x + n - 1, y, false)
  {
    hide Paint, SyncedAt, Synced, PaintRow, GoodGeo, Fits;
    NextInStep(s, g, x, y, n - 1);
    PaintIsCopy(PaintRow(s, g, x, y, n - 1, true), g, x + n - 1, y);
  }

  lemma LastPixel(s: Screen, g: Geo, x: nat, y: nat, n: nat)
    requires GoodGeo(g) && Fits(s, g) && 0 < n && x + n <= g.w && y < g.h
    requires PaintRow(s, g, x, y, n - 1, true) == PaintRow(s, g, x, y, n - 1, false)
    requires var t := PaintRow(s, g, x, y, n - 1, true);
             Paint(t, g, x + n - 1, y, true) == Paint(t, g, x + n - 1, y, false)
    ensures PaintRow(s, g, x, y, n, true) == PaintRow(s, g, x, y, n, false)
  {
    hide Paint, GoodGeo, Fits;
  }

  lemma NoRowsPainted(s: Screen, g: Geo, a: Area, n: nat, diff: bool)
    requires GoodGeo(g) && Fits(s, g) && a.x + a.w <= g.w && n == 0 && a.y + a.h <= g.h
    ensures PaintRows(s, g, a, n, diff) == s
  {
  }

  lemma RowsFit(s: Screen, g: Geo, a: Area, n: nat, diff: bool)
    requires GoodGeo(g) && Fits(s, g) && a.x + a.w <= g.w && 0 < n <= a.h && a.y + a.h <= g.h
    ensures |PaintRows(s, g, a, n - 1, diff).video| == |s.video|
    ensures |PaintRows(s, g, a, n, diff).video| == |s.video|
  {
    hide PaintRow, PaintRows, GoodGeo;
  }

  lemma PaintRowsNext(s: Screen, g: Geo, a: Area, n: nat, diff: bool)
    requires GoodGeo(g) && Fits(s, g) && a.x + a.w <= g.w && 0 < n <= a.h && a.y + a.h <= g.h
    ensures PaintRows(s, g, a, n, diff) == PaintRow(PaintRows(s, g, a, n - 1, diff), g, a.x, a.y + n - 1, a.w, diff)
  {
    hide PaintRow, GoodGeo;
  }

  /** The next pixel of the row has not been touched yet. */
  lemma NextInStep(s: Screen, g: Geo, x: nat, y: nat, n: nat)
    requires GoodGeo(g) && Fits(s, g) && x + n < g.w && y < g.h && (s.force || Synced(s, g))
    ensures s.force || SyncedAt(PaintRow(s, g, x, y, n, true), g, x + n, y)
  {
    if !s.force {
      assert SyncedAt(s, g, x + n, y);
      hide PaintRow, PixelAfter, SyncedAt;
      PaintRowEffect(s, g, x, y, n, true, x + n, y);
      StillSynced(s, PaintRow(s, g, x, y, n, true), g, true, false, x + n, y);
    }
  }

  lemma {:induction false} RowsAreCopies(s: Screen, g: Geo, a: Area, n: nat)
    requires GoodGeo(g) && Fits(s, g) && a.x + a.w <= g.w && n <= a.h && a.y + a.h <= g.h && (s.force || Synced(s, g))
    ensures PaintRows(s, g, a, n, true) == PaintRows(s, g, a, n, false)
    decreases n
  {
    if n > 0 {
      RowsAreCopies(s, g, a, n - 1);
      NextRowIsCopy(s, g, a, n);
      LastRows(s, g, a, n);
    }
  }

  lemma NextRowIsCopy(s: Screen, g: Geo, a: Area, n: nat)
    requires GoodGeo(g) && Fits(s, g) && a.x + a.w <= g.w && 0 < n <= a.h && a.y + a.h <= g.h
             && (s.force || Synced(s, g))
    ensures var t := PaintRows(s, g, a, n - 1, true);
            PaintRow(t, g, a.x, a.y + n - 1, a.w, true) == PaintRow(t, g, a.x, a.y + n - 1, a.w, false)
  {
    hide PaintRow, PaintRows, Synced, On, GoodGeo, Fits;
    if !s.force {
      PaintRowsKeepSynced(s, g, a, n - 1, true);
    }
    RowIsCopy(PaintRows(s, g, a, n - 1, true), g, a.x, a.y + n - 1, a.w);
  }

  lemma LastRows(s: Screen, g: Geo, a: Area, n: nat)
    requires GoodGeo(g) && Fits(s, g) && a.x + a.w <= g.w && 0 < n <= a.h && a.y + a.h <= g.h
    requires PaintRows(s, g, a, n - 1, true) == PaintRows(s, g, a, n - 1, false)
    requires var t := PaintRows(s, g, a, n - 1, true);
             PaintRow(t, g, a.x, a.y + n - 1, a.w, true) == PaintRow(t, g, a.x, a.y + n - 1, a.w, false)
    ensures PaintRows(s, g, a, n, true) == PaintRows(s, g, a, n, false)
  {
    hide PaintRow, GoodGeo, Fits;
  }

  lemma {:induction false} BlitsAreCopies(s: Screen, g: Geo, rects: seq<Rect>)
    requires GoodGeo(g) && Fits(s, g) && (s.force || Synced(s, g))
    ensures BlitAll(s, g, rects, true) == BlitAll(s, g, rects, false)
    ensures Synced(s, g) ==> Synced(BlitAll(s, g, rects, true), g)
    decreases |rects|
  {
    if |rects| > 0 {
      var before, last := rects[..|rects| - 1], rects[|rects| - 1];
      BlitsAreCopies(s, g, before);
      var t := BlitAll(s, g, before, true);
      hide Synced, Clip, PaintRows, BlitAll;
      RowsAreCopies(t, g, Clip(g, last), Clip(g, last).h);
      assert Blit(t, g, last, true) == Blit(t, g, last, false);
      if Synced(s, g) {
        PaintRowsKeepSynced(t, g, Clip(g, last), Clip(g, last).h, true);
      }
      LastBlit(s, g, rects, true);
      LastBlit(s, g, rects, false);
    }
  }

  lemma LastBlit(s: Screen, g: Geo, rects: seq<Rect>, diff: bool)
    requires GoodGeo(g) && Fits(s, g) && |rects| > 0
    ensures BlitAll(s, g, rects, diff) == Blit(BlitAll(s, g, rects[..|rects| - 1], diff), g, rects[|rects| - 1], diff)
  {
  }

  /** Drawing into the back buffer and presenting keep video memory in step. */
  lemma StepKeepsSynced(s: Screen, g: Geo, op: Op)
    requires GoodGeo(g) && Fits(s, g) && Synced(s, g)
    ensures Synced(Step(s, g, op, true), g) && Step(s, g, op, true) == Step(s, g, op, false)
  {
    hide SyncedAt, BlitAll;
    var t := Step(s, g, op, true);
    if op.OpPresent? && |op.rects| == 0 {
      assert t == s;
    } else if op.OpPresent? {
      BlitsAreCopies(s, g, op.rects);
      SameVideo(BlitAll(s, g, op.rects, true), t, g);
    } else {
      SameVideo(s, t, g);
    }
  }

  /** Being in step depends on the shadow and the video memory only. */
  lemma SameVideo(s: Screen, t: Screen, g: Geo)
    requires GoodGeo(g) && Fits(s, g) && Fits(t, g) && t.display == s.display && t.video == s.video
    ensures Synced(s, g) <==> Synced(t, g)
  {
    forall x: nat, y: nat | On(g, x, y)
      ensures SyncedAt(s, g, x, y) <==> SyncedAt(t, g, x, y)
    {
    }
  }

  /** From a state in step, every run of draws and presents is, byte for byte, the run of a plain copier. */
  lemma {:induction false} RunIsPlainRun(s: Screen, g: Geo, ops: seq<Op>)
    requires GoodGeo(g) && Fits(s, g) && Synced(s, g)
    ensures Synced(Run(s, g, ops, true), g) && Run(s, g, ops, true) == Run(s, g, ops, false)
    decreases |ops|
  {
    if |ops| > 0 {
      RunIsPlainRun(s, g, ops[..|ops| - 1]);
      hide Synced, Step;
      StepKeepsSynced(Run(s, g, ops[..|ops| - 1], true), g, ops[|ops| - 1]);
    }
  }

  /** After fb_enable_backbuffer (which forces) and one full present, whatever was on the screen before. */
  lemma EnabledThenPlain(s: Screen, g: Geo, ops: seq<Op>)
    requires GoodGeo(g) && Fits(s, g) && s.force
    ensures var t := Present(s, g, [FullScreen(g)], true);
            && t == Present(s, g, [FullScreen(g)], false)
            && Synced(Run(t, g, ops, true), g) && Run(t, g, ops, true) == Run(t, g, ops, false)
  {
    var full := [FullScreen(g)];
    BlitsAreCopies(s, g, full);
    FullPresentSyncs(s, g);
    RunIsPlainRun(Present(s, g, full, true), g, ops);
  }
}
