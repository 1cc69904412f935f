/** src/framebuffer.c, fb_pixel_value and its inverse: colours packed at the mode's bit positions. */
module FramebufferColors {

  datatype Color = Color(r: bv8, g: bv8, b: bv8)

  /** Bit positions of the three channels, below 32 as the shifts demand. */
  type Position = p: bv32 | p < 32
  datatype Channels = Channels(r: Position, g: Position, b: Position)

  function Shifted(v: bv8, p: Position): bv32 {
    (v as bv32) << p
  }

  function Channel(px: bv32, p: Position): bv8 {
    LowFits(px, p);
    Low(px, p) as bv8
  }

  function FbPixelValue(l: Channels, c: Color): bv32 {
    Mixed(Shifted(c.r, l.r), Shifted(c.g, l.g), Shifted(c.b, l.b))
  }

  function Mixed(x: bv32, y: bv32, z: bv32): bv32 {
    x | y | z
  }

  function ColorOf(l: Channels, px: bv32): Color {
    Color(Channel(px, l.r), Channel(px, l.g), Channel(px, l.b))
  }

  /** Two channels that share no bit of the 32. */
  predicate Apart(p: Position, q: Position) {
    p <= 24 && q <= 24 && (p + 8 <= q || q + 8 <= p)
  }

  lemma OwnChannel(v: bv8, p: Position)
    requires p <= 24
    ensures Channel(Shifted(v, p), p) == v
  {
  }

  lemma OtherChannel(v: bv8, p: Position, q: Position)
    requires Apart(p, q)
    ensures Channel(Shifted(v, p), q) == 0
  {
  }

  function Low(px: bv32, p: Position): bv32 {
    (px >> p) & 0xFF
  }

  lemma LowOfUnion(x: bv32, y: bv32, z: bv32, p: Position)
    ensures Low(x | y | z, p) == Low(x, p) | Low(y, p) | Low(z, p) <= 0xFF
  {
  }

  lemma NarrowUnion(x: bv32, y: bv32, z: bv32)
    requires x <= 0xFF && y <= 0xFF && z <= 0xFF && x | y | z <= 0xFF
    ensures (x | y | z) as bv8 == (x as bv8) | (y as bv8) | (z as bv8)
  {
  }

  lemma ChannelOfUnion(x: bv32, y: bv32, z: bv32, p: Position)
    ensures Channel(Mixed(x, y, z), p) == Union(Channel(x, p), Channel(y, p), Channel(z, p))
  {
    LowOfUnion(x, y, z, p);
    LowFits(x, p);
    LowFits(y, p);
    LowFits(z, p);
    NarrowUnion(Low(x, p), Low(y, p), Low(z, p));
    hide Low;
  }

  lemma LowFits(x: bv32, p: Position)
    ensures Low(x, p) <= 0xFF
  {
  }

  function Union(x: bv8, y: bv8, z: bv8): bv8 {
    x | y | z
  }

  lemma UnionOfOne(v: bv8)
    ensures Union(v, 0, 0) == Union(0, v, 0) == Union(0, 0, v) == v
  {
  }

  /** A pixel read back has the colour that was drawn. */
  lemma ColorRoundTrip(l: Channels, c: Color)
    requires Apart(l.r, l.g) && Apart(l.r, l.b) && Apart(l.g, l.b)
    ensures ColorOf(l, FbPixelValue(l, c)) == c
  {
    var r, g, b := Shifted(c.r, l.r), Shifted(c.g, l.g), Shifted(c.b, l.b);
    OwnChannels(l, c);
    OtherChannels(l, c);
    hide Shifted, Channel, Apart, Union, Mixed;
    ChannelOfUnion(r, g, b, l.r);
    ChannelOfUnion(r, g, b, l.g);
    ChannelOfUnion(r, g, b, l.b);
    UnionOfOne(c.r);
    UnionOfOne(c.g);
    UnionOfOne(c.b);
  }

  /** The eight bits of the number from position p up. */
  predicate HoldsAt(px: bv32, p: Position, v: bv8) {
    (px >> p) & 0xFF == v as bv32
  }

  /** Each channel of a pixel's number is where the mode puts it. */
  lemma ChannelsInPlace(l: Channels, c: Color)
    requires Apart(l.r, l.g) && Apart(l.r, l.b) && Apart(l.g, l.b)
    ensures var px := FbPixelValue(l, c); HoldsAt(px, l.r, c.r) && HoldsAt(px, l.g, c.g) && HoldsAt(px, l.b, c.b)
  {
    hide *;
    PixelHasColor(l, c);
    ChannelIs(FbPixelValue(l, c), l.r);
    ChannelIs(FbPixelValue(l, c), l.g);
    ChannelIs(FbPixelValue(l, c), l.b);
  }

  lemma PixelHasColor(l: Channels, c: Color)
    requires Apart(l.r, l.g) && Apart(l.r, l.b) && Apart(l.g, l.b)
    ensures var px := FbPixelValue(l, c);
            Channel(px, l.r) == c.r && Channel(px, l.g) == c.g && Channel(px, l.b) == c.b
  {
    ColorRoundTrip(l, c);
    hide FbPixelValue, Channel, Apart;
  }

  lemma ChannelIs(px: bv32, p: Position)
    ensures HoldsAt(px, p, Channel(px, p))
  {
  }

  lemma OwnChannels(l: Channels, c: Color)
    requires l.r <= 24 && l.g <= 24 && l.b <= 24
    ensures Channel(Shifted(c.r, l.r), l.r) == c.r && Channel(Shifted(c.g, l.g), l.g) == c.g
            && Channel(Shifted(c.b, l.b), l.b) == c.b
  {
    hide Shifted, Channel;
    OwnChannel(c.r, l.r);
    OwnChannel(c.g, l.g);
    OwnChannel(c.b, l.b);
  }

  lemma OtherChannels(l: Channels, c: Color)
    requires Apart(l.r, l.g) && Apart(l.r, l.b) && Apart(l.g, l.b)
    ensures Channel(Shifted(c.r, l.r), l.g) == 0 && Channel(Shifted(c.r, l.r), l.b) == 0
    ensures Channel(Shifted(c.g, l.g), l.r) == 0 && Channel(Shifted(c.g, l.g), l.b) == 0
    ensures Channel(Shifted(c.b, l.b), l.r) == 0 && Channel(Shifted(c.b, l.b), l.g) == 0
  {
    ApartBoth(l.r, l.g);
    ApartBoth(l.r, l.b);
    ApartBoth(l.g, l.b);
    hide Shifted, Channel, Apart;
    OtherChannel(c.r, l.r, l.g);
    OtherChannel(c.r, l.r, l.b);
    OtherChannel(c.g, l.g, l.r);
    OtherChannel(c.g, l.g, l.b);
    OtherChannel(c.b, l.b, l.r);
    OtherChannel(c.b, l.b, l.g);
  }

  lemma ApartBoth(p: Position, q: Position)
    ensures Apart(p, q) == Apart(q, p)
  {
  }
}
