/** The frame-buffer library: a clipped rectangle fill against drawing pixels one
    by one, for every geometry, and against the geometry of a rectangle. */
module Display {
  import opened Arith

  /** The geometry of a display; bytesPerPixel is bpp / 8. */
  datatype Geometry = Geometry(width: int, height: int, bytesPerPixel: int, stride: int) {
    /** At least three bytes a pixel, and rows that fit their stride. */
    predicate Proper() {
      && 0 <= width && 0 <= height && 3 <= bytesPerPixel && 0 < stride
      && width * bytesPerPixel <= stride
    }
  }

  // How many bytes of a pixel are written.
  function Channels(g: Geometry): (n: nat)
    ensures 3 <= n <= 4
  {
    if g.bytesPerPixel == 4 then 4 else 3
  }

  // Byte ch of a colour, least significant first.
  function Channel(color: bv32, ch: nat): bv8
    requires ch < 4
  {
    if ch == 0 then (color & 0xff) as bv8
    else if ch == 1 then ((color >> 8) & 0xff) as bv8
    else if ch == 2 then ((color >> 16) & 0xff) as bv8
    else ((color >> 24) & 0xff) as bv8
  }

  // The pixel and channel that byte k of the buffer belongs to.
  function RowOf(g: Geometry, k: nat): int
    requires g.stride > 0
  {
    k / g.stride
  }

  function ColOf(g: Geometry, k: nat): int
    requires g.stride > 0 && g.bytesPerPixel > 0
  {
    k % g.stride / g.bytesPerPixel
  }

  function ChannelOf(g: Geometry, k: nat): int
    requires g.stride > 0 && g.bytesPerPixel > 0
  {
    k % g.stride % g.bytesPerPixel
  }

  predicate Visible(g: Geometry, x: int, y: int) {
    0 <= x < g.width && 0 <= y < g.height
  }

  /** One pixel, by what its bytes mean. */
  function WithPixel(g: Geometry, buf: seq<bv8>, x: int, y: int, color: bv32): (r: seq<bv8>)
    requires g.Proper()
    ensures |r| == |buf|
  {
    if !Visible(g, x, y) then buf
    else
      seq(|buf|, k requires 0 <= k < |buf| =>
        if RowOf(g, k) == y && ColOf(g, k) == x && ChannelOf(g, k) < Channels(g)
        then Channel(color, ChannelOf(g, k)) else buf[k])
  }

  predicate InRect(x: int, y: int, w: int, h: int, px: int, py: int) {
    x <= px < x + w && y <= py < y + h
  }

  /** A filled rectangle, clipped to the screen. */
  function WithRect(g: Geometry, buf: seq<bv8>, x: int, y: int, w: int, h: int, color: bv32): (r: seq<bv8>)
    requires g.Proper()
    ensures |r| == |buf|
  {
    seq(|buf|, k requires 0 <= k < |buf| =>
      if InRect(x, y, w, h, ColOf(g, k), RowOf(g, k)) && Visible(g, ColOf(g, k), RowOf(g, k))
         && ChannelOf(g, k) < Channels(g)
      then Channel(color, ChannelOf(g, k)) else buf[k])
  }

  // ----- Address arithmetic -----

  function Address(g: Geometry, x: int, y: int, ch: int): int {
    y * g.stride + x * g.bytesPerPixel + ch
  }

  /** A visible pixel's bytes lie in the buffer and decode to that pixel. */
  lemma AddressDecodes(g: Geometry, x: int, y: int, ch: int)
    requires g.Proper() && Visible(g, x, y) && 0 <= ch < g.bytesPerPixel
    ensures var k := Address(g, x, y, ch);
      0 <= k < g.stride * g.height && RowOf(g, k) == y && ColOf(g, k) == x && ChannelOf(g, k) == ch
  {
    var off := x * g.bytesPerPixel + ch;
    MulMono(x + 1, g.width, g.bytesPerPixel);
    MulDistrib(x, 1, g.bytesPerPixel);
    MulMono(0, x, g.bytesPerPixel);
    MulMono(0, y, g.stride);
    MulMono(y + 1, g.height, g.stride);
    MulDistrib(y, 1, g.stride);
    ModUnique(y * g.stride + off, y, off, g.stride);
    ModUnique(off, x, ch, g.bytesPerPixel);
  }

  /** And only those bytes do. */
  lemma DecodesToAddress(g: Geometry, k: nat)
    requires g.Proper()
    ensures k == Address(g, ColOf(g, k), RowOf(g, k), ChannelOf(g, k))
    ensures 0 <= ColOf(g, k) && 0 <= RowOf(g, k) && 0 <= ChannelOf(g, k) < g.bytesPerPixel
  {
    var off := k % g.stride;
    assert k == k / g.stride * g.stride + off;
    assert off == off / g.bytesPerPixel * g.bytesPerPixel + off % g.bytesPerPixel;
  }

  ghost predicate AddressedIn(g: Geometry, x: int, y: int, w: int, h: int, k: int) {
    exists px, py, ch ::
      InRect(x, y, w, h, px, py) && Visible(g, px, py) && 0 <= ch < Channels(g) && k == Address(g, px, py, ch)
  }

  /** The filled bytes are exactly those at the addresses of the rectangle's visible
      pixels. */
  lemma RectIsAddressed(g: Geometry, x: int, y: int, w: int, h: int, k: nat)
    requires g.Proper()
    ensures AddressedIn(g, x, y, w, h, k) <==>
            InRect(x, y, w, h, ColOf(g, k), RowOf(g, k)) && Visible(g, ColOf(g, k), RowOf(g, k)) && ChannelOf(g, k) < Channels(g)
  {
    hide RowOf, ColOf, ChannelOf, Address;
    DecodesToAddress(g, k);
    if AddressedIn(g, x, y, w, h, k) {
      var px, py, ch :|
        InRect(x, y, w, h, px, py) && Visible(g, px, py) && 0 <= ch < Channels(g) && k == Address(g, px, py, ch);
      AddressDecodes(g, px, py, ch);
    }
  }

  // ----- Storing one pixel -----

  function Stored(buf: seq<bv8>, at: nat, color: bv32, channels: nat): (r: seq<bv8>)
    requires 3 <= channels <= 4 && at + channels <= |buf|
    ensures |r| == |buf|
  {
    var three := buf[at := Channel(color, 0)][at + 1 := Channel(color, 1)][at + 2 := Channel(color, 2)];
    if channels == 4 then three[at + 3 := Channel(color, 3)] else three
  }

  lemma StoredAt(buf: seq<bv8>, at: nat, color: bv32, channels: nat, k: nat)
    requires 3 <= channels <= 4 && at + channels <= |buf| && k < |buf|
    ensures Stored(buf, at, color, channels)[k] == if at <= k < at + channels then Channel(color, k - at) else buf[k]
  {
  }

  /** Storing at a pixel's address is drawing that pixel. */
  lemma StoredIsPixel(g: Geometry, buf: seq<bv8>, x: int, y: int, color: bv32)
    requires g.Proper() && Visible(g, x, y) && g.stride * g.height <= |buf|
    ensures var at := Address(g, x, y, 0);
      0 <= at && at + Channels(g) <= |buf| && Stored(buf, at, color, Channels(g)) == WithPixel(g, buf, x, y, color)
  {
    hide Channel, Stored;
    var at, n := Address(g, x, y, 0), Channels(g);
    AddressDecodes(g, x, y, 0);
    AddressDecodes(g, x, y, n - 1);
    assert Address(g, x, y, n - 1) == at + n - 1;
    forall k | 0 <= k < |buf|
      ensures Stored(buf, at, color, n)[k] == WithPixel(g, buf, x, y, color)[k]
    {
      StoredAt(buf, at, color, n, k);
      OfPixel(g, x, y, k);
    }
  }

  /** Byte k belongs to a written channel of pixel (x, y) exactly when it lies in the
      run of bytes at the pixel's address. */
  lemma OfPixel(g: Geometry, x: int, y: int, k: nat)
    requires g.Proper() && Visible(g, x, y)
    ensures var at := Address(g, x, y, 0);
      (RowOf(g, k) == y && ColOf(g, k) == x && ChannelOf(g, k) < Channels(g)) <==> at <= k < at + Channels(g)
    ensures var at := Address(g, x, y, 0);
      at <= k < at + Channels(g) ==> ChannelOf(g, k) == k - at
  {
    var at := Address(g, x, y, 0);
    DecodesToAddress(g, k);
    if at <= k < at + Channels(g) {
      AddressDecodes(g, x, y, k - at);
      assert Address(g, x, y, k - at) == k;
    }
  }

  /** Whether the bytes stored for a pixel lie in a buffer of this length. */
  predicate Fits(g: Geometry, x: int, y: int, length: nat) {
    0 <= Address(g, x, y, 0) && Address(g, x, y, 0) + Channels(g) <= length
  }

  /** One pixel drawn, for every geometry: nothing off the screen. */
  function Drawn(g: Geometry, buf: seq<bv8>, x: int, y: int, color: bv32): (r: seq<bv8>)
    ensures |r| == |buf|
  {
    if Visible(g, x, y) && Fits(g, x, y, |buf|) then Stored(buf, Address(g, x, y, 0), color, Channels(g)) else buf
  }

  /** Pixels drawn one after the other. */
  function DrawnAll(g: Geometry, buf: seq<bv8>, points: seq<(int, int)>, color: bv32): (r: seq<bv8>)
    ensures |r| == |buf|
  {
    if |points| == 0 then buf
    else
      var p := points[|points| - 1];
      Drawn(g, DrawnAll(g, buf, points[..|points| - 1], color), p.0, p.1, color)
  }

  lemma DrawnIsPixel(g: Geometry, buf: seq<bv8>, x: int, y: int, color: bv32)
    requires g.Proper() && g.stride * g.height <= |buf|
    ensures Drawn(g, buf, x, y, color) == WithPixel(g, buf, x, y, color)
  {
    hide Stored, Address, Channels;
    if Visible(g, x, y) {
      StoredIsPixel(g, buf, x, y, color);
    }
  }

  /** Storing two pixels d bytes apart gives the same buffer in both orders. */
  predicate Commute(buf: seq<bv8>, at: nat, d: nat, c: bv32, n: nat)
    requires 3 <= n <= 4
  {
    at + d + n <= |buf| ==>
      Stored(Stored(buf, at, c, n), at + d, c, n) == Stored(Stored(buf, at + d, c, n), at, c, n)
  }

  /** Stores to neighbouring pixels commute, for every buffer and colour, exactly
      when a pixel has at least three bytes: below that the written bytes overlap. */
  lemma StoresCommuteIff(bytesPerPixel: nat)
    requires bytesPerPixel > 0
    ensures var n: nat := if bytesPerPixel == 4 then 4 else 3;
      bytesPerPixel >= 3 <==> forall buf: seq<bv8>, at: nat, c: bv32 :: Commute(buf, at, bytesPerPixel, c, n)
  {
    hide Stored, Channel;
    var n: nat := if bytesPerPixel == 4 then 4 else 3;
    if bytesPerPixel >= 3 {
      forall buf: seq<bv8>, at: nat, c: bv32
        ensures Commute(buf, at, bytesPerPixel, c, n)
      {
        if at + bytesPerPixel + n <= |buf| {
          StoresCommute(buf, at, at + bytesPerPixel, c, n);
        }
      }
    } else {
      var buf: seq<bv8> := [0, 0, 0, 0, 0];
      StoredAt(buf, 0, 1, 3, bytesPerPixel);
      StoredAt(Stored(buf, 0, 1, 3), bytesPerPixel, 1, 3, bytesPerPixel);
      StoredAt(Stored(buf, bytesPerPixel, 1, 3), 0, 1, 3, bytesPerPixel);
      ChannelsOfOne();
      assert !Commute(buf, 0, bytesPerPixel, 1, n);
    }
  }

  lemma ChannelsOfOne()
    ensures Channel(1, 0) == 1 && Channel(1, 1) == 0 && Channel(1, 2) == 0
  {
  }

  lemma StoresCommute(buf: seq<bv8>, at: nat, at': nat, c: bv32, n: nat)
    requires 3 <= n <= 4 && at + n <= at' && at' + n <= |buf|
    ensures Stored(Stored(buf, at, c, n), at', c, n) == Stored(Stored(buf, at', c, n), at, c, n)
  {
  }

  // Three or four bytes as a colour, least significant first.
  function Join(b0: bv8, b1: bv8, b2: bv8, b3: bv8): bv32 {
    (b0 as bv32) | ((b1 as bv32) << 8) | ((b2 as bv32) << 16) | ((b3 as bv32) << 24)
  }

  lemma ChannelsJoin(color: bv32)
    ensures Join(Channel(color, 0), Channel(color, 1), Channel(color, 2), Channel(color, 3)) == color
    ensures Join(Channel(color, 0), Channel(color, 1), Channel(color, 2), 0) == color & 0xff_ffff
  {
  }

  /** A pixel read back is the colour drawn: all of it at 32 bits a pixel, otherwise
      its three low bytes, and the pixel's further bytes are what they were. */
  lemma ReadBack(g: Geometry, buf: seq<bv8>, x: int, y: int, color: bv32)
    requires g.Proper() && Visible(g, x, y) && g.stride * g.height <= |buf|
    ensures var at := y * g.stride + x * g.bytesPerPixel;
      var r := WithPixel(g, buf, x, y, color);
      && 0 <= at && at + g.bytesPerPixel <= |buf|
      && (g.bytesPerPixel == 4 ==> Join(r[at], r[at + 1], r[at + 2], r[at + 3]) == color)
      && (g.bytesPerPixel != 4 ==>
            Join(r[at], r[at + 1], r[at + 2], 0) == color & 0xff_ffff && r[at + 3..] == buf[at + 3..])
      && r[..at] == buf[..at] && r[at + g.bytesPerPixel..] == buf[at + g.bytesPerPixel..]
  {
    hide Channel, Stored, WithPixel, Join, Visible;
    var at, n := Address(g, x, y, 0), Channels(g);
    AddressDecodes(g, x, y, g.bytesPerPixel - 1);
    StoredIsPixel(g, buf, x, y, color);
    ChannelsJoin(color);
    forall k | 0 <= k < |buf|
      ensures Stored(buf, at, color, n)[k] == if at <= k < at + n then Channel(color, k - at) else buf[k]
    {
      StoredAt(buf, at, color, n, k);
    }
  }

  // ----- Any order -----

  lemma {:induction false} PixelsAt(g: Geometry, buf: seq<bv8>, points: seq<(int, int)>, color: bv32, k: nat)
    requires g.Proper() && g.stride * g.height <= |buf| && k < |buf|
    ensures DrawnAll(g, buf, points, color)[k] ==
            if (ColOf(g, k), RowOf(g, k)) in points && Visible(g, ColOf(g, k), RowOf(g, k)) && ChannelOf(g, k) < Channels(g)
            then Channel(color, ChannelOf(g, k)) else buf[k]
  {
    hide Channel, Channels, RowOf, ColOf, ChannelOf, Visible, Drawn, WithPixel;
    if |points| > 0 {
      var n := |points| - 1;
      var before := DrawnAll(g, buf, points[..n], color);
      PixelsAt(g, buf, points[..n], color, k);
      DrawnIsPixel(g, before, points[n].0, points[n].1, color);
      PixelAt(g, before, points[n].0, points[n].1, color, k);
      assert points == points[..n] + [points[n]];
    }
  }

  lemma PixelAt(g: Geometry, buf: seq<bv8>, x: int, y: int, color: bv32, k: nat)
    requires g.Proper() && k < |buf|
    ensures WithPixel(g, buf, x, y, color)[k] ==
            if x == ColOf(g, k) && y == RowOf(g, k) && Visible(g, x, y) && ChannelOf(g, k) < Channels(g)
            then Channel(color, ChannelOf(g, k)) else buf[k]
  {
  }

  /** Drawing the points of a rectangle fills it, in any order and however often,
      points off the screen included or not. */
  lemma FillIsPixelsInAnyOrder(g: Geometry, buf: seq<bv8>, points: seq<(int, int)>, x: int, y: int, w: int, h: int, color: bv32)
    requires g.Proper() && g.stride * g.height <= |buf|
    requires forall p :: p in points ==> InRect(x, y, w, h, p.0, p.1)
    requires forall px, py :: InRect(x, y, w, h, px, py) && Visible(g, px, py) ==> (px, py) in points
    ensures DrawnAll(g, buf, points, color) == WithRect(g, buf, x, y, w, h, color)
  {
    hide Channel, Channels, RowOf, ColOf, ChannelOf, DrawnAll;
    forall k | 0 <= k < |buf|
      ensures DrawnAll(g, buf, points, color)[k] == WithRect(g, buf, x, y, w, h, color)[k]
    {
      PixelsAt(g, buf, points, color, k);
    }
  }

  // ----- Row by row -----

  /** The points of a row from column x up to x1, left to right. */
  function RowPoints(x: int, x1: int, row: int): seq<(int, int)>
    decreases x1 - x
  {
    if x1 <= x then [] else RowPoints(x, x1 - 1, row) + [(x1 - 1, row)]
  }

  /** The points of a rectangle, row by row. */
  function RectPoints(x: int, x1: int, y: int, y1: int): seq<(int, int)>
    decreases y1 - y
  {
    if y1 <= y then [] else RectPoints(x, x1, y, y1 - 1) + RowPoints(x, x1, y1 - 1)
  }

  lemma {:induction false} RowPointsAre(x: int, x1: int, row: int, p: (int, int))
    ensures p in RowPoints(x, x1, row) <==> x <= p.0 < x1 && p.1 == row
    decreases x1 - x
  {
    if x1 > x {
      RowPointsAre(x, x1 - 1, row, p);
    }
  }

  lemma {:induction false} RectPointsAre(x: int, x1: int, y: int, y1: int, p: (int, int))
    ensures p in RectPoints(x, x1, y, y1) <==> x <= p.0 < x1 && y <= p.1 < y1
    decreases y1 - y
  {
    if y1 > y {
      RectPointsAre(x, x1, y, y1 - 1, p);
      RowPointsAre(x, x1, y1 - 1, p);
    }
  }

  lemma DrawnSnoc(g: Geometry, buf: seq<bv8>, points: seq<(int, int)>, p: (int, int), color: bv32)
    ensures DrawnAll(g, buf, points + [p], color) == Drawn(g, DrawnAll(g, buf, points, color), p.0, p.1, color)
  {
    assert (points + [p])[..|points|] == points;
  }

  lemma {:induction false} DrawnConcat(g: Geometry, buf: seq<bv8>, a: seq<(int, int)>, b: seq<(int, int)>, color: bv32)
    ensures DrawnAll(g, buf, a + b, color) == DrawnAll(g, DrawnAll(g, buf, a, color), b, color)
  {
    hide Drawn;
    var n := |b| - 1;
    if n < 0 {
      assert a + b == a;
    } else {
      assert (a + b)[..|a| + n] == a + b[..n];
      DrawnConcat(g, buf, a, b[..n], color);
    }
  }

  /** Clipping a row changes nothing that is drawn. */
  lemma {:induction false} RowClip(g: Geometry, buf: seq<bv8>, x: int, x1: int, row: int, color: bv32)
    ensures DrawnAll(g, buf, RowPoints(x, x1, row), color)
         == DrawnAll(g, buf, RowPoints(Low(x), High(x1, g.width), row), color)
    decreases x1 - x
  {
    hide DrawnAll;
    if x1 > x {
      RowClip(g, buf, x, x1 - 1, row, color);
      DrawnSnoc(g, buf, RowPoints(x, x1 - 1, row), (x1 - 1, row), color);
      DrawnSnoc(g, buf, RowPoints(Low(x), x1 - 1, row), (x1 - 1, row), color);
    }
  }

  lemma {:induction false} HiddenRow(g: Geometry, buf: seq<bv8>, x: int, x1: int, row: int, color: bv32)
    requires !(0 <= row < g.height)
    ensures DrawnAll(g, buf, RowPoints(x, x1, row), color) == buf
    decreases x1 - x
  {
    if x1 > x {
      HiddenRow(g, buf, x, x1 - 1, row, color);
      DrawnSnoc(g, buf, RowPoints(x, x1 - 1, row), (x1 - 1, row), color);
    }
  }

  function Low(x: int): int { if x < 0 then 0 else x }

  function High(x: int, limit: int): int { if x > limit then limit else x }

  /** Clipping a rectangle changes nothing that is drawn. */
  lemma {:induction false} RectClip(g: Geometry, buf: seq<bv8>, x: int, x1: int, y: int, y1: int, color: bv32)
    ensures DrawnAll(g, buf, RectPoints(x, x1, y, y1), color)
         == DrawnAll(g, buf, RectPoints(Low(x), High(x1, g.width), Low(y), High(y1, g.height)), color)
    decreases y1 - y
  {
    hide DrawnAll, RowPoints;
    if y1 > y {
      var n, left, right := y1 - 1, Low(x), High(x1, g.width);
      var above := DrawnAll(g, buf, RectPoints(x, x1, y, n), color);
      RectClip(g, buf, x, x1, y, n, color);
      DrawnConcat(g, buf, RectPoints(x, x1, y, n), RowPoints(x, x1, n), color);
      DrawnConcat(g, buf, RectPoints(left, right, Low(y), n), RowPoints(left, right, n), color);
      if 0 <= n < g.height {
        RowClip(g, above, x, x1, n, color);
      } else {
        HiddenRow(g, above, x, x1, n, color);
      }
    }
  }

  /** The store addresses of a rectangle lie in the buffer, and their offsets in a
      row within int. */
  ghost predicate Addressable(g: Geometry, x: int, y: int, w: int, h: int, length: nat) {
    forall px, py :: InRect(x, y, w, h, px, py) && Visible(g, px, py) ==>
      Fits(g, px, py, length) && px * g.bytesPerPixel + Channels(g) <= 0x8000_0000
  }

  /** With a proper geometry that is so for every rectangle. */
  lemma ProperIsAddressable(g: Geometry, x: int, y: int, w: int, h: int, length: nat)
    requires g.Proper() && g.stride < 0x8000_0000 && g.stride * g.height <= length
    ensures Addressable(g, x, y, w, h, length)
  {
    forall px, py | InRect(x, y, w, h, px, py) && Visible(g, px, py)
      ensures Fits(g, px, py, length) && px * g.bytesPerPixel + Channels(g) <= 0x8000_0000
    {
      AddressDecodes(g, px, py, 0);
      AddressDecodes(g, px, py, Channels(g) - 1);
      MulMono(px + 1, g.width, g.bytesPerPixel);
      MulDistrib(px, 1, g.bytesPerPixel);
    }
  }

  // ----- The code -----

  class Screen {
    var width: int32
    var height: int32
    var bpp: int32
    var stride: int32
    var buffer: array?<bv8>

    constructor (width: int32, height: int32, bpp: int32, stride: int32, buffer: array?<bv8>)
      ensures this.width == width && this.height == height && this.bpp == bpp && this.stride == stride
      ensures this.buffer == buffer
    {
      this.width, this.height, this.bpp, this.stride, this.buffer := width, height, bpp, stride, buffer;
    }

    // disp->bpp / 8, towards zero.
    function BytesPerPixel(): int
      reads this
    {
      var b: int := bpp;
      if b >= 0 then b / 8 else -((-b) / 8)
    }

    function Geo(): Geometry
      reads this
    {
      Geometry(width, height, BytesPerPixel(), stride)
    }

    /** A proper geometry whose rows the buffer holds. */
    ghost predicate Mapped()
      reads this
    {
      buffer != null && Geo().Proper() && stride * height <= buffer.Length
    }

    method StorePixel(at: nat, color: bv32)
      requires buffer != null && at + Channels(Geo()) <= buffer.Length
      modifies buffer
      ensures buffer[..] == Stored(old(buffer[..]), at, color, Channels(Geo()))
    {
      hide Channel;
      buffer[at] := Channel(color, 0);
      buffer[at + 1] := Channel(color, 1);
      buffer[at + 2] := Channel(color, 2);
      if BytesPerPixel() == 4 {
        buffer[at + 3] := Channel(color, 3);
      }
    }

    /** Draws one pixel, for every geometry; if the geometry is proper, that pixel and
        nothing else. */
    method DrawPixel(x: int32, y: int32, color: bv32)
      requires buffer != null && Visible(Geo(), x, y) ==>
                 && Fits(Geo(), x, y, buffer.Length) && Address(Geo(), x, y, 0) < 0x8000_0000
                 && -0x8000_0000 <= y * stride < 0x8000_0000
                 && -0x8000_0000 <= x * BytesPerPixel() < 0x8000_0000
      modifies buffer
      ensures buffer != null ==> buffer[..] == Drawn(Geo(), old(buffer[..]), x, y, color)
      ensures Mapped() ==> buffer[..] == WithPixel(Geo(), old(buffer[..]), x, y, color)
    {
      if buffer == null {
        return;
      }
      if Mapped() {
        DrawnIsPixel(Geo(), buffer[..], x, y, color);
      }
      if x < 0 || x >= width || y < 0 || y >= height {
        return;
      }
      StorePixel(y * stride + x * BytesPerPixel(), color);
    }

    /** Fills row by row. For every geometry this is drawing the points of the whole
        rectangle, from left to right and from top to bottom; if the geometry is
        proper it is the clipped rectangle. A display of less than one byte a pixel
        is left alone. */
    method FillRect(x: int32, y: int32, w: int32, h: int32, color: bv32)
      requires buffer != null && BytesPerPixel() > 0 ==> Addressable(Geo(), x, y, w, h, buffer.Length)
      requires -0x8000_0000 <= x + w < 0x8000_0000 && -0x8000_0000 <= y + h < 0x8000_0000
      modifies buffer
      ensures buffer != null ==>
                buffer[..] == if BytesPerPixel() <= 0 then old(buffer[..])
                              else DrawnAll(Geo(), old(buffer[..]), RectPoints(x, x + w, y, y + h), color)
      ensures Mapped() ==> buffer[..] == WithRect(Geo(), old(buffer[..]), x, y, w, h, color)
    {
      hide RectPoints, RowPoints, DrawnAll, WithRect, Channels, Address;
      if buffer == null {
        return;
      }
      var size := BytesPerPixel();
      if size <= 0 {
        return;
      }
      ghost var g, buf := Geo(), buffer[..];
      var x0 := if x < 0 then 0 else x;
      var y0 := if y < 0 then 0 else y;
      var x1 := if x + w > width then width else x + w;
      var y1 := if y + h > height then height else y + h;
      NoRows(g, buf, x0, x1, y0, y0, color);
      NoRows(g, buf, x0, x1, y0, y1, color);
      var row := y0;
      while row < y1
        invariant y0 <= row && (row <= y1 || row == y0)
        invariant buffer[..] == DrawnAll(g, buf, RectPoints(x0, x1, y0, row), color)
      {
        NextRow(g, buf, x0, x1, y0, row, color);
        forall col | x0 <= col < x1
          ensures Fits(g, col, row, buffer.Length)
        {
          assert InRect(x, y, w, h, col, row) && Visible(g, col, row);
        }
        PaintRow(x0, x1, row, color);
        row := row + 1;
      }
      RectClip(g, buf, x, x + w, y, y + h, color);
      if Mapped() {
        forall p: (int, int)
          ensures p in RectPoints(x, x + w, y, y + h) <==> InRect(x, y, w, h, p.0, p.1)
        {
          RectPointsAre(x, x + w, y, y + h, p);
        }
        FillIsPixelsInAnyOrder(g, buf, RectPoints(x, x + w, y, y + h), x, y, w, h, color);
      }
    }

    /** Fills the whole screen. */
    method Clear(color: bv32)
      requires buffer != null && BytesPerPixel() > 0 ==> Addressable(Geo(), 0, 0, width, height, buffer.Length)
      modifies buffer
      ensures buffer != null ==>
                buffer[..] == if BytesPerPixel() <= 0 then old(buffer[..])
                              else DrawnAll(Geo(), old(buffer[..]), RectPoints(0, width, 0, height), color)
      ensures Mapped() ==> buffer[..] == WithRect(Geo(), old(buffer[..]), 0, 0, width, height, color)
    {
      FillRect(0, 0, width, height, color);
    }

    method PaintRow(x0: int, x1: int, row: int, color: bv32)
      requires buffer != null && 0 <= x0 && x1 <= width && 0 <= row < height
      requires forall col :: x0 <= col < x1 ==> Fits(Geo(), col, row, buffer.Length)
      modifies buffer
      ensures buffer[..] == DrawnAll(Geo(), old(buffer[..]), RowPoints(x0, x1, row), color)
    {
      hide Stored, Channels, DrawnAll, RowPoints;
      ghost var g, buf := Geo(), buffer[..];
      var size := BytesPerPixel();
      var line := row * stride + x0 * size;
      NoPoints(g, buf, x0, x0, row, color);
      NoPoints(g, buf, x0, x1, row, color);
      var col := x0;
      while col < x1
        invariant x0 <= col && (col <= x1 || col == x0)
        invariant buffer[..] == DrawnAll(g, buf, RowPoints(x0, col, row), color)
      {
        var off := (col - x0) * size;
        MulDistrib(col, x0, size);
        assert line + off == Address(g, col, row, 0);
        assert Fits(g, col, row, buffer.Length);
        NextPoint(g, buf, x0, col, row, color);
        StorePixel(line + off, color);
        col := col + 1;
      }
    }
  }

  lemma NoPoints(g: Geometry, buf: seq<bv8>, x0: int, x1: int, row: int, color: bv32)
    ensures x1 <= x0 ==> DrawnAll(g, buf, RowPoints(x0, x1, row), color) == buf
  {
  }

  lemma NextPoint(g: Geometry, buf: seq<bv8>, x0: int, col: int, row: int, color: bv32)
    requires x0 <= col
    ensures DrawnAll(g, buf, RowPoints(x0, col + 1, row), color)
         == Drawn(g, DrawnAll(g, buf, RowPoints(x0, col, row), color), col, row, color)
  {
    DrawnSnoc(g, buf, RowPoints(x0, col, row), (col, row), color);
  }

  lemma NoRows(g: Geometry, buf: seq<bv8>, x0: int, x1: int, y0: int, y1: int, color: bv32)
    ensures y1 <= y0 ==> DrawnAll(g, buf, RectPoints(x0, x1, y0, y1), color) == buf
  {
  }

  lemma NextRow(g: Geometry, buf: seq<bv8>, x0: int, x1: int, y0: int, row: int, color: bv32)
    requires y0 <= row
    ensures DrawnAll(g, buf, RectPoints(x0, x1, y0, row + 1), color)
         == DrawnAll(g, DrawnAll(g, buf, RectPoints(x0, x1, y0, row), color), RowPoints(x0, x1, row), color)
  {
    DrawnConcat(g, buf, RectPoints(x0, x1, y0, row), RowPoints(x0, x1, row), color);
  }
}
