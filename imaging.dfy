/** Images as the client sees them, and the encoding of one key image into
    the device's pixel layout: pixel rows top to bottom, each row mirrored
    left to right, three bytes per pixel in blue, green, red order, each the
    high byte of a 16-bit colour channel. */
module Imaging {
  import opened Wire
  import opened Protocol

  /** A 16-bit colour channel, as an image's colour model reports it. */
  type uint16 = v: int | 0 <= v < 0x1_0000

  /** The red, green and blue channels of one pixel (alpha is not modelled). */
  datatype Color = Color(r: uint16, g: uint16, b: uint16)

  /** A point of the image plane. */
  datatype Point = Point(x: int, y: int)

  /** The half-open rectangle [min.x, max.x) x [min.y, max.y). */
  datatype Rect = Rect(min: Point, max: Point)

  /** An image: its bounds and the colour at every point of them. */
  datatype Image = Image(bounds: Rect, at: (int, int) -> Color)

  const ZeroRect: Rect := Rect(Point(0, 0), Point(0, 0))

  function Width(r: Rect): (w: int) { r.max.x - r.min.x }
  function Height(r: Rect): (h: int) { r.max.y - r.min.y }

  predicate Empty(r: Rect) { r.min.x >= r.max.x || r.min.y >= r.max.y }

  predicate Contains(r: Rect, x: int, y: int)
  {
    r.min.x <= x < r.max.x && r.min.y <= y < r.max.y
  }

  predicate Within(inner: Rect, outer: Rect)
  {
    outer.min.x <= inner.min.x && inner.max.x <= outer.max.x &&
    outer.min.y <= inner.min.y && inner.max.y <= outer.max.y
  }

  /** The largest rectangle inside both r and s; the zero rectangle when they
      do not overlap (the image library's rectangle intersection). */
  function Intersect(r: Rect, s: Rect): (i: Rect)
    ensures i == ZeroRect || (!Empty(i) && Within(i, r) && Within(i, s))
  {
    var i := Rect(Point(Max(r.min.x, s.min.x), Max(r.min.y, s.min.y)), Point(Min(r.max.x, s.max.x), Min(r.max.y, s.max.y)));
    if Empty(i) then ZeroRect else i
  }

  /** A point lies in the intersection exactly when it lies in both. */
  lemma IntersectContains(r: Rect, s: Rect, x: int, y: int)
    ensures Contains(Intersect(r, s), x, y) <==> Contains(r, x, y) && Contains(s, x, y)
  {
  }

  /** The part of `img` inside `r`, sharing its pixels. Cropping to a
      rectangle never yields an image wider or taller than the rectangle. */
  function SubImage(img: Image, r: Rect): (sub: Image)
    ensures sub.at == img.at
    ensures sub.bounds == ZeroRect || (Within(sub.bounds, r) && Within(sub.bounds, img.bounds))
    ensures Width(sub.bounds) <= Max(Width(r), 0) && Height(sub.bounds) <= Max(Height(r), 0)
  {
    var bounds := Intersect(r, img.bounds);
    assert Width(bounds) <= Max(Width(r), 0) && Height(bounds) <= Max(Height(r), 0) by {
      if bounds != ZeroRect {
        assert Within(bounds, r);
      }
    }
    Image(bounds, img.at)
  }

  /** Go's `uint8(v >> 8)` on a 16-bit channel value. */
  function HighByte(v: uint16): (b: byte)
    ensures b * 256 <= v < b * 256 + 256
  {
    v / 256
  }

  /** Byte k (0, 1 or 2) of a pixel's three stored bytes: blue, green, red. */
  function ChannelByte(c: Color, k: int): (b: byte)
  {
    if k == 0 then HighByte(c.b) else if k == 1 then HighByte(c.g) else HighByte(c.r)
  }

  /** The pixel slot that holds the pixel at offset (dx, dy) from the top
      left of a key image: rows in order, columns mirrored. */
  function Slot(dx: int, dy: int): (s: int)
  {
    dy * IconSize + (IconSize - 1 - dx)
  }

  /** The column offset and row offset of the pixel stored in slot s. */
  function SlotColumn(s: int): (dx: int) { IconSize - 1 - s % IconSize }
  function SlotRow(s: int): (dy: int) { s / IconSize }

  /** Slot is a bijection from [0, 72) x [0, 72) onto the 5184 slots:
      every offset lands in a slot, no two offsets share one, and every slot
      is the landing place of the offset SlotColumn/SlotRow name. */
  lemma SlotBijection()
    ensures forall dx, dy | 0 <= dx < IconSize && 0 <= dy < IconSize ::
      0 <= Slot(dx, dy) < IconSize * IconSize &&
      SlotColumn(Slot(dx, dy)) == dx && SlotRow(Slot(dx, dy)) == dy
    ensures forall s | 0 <= s < IconSize * IconSize ::
      0 <= SlotColumn(s) < IconSize && 0 <= SlotRow(s) < IconSize && Slot(SlotColumn(s), SlotRow(s)) == s
  {
    forall dx, dy | 0 <= dx < IconSize && 0 <= dy < IconSize
      ensures 0 <= Slot(dx, dy) < IconSize * IconSize
      ensures SlotColumn(Slot(dx, dy)) == dx && SlotRow(Slot(dx, dy)) == dy
    {
      SlotDecodes(dx, dy);
    }
  }

  lemma SlotDecodes(dx: int, dy: int)
    requires 0 <= dx < IconSize && 0 <= dy < IconSize
    ensures 0 <= Slot(dx, dy) < IconSize * IconSize
    ensures SlotColumn(Slot(dx, dy)) == dx && SlotRow(Slot(dx, dy)) == dy
  {
    var s := Slot(dx, dy);
    ModUnique(s, IconSize, dy, IconSize - 1 - dx);
    assert s / IconSize == dy;
  }

  /** Byte i of the encoded key image, read off backwards from the slot it
      belongs to: the matching channel of the pixel that slot holds, or 0
      when that pixel lies outside the image's bounds. */
  function PixelByte(img: Image, i: int): (b: byte)
  {
    var s := i / 3;
    if SlotColumn(s) < Width(img.bounds) && SlotRow(s) < Height(img.bounds)
    then ChannelByte(img.at(img.bounds.min.x + SlotColumn(s), img.bounds.min.y + SlotRow(s)), i % 3)
    else 0
  }

  /** The encoded key image: 72 * 72 * 3 bytes. */
  function KeyPixels(img: Image): (pixels: seq<byte>)
    ensures |pixels| == KeyImageBytes
  {
    seq(KeyImageBytes, i => PixelByte(img, i))
  }

  /** The encoding loop's progress: slot s has been written once every
      column offset below `cols`, and the first `rows` rows of column offset
      `cols`, have been visited. */
  ghost predicate Painted(img: Image, s: int, cols: int, rows: int)
  {
    SlotColumn(s) < Width(img.bounds) && SlotRow(s) < Height(img.bounds) &&
    (SlotColumn(s) < cols || (SlotColumn(s) == cols && SlotRow(s) < rows))
  }

  ghost function PaintedBytes(img: Image, cols: int, rows: int): seq<byte>
  {
    seq(KeyImageBytes, i => if Painted(img, i / 3, cols, rows) then PixelByte(img, i) else 0)
  }

  /** One step of the inner loop: writing the three bytes of pixel (dx, dy)
      at the indices the source computes turns the progress before that
      pixel into the progress after it. */
  lemma PaintStep(img: Image, x: int, y: int)
    requires Width(img.bounds) <= IconSize && Height(img.bounds) <= IconSize
    requires img.bounds.min.x <= x < img.bounds.max.x && img.bounds.min.y <= y < img.bounds.max.y
    ensures var i := ((y - img.bounds.min.y) * IconSize + (IconSize - (x - img.bounds.min.x))) * 3;
      var c := img.at(x, y);
      3 <= i <= KeyImageBytes &&
      PaintedBytes(img, x - img.bounds.min.x, y - img.bounds.min.y)[i - 1 := HighByte(c.r)][i - 2 := HighByte(c.g)][i - 3 := HighByte(c.b)]
        == PaintedBytes(img, x - img.bounds.min.x, y + 1 - img.bounds.min.y)
  {
    var dx, dy := x - img.bounds.min.x, y - img.bounds.min.y;
    var i := (dy * IconSize + (IconSize - dx)) * 3;
    var s := Slot(dx, dy);
    assert i == 3 * s + 3;
    SlotDecodes(dx, dy);
    var before, after := PaintedBytes(img, dx, dy), PaintedBytes(img, dx, dy + 1);
    var c := img.at(img.bounds.min.x + dx, img.bounds.min.y + dy);
    var updated := before[i - 1 := HighByte(c.r)][i - 2 := HighByte(c.g)][i - 3 := HighByte(c.b)];
    forall k | 0 <= k < KeyImageBytes ensures updated[k] == after[k] {
      var t := k / 3;
      if t == s {
        assert k == i - 3 || k == i - 2 || k == i - 1;
      } else {
        assert k != i - 1 && k != i - 2 && k != i - 3;
        SlotBijection();
        assert Painted(img, t, dx, dy + 1) == Painted(img, t, dx, dy);
      }
    }
    assert updated == after;
  }

  /** The end of one pass of the inner loop is the start of the next pass. */
  lemma PaintColumnDone(img: Image, dx: int)
    requires 0 <= dx && Height(img.bounds) <= IconSize
    ensures PaintedBytes(img, dx, Max(Height(img.bounds), 0)) == PaintedBytes(img, dx + 1, 0)
  {
  }

  /** After the last column the progress is the whole encoding. */
  lemma PaintDone(img: Image)
    ensures PaintedBytes(img, Max(Width(img.bounds), 0), 0) == KeyPixels(img)
  {
  }

  /** Bounds the pixel loop can encode without indexing outside its buffer:
      at most 72 wide and 72 tall, unless the bounds are empty, in which case
      the loop body never runs whatever the other extent is. */
  predicate FitsKey(r: Rect)
  {
    (Width(r) <= IconSize || Height(r) <= 0) && (Height(r) <= IconSize || Width(r) <= 0)
  }

  /** Stores the high bytes of one pixel's channels just below index i:
      red at i - 1, green at i - 2, blue at i - 3. */
  method StorePixel(a: array<byte>, i: int, c: Color)
    requires 3 <= i <= a.Length
    modifies a
    ensures a[..] == old(a[..])[i - 1 := HighByte(c.r)][i - 2 := HighByte(c.g)][i - 3 := HighByte(c.b)]
  {
    a[i - 1] := HighByte(c.r);
    a[i - 2] := HighByte(c.g);
    a[i - 3] := HighByte(c.b);
  }

  /** The pixel loop of the key-image operation: visits every point of the
      image's bounds, column by column, and stores its channels at index
      ((y - min.y) * 72 + (72 - (x - min.x))) * 3 minus 1, 2 and 3. Non-empty
      bounds wider or taller than 72 would index outside the buffer. */
  method EncodeKeyImage(img: Image) returns (pixels: seq<byte>)
    requires FitsKey(img.bounds)
    ensures pixels == KeyPixels(img)
  {
    var a := new byte[KeyImageBytes](_ => 0);
    assert a[..] == PaintedBytes(img, 0, 0);
    var x := img.bounds.min.x;
    while x < img.bounds.max.x
      invariant img.bounds.min.x <= x <= Max(img.bounds.min.x, img.bounds.max.x)
      invariant a[..] == PaintedBytes(img, x - img.bounds.min.x, 0)
    {
      var y := img.bounds.min.y;
      while y < img.bounds.max.y
        invariant img.bounds.min.y <= y <= Max(img.bounds.min.y, img.bounds.max.y)
        invariant a[..] == PaintedBytes(img, x - img.bounds.min.x, y - img.bounds.min.y)
      {
        var c := img.at(x, y);
        var i := ((y - img.bounds.min.y) * IconSize + (IconSize - (x - img.bounds.min.x))) * 3;
        PaintStep(img, x, y);
        StorePixel(a, i, c);
        y := y + 1;
      }
      PaintColumnDone(img, x - img.bounds.min.x);
      x := x + 1;
    }
    PaintDone(img);
    pixels := a[..];
  }

  /** Each pixel of the image ends up, channel by channel, at the three
      bytes below the index the source computes for it; that index is
      within the buffer. */
  lemma KeyPixelsPlacement(img: Image, dx: int, dy: int)
    requires 0 <= dx < Width(img.bounds) <= IconSize && 0 <= dy < Height(img.bounds) <= IconSize
    ensures var i := (dy * IconSize + (IconSize - dx)) * 3;
      var c := img.at(img.bounds.min.x + dx, img.bounds.min.y + dy);
      3 <= i <= KeyImageBytes &&
      KeyPixels(img)[i - 1] == HighByte(c.r) &&
      KeyPixels(img)[i - 2] == HighByte(c.g) &&
      KeyPixels(img)[i - 3] == HighByte(c.b)
  {
    var i := (dy * IconSize + (IconSize - dx)) * 3;
    assert i == 3 * Slot(dx, dy) + 3;
    SlotDecodes(dx, dy);
    assert (i - 1) / 3 == Slot(dx, dy) && (i - 1) % 3 == 2;
    assert (i - 2) / 3 == Slot(dx, dy) && (i - 2) % 3 == 1;
    assert (i - 3) / 3 == Slot(dx, dy) && (i - 3) % 3 == 0;
  }

  /** An image with empty bounds, however wide or tall its other extent,
      encodes to zero bytes: the pixel loop never stores anything. */
  lemma EmptyKeyImage(img: Image)
    requires Empty(img.bounds)
    ensures FitsKey(img.bounds)
    ensures KeyPixels(img) == Zeros(KeyImageBytes)
  {
  }

  /** An image of one colour encodes to the same bytes as that colour
      repeated for every pixel, blue, green, red. */
  lemma SolidKeyImage(bounds: Rect, c: Color)
    requires Width(bounds) == IconSize && Height(bounds) == IconSize
    ensures KeyPixels(Image(bounds, (x, y) => c)) ==
      Repeat([HighByte(c.b), HighByte(c.g), HighByte(c.r)], IconSize * IconSize)
  {
    var img := Image(bounds, (x, y) => c);
    var unit := [HighByte(c.b), HighByte(c.g), HighByte(c.r)];
    var p, q := KeyPixels(img), Repeat(unit, IconSize * IconSize);
    SlotBijection();
  }
}
