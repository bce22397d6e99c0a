/** The pages each client operation sends, in the order it sends them, and
    what those pages contain. */
module Pages {
  import opened Wire
  import opened Protocol
  import opened Imaging
  import opened Panel

  /** Setting a key to an image: the encoded image split after 2583 pixels,
      the first part behind the first header, the rest behind the second. */
  function KeyImagePages(key: int, img: Image): (pages: seq<seq<byte>>)
    ensures |pages| == 2 && |pages[0]| == |pages[1]| == PageSize
  {
    var pixels := KeyPixels(img);
    [Frame(HeaderPage1, key, pixels[..FirstPageBytes]), Frame(HeaderPage2, key, pixels[FirstPageBytes..])]
  }

  /** The pixel every key-colour payload repeats: blue, green, red. */
  function ColorUnit(r: byte, g: byte, b: byte): (unit: seq<byte>)
  {
    [b, g, r]
  }

  /** Setting a key to one colour: 3 * 2583 and 3 * 2601 copies of the
      pixel, each cut off at the end of its page. */
  function KeyColorPages(key: int, r: byte, g: byte, b: byte): (pages: seq<seq<byte>>)
    ensures |pages| == 2 && |pages[0]| == |pages[1]| == PageSize
  {
    [Frame(HeaderPage1, key, Repeat(ColorUnit(r, g, b), 3 * NumFirstPagePixels)),
     Frame(HeaderPage2, key, Repeat(ColorUnit(r, g, b), 3 * NumSecondPagePixels))]
  }

  /** Clearing a key: 3 * 3 * 2583 and 3 * 3 * 2601 zero bytes, each cut off
      at the end of its page. */
  function ClearKeyPages(key: int): (pages: seq<seq<byte>>)
    ensures |pages| == 2 && |pages[0]| == |pages[1]| == PageSize
  {
    [Frame(HeaderPage1, key, Zeros(3 * 3 * NumFirstPagePixels)),
     Frame(HeaderPage2, key, Zeros(3 * 3 * NumSecondPagePixels))]
  }

  /** The pages for one crop of a panel image. */
  function CropPages(img: Image, crop: Crop): (pages: seq<seq<byte>>)
  {
    KeyImagePages(crop.key, SubImage(img, crop.rect))
  }

  /** The pages for the given crops of a panel image, crop after crop. */
  function PanelPages(img: Image, crops: seq<Crop>): (pages: seq<seq<byte>>)
  {
    if crops == [] then []
    else PanelPages(img, crops[..|crops| - 1]) + CropPages(img, crops[|crops| - 1])
  }

  /** The pages that clear keys 0, 1, ..., count - 1, in that order. */
  function ClearPanelPages(count: nat): (pages: seq<seq<byte>>)
  {
    if count == 0 then [] else ClearPanelPages(count - 1) + ClearKeyPages(count - 1)
  }

  /** An image update fills two pages: the 2583 + 2601 = 72 * 72 pixels fit
      behind their headers without truncation, both payloads end at byte
      7819, the two payloads put together are the encoded image, and every
      byte after them is zero. */
  lemma KeyImageLayout(key: int, img: Image)
    ensures NumFirstPagePixels + NumSecondPagePixels == IconSize * IconSize
    ensures |HeaderPage1| + FirstPageBytes == |HeaderPage2| + (KeyImageBytes - FirstPageBytes) == 7819 < PageSize
    ensures var pages := KeyImagePages(key, img);
      |pages| == 2 && |pages[0]| == |pages[1]| == PageSize &&
      pages[0][KeyOffset] == pages[1][KeyOffset] == KeyByte(key) &&
      pages[0][|HeaderPage1|..7819] + pages[1][|HeaderPage2|..7819] == KeyPixels(img) &&
      (forall i | 7819 <= i < PageSize :: pages[0][i] == 0 && pages[1][i] == 0)
  {
    var pages, pixels := KeyImagePages(key, img), KeyPixels(img);
    var p1, p2 := pixels[..FirstPageBytes], pixels[FirstPageBytes..];
    FrameLayout(HeaderPage1, key, p1);
    FrameLayout(HeaderPage2, key, p2);
    assert pages[0][|HeaderPage1|..7819] == p1 by {
      forall j | 0 <= j < FirstPageBytes ensures pages[0][|HeaderPage1|..7819][j] == p1[j] {
        assert pages[0][|HeaderPage1| + j] == p1[j];
      }
    }
    assert pages[1][|HeaderPage2|..7819] == p2 by {
      forall j | 0 <= j < |p2| ensures pages[1][|HeaderPage2|..7819][j] == p2[j] {
        assert pages[1][|HeaderPage2| + j] == p2[j];
      }
    }
    assert p1 + p2 == pixels;
  }

  /** A colour update fills every byte behind each header, through the last
      byte of the page, with the pixel pattern blue, green, red; the room
      behind each header is a whole number of pixels. */
  lemma KeyColorLayout(key: int, r: byte, g: byte, b: byte)
    ensures (PageSize - |HeaderPage1|) % 3 == 0 && (PageSize - |HeaderPage2|) % 3 == 0
    ensures var pages := KeyColorPages(key, r, g, b);
      |pages| == 2 && |pages[0]| == |pages[1]| == PageSize &&
      pages[0][KeyOffset] == pages[1][KeyOffset] == KeyByte(key) &&
      (forall i | |HeaderPage1| <= i < PageSize :: pages[0][i] == [b, g, r][(i - |HeaderPage1|) % 3]) &&
      (forall i | |HeaderPage2| <= i < PageSize :: pages[1][i] == [b, g, r][(i - |HeaderPage2|) % 3])
  {
    RepeatedPage(HeaderPage1, key, ColorUnit(r, g, b), 3 * NumFirstPagePixels);
    RepeatedPage(HeaderPage2, key, ColorUnit(r, g, b), 3 * NumSecondPagePixels);
  }

  /** A page whose payload repeats `unit` at least as far as the page goes
      holds the repetition in every byte behind the header. */
  lemma RepeatedPage(header: seq<byte>, key: int, unit: seq<byte>, count: nat)
    requires KeyOffset < |header| <= PageSize && |unit| > 0
    requires |header| + count * |unit| >= PageSize
    ensures Frame(header, key, Repeat(unit, count))[KeyOffset] == KeyByte(key)
    ensures forall i | |header| <= i < PageSize :: Frame(header, key, Repeat(unit, count))[i] == unit[(i - |header|) % |unit|]
  {
    var payload := Repeat(unit, count);
    var page := Frame(header, key, payload);
    FrameLayout(header, key, payload);
    forall i | |header| <= i < PageSize ensures page[i] == unit[(i - |header|) % |unit|] {
      assert page[|header| + (i - |header|)] == payload[i - |header|];
    }
  }

  /** Clearing a key sends its two headers, with the key byte, and nothing
      but zeros after them; it is the same as setting the key to black. */
  lemma ClearKeyLayout(key: int)
    ensures var pages := ClearKeyPages(key);
      |pages| == 2 && |pages[0]| == |pages[1]| == PageSize &&
      pages[0][KeyOffset] == pages[1][KeyOffset] == KeyByte(key) &&
      (forall i | 0 <= i < |HeaderPage1| && i != KeyOffset :: pages[0][i] == HeaderPage1[i]) &&
      (forall i | 0 <= i < |HeaderPage2| && i != KeyOffset :: pages[1][i] == HeaderPage2[i]) &&
      (forall i | |HeaderPage1| <= i < PageSize :: pages[0][i] == 0) &&
      (forall i | |HeaderPage2| <= i < PageSize :: pages[1][i] == 0)
    ensures ClearKeyPages(key) == KeyColorPages(key, 0, 0, 0)
  {
    var pages, black := ClearKeyPages(key), KeyColorPages(key, 0, 0, 0);
    KeyColorLayout(key, 0, 0, 0);
    FrameLayout(HeaderPage1, key, Zeros(3 * 3 * NumFirstPagePixels));
    FrameLayout(HeaderPage2, key, Zeros(3 * 3 * NumSecondPagePixels));
    forall i | |HeaderPage1| <= i < PageSize ensures pages[0][i] == 0 {
      assert pages[0][|HeaderPage1| + (i - |HeaderPage1|)] == 0;
    }
    forall i | |HeaderPage2| <= i < PageSize ensures pages[1][i] == 0 {
      assert pages[1][|HeaderPage2| + (i - |HeaderPage2|)] == 0;
    }
    assert pages[0] == black[0];
    assert pages[1] == black[1];
  }

  /** Every crop contributes exactly two pages. */
  lemma {:induction false} PanelPagesLength(img: Image, crops: seq<Crop>)
    ensures |PanelPages(img, crops)| == 2 * |crops|
    decreases |crops|
  {
    if crops != [] {
      PanelPagesLength(img, crops[..|crops| - 1]);
    }
  }

  /** The pages for the first n crops are the first 2n pages for all crops. */
  lemma {:induction false} PanelPagesPrefix(img: Image, crops: seq<Crop>, n: nat)
    requires n <= |crops|
    ensures |PanelPages(img, crops)| == 2 * |crops|
    ensures PanelPages(img, crops)[..2 * n] == PanelPages(img, crops[..n])
    decreases |crops|
  {
    PanelPagesLength(img, crops);
    if n == |crops| {
      assert crops[..n] == crops;
    } else {
      var init := crops[..|crops| - 1];
      PanelPagesLength(img, init);
      PanelPagesPrefix(img, init, n);
      assert init[..n] == crops[..n];
    }
  }

  /** Appending one crop appends its two pages. */
  lemma PanelPagesAppend(img: Image, crops: seq<Crop>, crop: Crop)
    ensures PanelPages(img, crops + [crop]) == PanelPages(img, crops) + CropPages(img, crop)
  {
    assert (crops + [crop])[..|crops|] == crops;
  }

  /** Pages 2n and 2n + 1 of a panel update are the two pages of crop n. */
  lemma PanelPagesAt(img: Image, crops: seq<Crop>)
    ensures |PanelPages(img, crops)| == 2 * |crops|
    ensures forall n | 0 <= n < |crops| ::
      PanelPages(img, crops)[2 * n] == CropPages(img, crops[n])[0] &&
      PanelPages(img, crops)[2 * n + 1] == CropPages(img, crops[n])[1]
  {
    PanelPagesLength(img, crops);
    forall n | 0 <= n < |crops|
      ensures PanelPages(img, crops)[2 * n] == CropPages(img, crops[n])[0]
      ensures PanelPages(img, crops)[2 * n + 1] == CropPages(img, crops[n])[1]
    {
      PanelPagesAtOne(img, crops, n);
    }
  }

  lemma PanelPagesAtOne(img: Image, crops: seq<Crop>, n: nat)
    requires n < |crops|
    ensures |PanelPages(img, crops)| == 2 * |crops|
    ensures PanelPages(img, crops)[2 * n] == CropPages(img, crops[n])[0]
    ensures PanelPages(img, crops)[2 * n + 1] == CropPages(img, crops[n])[1]
  {
    var all, upto := PanelPages(img, crops), PanelPages(img, crops[..n + 1]);
    PanelPagesPrefix(img, crops, n + 1);
    assert crops[..n + 1] == crops[..n] + [crops[n]];
    PanelPagesAppend(img, crops[..n], crops[n]);
    PanelPagesLength(img, crops[..n]);
    assert all[2 * n] == upto[2 * n] && all[2 * n + 1] == upto[2 * n + 1];
  }

  /** The pages clearing keys below n are the first 2n pages clearing keys
      below m. */
  lemma {:induction false} ClearPanelPagesPrefix(n: nat, m: nat)
    requires n <= m
    ensures |ClearPanelPages(m)| == 2 * m
    ensures ClearPanelPages(m)[..2 * n] == ClearPanelPages(n)
    decreases m
  {
    if m > 0 {
      if n == m {
        ClearPanelPagesPrefix(0, m - 1);
      } else {
        ClearPanelPagesPrefix(n, m - 1);
      }
    }
  }

  /** Clearing keys below `count` sends, for k = 0, 1, ..., count - 1 in
      turn, the two pages that clear key k. */
  lemma ClearPanelPagesAt(count: nat)
    ensures |ClearPanelPages(count)| == 2 * count
    ensures forall k | 0 <= k < count ::
      ClearPanelPages(count)[2 * k] == ClearKeyPages(k)[0] &&
      ClearPanelPages(count)[2 * k + 1] == ClearKeyPages(k)[1]
  {
    ClearPanelPagesPrefix(0, count);
    forall k | 0 <= k < count
      ensures ClearPanelPages(count)[2 * k] == ClearKeyPages(k)[0]
      ensures ClearPanelPages(count)[2 * k + 1] == ClearKeyPages(k)[1]
    {
      ClearPanelPagesPrefix(k + 1, count);
      ClearPanelPagesPrefix(k, k + 1);
    }
  }
}
