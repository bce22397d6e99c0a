/** The device's fixed geometry, its wire constants, and the framing of one
    payload into one output report ("page"). */
module Protocol {
  import opened Wire

  // Panel geometry.
  const NumRows: nat := 3
  const NumColumns: nat := 5
  const NumButtons: nat := 15
  const IconSize: nat := 72

  // Page and report sizes.
  const NumFirstPagePixels: nat := 2583
  const NumSecondPagePixels: nat := 2601
  const PageSize: nat := 8191
  const EventSize: nat := 17

  /** Bytes of one encoded key image: three channel bytes per pixel. */
  const KeyImageBytes: nat := IconSize * IconSize * 3
  /** Where the encoded key image is split between the two pages. */
  const FirstPageBytes: nat := NumFirstPagePixels * 3

  /** Offset of the key-address byte in both page headers. */
  const KeyOffset: nat := 5

  /** Header of the first page: report id and page number, then a
      bitmap-file-shaped preamble for a 72x72, 24-bit image. */
  const HeaderPage1: seq<byte> := [
    0x02, 0x01, 0x01, 0x00, 0x00, 0x00, 0x00, 0x00,
    0x00, 0x00, 0x00, 0x00, 0x00, 0x00, 0x00, 0x00,
    0x42, 0x4d, 0xf6, 0x3c, 0x00, 0x00, 0x00, 0x00,
    0x00, 0x00, 0x36, 0x00, 0x00, 0x00, 0x28, 0x00,
    0x00, 0x00, 0x48, 0x00, 0x00, 0x00, 0x48, 0x00,
    0x00, 0x00, 0x01, 0x00, 0x18, 0x00, 0x00, 0x00,
    0x00, 0x00, 0xc0, 0x3c, 0x00, 0x00, 0xc4, 0x0e,
    0x00, 0x00, 0xc4, 0x0e, 0x00, 0x00, 0x00, 0x00,
    0x00, 0x00, 0x00, 0x00, 0x00, 0x00
  ]

  /** Header of the second page. */
  const HeaderPage2: seq<byte> := [
    0x02, 0x01, 0x02, 0x00, 0x01, 0x00, 0x00, 0x00,
    0x00, 0x00, 0x00, 0x00, 0x00, 0x00, 0x00, 0x00
  ]

  /** Go's `byte(key + 1)`: the low eight bits of the one-based key id. */
  function KeyByte(key: int): (b: byte)
    ensures 0 <= key < 255 ==> b == key + 1
    ensures (key + 1 - b) % 256 == 0
  {
    (key + 1) % 256
  }

  /** The page that carries `payload` for `key` behind `header`: a zeroed
      page of PageSize bytes, the header copied to its start, as much of the
      payload as fits copied behind the header, and byte 5 replaced by the
      key byte. A payload that does not fit is cut off, never refused. */
  function Frame(header: seq<byte>, key: int, payload: seq<byte>): (page: seq<byte>)
    requires KeyOffset < |header| <= PageSize
    ensures |page| == PageSize
  {
    Fit(header + payload, PageSize)[KeyOffset := KeyByte(key)]
  }

  /** Byte by byte, a page is: the key byte at offset 5, the header
      everywhere else before the payload, the payload behind the header as
      far as it fits, and zeros after the payload. */
  lemma FrameLayout(header: seq<byte>, key: int, payload: seq<byte>)
    requires KeyOffset < |header| <= PageSize
    ensures var page := Frame(header, key, payload);
      page[KeyOffset] == KeyByte(key) &&
      (forall i | 0 <= i < |header| && i != KeyOffset :: page[i] == header[i]) &&
      (forall j | 0 <= j < |payload| && |header| + j < PageSize :: page[|header| + j] == payload[j]) &&
      (forall i | |header| + |payload| <= i < PageSize :: page[i] == 0)
  {
    var page, whole := Frame(header, key, payload), header + payload;
    forall j | 0 <= j < |payload| && |header| + j < PageSize ensures page[|header| + j] == payload[j] {
      assert whole[|header| + j] == payload[j];
    }
  }

  /** Builds a page step by step, the way the client does: allocate a zeroed
      buffer, copy the header, copy the payload behind it (Go `copy`, which
      stops at the end of the buffer), then set the key byte. */
  method FramePage(header: seq<byte>, key: int, payload: seq<byte>) returns (page: seq<byte>)
    requires KeyOffset < |header| <= PageSize
    ensures page == Frame(header, key, payload)
  {
    var a := new byte[PageSize](_ => 0);
    var i := 0;
    while i < |header|
      invariant 0 <= i <= |header|
      invariant forall k | 0 <= k < PageSize :: a[k] == (if k < i then header[k] else 0)
    {
      a[i] := header[i];
      i := i + 1;
    }
    var n := Min(|payload|, PageSize - |header|);
    var j := 0;
    while j < n
      invariant 0 <= j <= n
      invariant forall k | 0 <= k < |header| :: a[k] == header[k]
      invariant forall k | |header| <= k < PageSize :: a[k] == (if k < |header| + j then payload[k - |header|] else 0)
    {
      a[|header| + j] := payload[j];
      j := j + 1;
    }
    a[KeyOffset] := KeyByte(key);
    page := a[..];
    ghost var spec := Frame(header, key, payload);
    FrameLayout(header, key, payload);
    assert forall k | 0 <= k < PageSize :: page[k] == spec[k];
  }

  /** A payload longer than the room behind the header frames exactly like
      its first PageSize - |header| bytes: the excess is dropped silently. */
  lemma FrameTruncates(header: seq<byte>, key: int, payload: seq<byte>)
    requires KeyOffset < |header| <= PageSize
    requires |payload| > PageSize - |header|
    ensures Frame(header, key, payload) == Frame(header, key, payload[..PageSize - |header|])
  {
    var p, q := Frame(header, key, payload), Frame(header, key, payload[..PageSize - |header|]);
    FrameLayout(header, key, payload);
    FrameLayout(header, key, payload[..PageSize - |header|]);
    forall k | 0 <= k < PageSize ensures p[k] == q[k] {
      if k >= |header| && k != KeyOffset {
        assert p[|header| + (k - |header|)] == payload[k - |header|];
      }
    }
  }
}
