# Stream Deck client, modelled in Dafny

This project models the client library for the Elgato Stream Deck, a USB
panel with 15 keys in 5 columns and 3 rows, each key a 72x72 pixel display.
The client has five jobs:
- read which keys are pressed;
- show an image on one key;
- fill one key with a single colour;
- blank one key;
- spread one panel-wide image over all 15 keys, or blank them all.

The device receives each key image as two fixed-size output reports
("pages") of 8191 bytes:
- the first page holds a 70-byte header and then the first 2583 pixels;
- the second page holds a 16-byte header and then the remaining 2601 pixels;
- byte 5 of both headers is overwritten with the key number plus one.

The encoded image runs row by row from top to bottom, with each row mirrored
left to right. Each pixel takes three bytes, blue, green, red, and each of
those is the high byte of a 16-bit colour channel.

The model is split into modules by concern. `Protocol`, `Imaging`, `Panel`
and `StreamDeck` correspond to parts of `client.go`: the constants and page
framing (client.go:10-24, 125-160), the pixel loop (client.go:79-91), the
panel loop (client.go:53-68), and the `Client` methods. `Wire` holds the Go
built-ins and `bytes.Repeat` the client calls. `Transport` stands in for the
device. `Pages` names the page lists the methods send.

- `Wire` (wire.dfy): bytes and the three Go slice primitives the client
  relies on:
  - `make([]byte, n)` (`Zeros`);
  - `make` followed by `copy` (`Fit`);
  - `bytes.Repeat` (`Repeat`).
- `Protocol` (protocol.dfy):
  - the constants and the two page headers;
  - the key byte;
  - `Frame`, the page a payload becomes;
  - `FramePage`, which builds that page step by step the way the client
    does.
- `Transport` (transport.dfy): the device.
  - It is a `Device` class whose n-th write outcome and n-th read reply are
    fixed in advance by two oracle functions.
  - Its counters record how many writes and reads were attempted.
  - A ghost log records every page a write accepted.
  - `SendAll` is the reference meaning of "write these pages in order and
    stop at the first error". Every writing operation of the client is
    specified through it.
- `Imaging` (imaging.dfy):
  - the image-library types the client uses: points, rectangles, an image as
    its bounds plus a colour function;
  - rectangle intersection and `SubImage`;
  - the key-image encoding: the function `KeyPixels` and the nested pixel
    loop `EncodeKeyImage`, which is proved equal to it.
- `Panel` (panel.dfy): how the panel-wide image is cut into 15 crops and in
  what order they are visited.
- `Pages` (pages.dfy): the list of pages each operation sends, and lemmas
  about their contents.
- `StreamDeck` (streamdeck.dfy): the `Client` class and the decoding of
  input reports.

Each writing method of the client is proved to leave the device exactly as
`SendAll` says it would after sending that operation's page list. That
covers:
- the number of write attempts;
- the pages accepted, in order;
- the error returned.

The lemmas in `Pages`, `Panel` and `Imaging` then say what those pages
contain.

The model follows what the code does on these points:
- A short read is not an error. The byte count of `Read` is discarded and
  the whole 17-byte buffer is decoded. Bytes the read leaves untouched stay
  0. A reader that uses the whole buffer as scratch space is modelled by a
  reply carrying all 17 bytes.
- A payload longer than the room behind the header is cut off at the end of
  the page, not refused. The key-colour and clear-key payloads are longer
  than a page and are always truncated.
- The client does not check the byte count of `Write`; it returns the
  write's error as is. Go's writer contract requires an error with every
  short write, so in the model a short write is a failing write: its page
  is not logged, its error is returned, and nothing after it is sent.
- The panel loop runs over columns and, inside each column, over rows. Key
  `column + row * 5` gets the square whose left edge is at `(4 - column) *
  72`, so key 0 shows the top-right square.

## Model

| member | source | states |
|---|---|---|
| Protocol.Frame | client.go:138-141 | the page a payload becomes is exactly 8191 bytes long, whatever the payload's length; its byte layout is stated by `FrameLayout` |
| Protocol.KeyByte | client.go:141 | the key byte is the one-based key id for keys 0..254, and in general agrees with `key + 1` modulo 256, as Go's `byte` conversion does |
| Protocol.FrameLayout | client.go:138-141 | a page is the key byte at offset 5, the header elsewhere before the payload, the payload behind the header as far as it fits, and zeros after it |
| Protocol.FramePage | client.go:138-141 | allocating a zeroed page, copying the header, copying the payload (stopping at the page end) and setting byte 5 yields exactly `Frame` |
| Protocol.FrameTruncates | client.go:140 | a payload longer than the room behind the header frames exactly like its first `8191 - len(header)` bytes: the excess is dropped without error |
| Wire.Fit | client.go:138-140 | `make` then `copy` gives exactly n bytes: the source's bytes where it has them, zero elsewhere |
| Wire.Repeat | client.go:104 | `bytes.Repeat` yields count times the unit's length, and byte j is unit byte j mod the unit's length |
| StreamDeck.Client.WritePage1 | client.go:125-145 | writes exactly one framed first page for the key; the device's attempts, log and returned error are those of sending that page |
| StreamDeck.Client.WritePage2 | client.go:147-160 | the same for the second header |
| StreamDeck.Client.WriteBoth | client.go:93-98 | the first page is written, and the second only if the first was accepted; the result is that of sending both pages with stop-at-first-error |
| Imaging.EncodeKeyImage | client.go:80-91 | the column-outer, row-inner pixel loop leaves the buffer equal to the encoding `KeyPixels` of the image, for any bounds of at most 72x72 and for any empty bounds |
| Imaging.KeyPixels | client.go:80-91 | the encoded key image is exactly 72 * 72 * 3 bytes; where each pixel goes is stated by `KeyPixelsPlacement` and `SlotBijection` |
| Imaging.HighByte | client.go:87-89 | `uint8(v >> 8)` is the unique b with b * 256 <= v < b * 256 + 256 |
| Imaging.EmptyKeyImage | client.go:83-84 | an image with empty bounds, however large its other extent, is accepted and encodes to all-zero bytes |
| Imaging.StorePixel | client.go:87-89 | the three stores of one pixel: red at index i - 1, green at i - 2, blue at i - 3, each the high byte of its channel, and the rest of the buffer unchanged |
| Imaging.KeyPixelsPlacement | client.go:85-89 | the pixel at offset (dx, dy) lands at index `(dy * 72 + (72 - dx)) * 3`, which lies within the buffer; red at index - 1, green at - 2, blue at - 3, each the high byte of its channel |
| Imaging.SlotBijection | client.go:86 | the index formula maps the 72x72 offsets one to one onto the 5184 pixel slots, with rows in order and columns mirrored |
| Imaging.SolidKeyImage | client.go:80-91 | a one-colour 72x72 image encodes to that colour's blue, green and red high bytes repeated 5184 times |
| Imaging.Intersect | client.go:59 | the crop rectangle is inside both rectangles and non-empty, or it is the zero rectangle |
| Imaging.IntersectContains | client.go:59 | a point lies in the intersection exactly when it lies in both rectangles |
| Imaging.SubImage | client.go:59 | a crop shares the image's pixels, its bounds lie inside both the crop rectangle and the image, and it is never wider or taller than the rectangle |
| Pages.KeyImagePages | client.go:93-98 | setting a key image sends two pages of 8191 bytes each; their contents are stated by `KeyImageLayout` |
| Pages.KeyColorPages | client.go:101-112 | setting a key colour sends two pages of 8191 bytes each; their contents are stated by `KeyColorLayout` |
| Pages.ClearKeyPages | client.go:114-123 | clearing a key sends two pages of 8191 bytes each; their contents are stated by `ClearKeyLayout` |
| Pages.ColorUnit | client.go:102 | the pixel a colour fill repeats is blue, green, red; `KeyColorLayout` states where it lands |
| Wire.Zeros | client.go:115-121 | `make([]byte, n)` is n bytes, all zero |
| Pages.CropPages | client.go:59-60 | the pages for one crop are the key-image pages of the cropped sub-image, addressed to the crop's key; `PanelPagesAt` places them in the panel update |
| Pages.KeyImageLayout | client.go:93-98 | 2583 + 2601 pixels make up the whole key image; both payloads fit without truncation and end at byte 7819; the two payloads together are the encoded image; zeros follow; byte 5 of both pages is the key byte |
| Pages.KeyColorLayout | client.go:101-112 | every byte behind each header, through the end of the page, repeats blue, green, red; the room behind each header is a whole number of pixels |
| Pages.RepeatedPage | client.go:104-111 | a page whose payload repeats a unit at least as far as the page goes holds that repetition in every byte behind the header |
| Pages.ClearKeyLayout | client.go:114-123 | clearing a key sends both headers with the key byte and only zeros after them, and equals setting the key to black |
| StreamDeck.Client.SetKeyImage | client.go:79-99 | the device ends as if the two key-image pages of the encoded image had been sent, stopping at the first error |
| StreamDeck.Client.SetKeyColor | client.go:101-112 | the device ends as if the two colour pages had been sent, stopping at the first error |
| StreamDeck.Client.ClearKey | client.go:114-123 | the device ends as if the two zero pages had been sent, stopping at the first error |
| StreamDeck.DecodeButtons | client.go:46-48 | for each of the 15 keys, pressed exactly when report byte i + 1 is 1 |
| StreamDeck.Client.Buttons | client.go:38-51 | one read; a read error is returned as is; otherwise key i is pressed exactly when byte i + 1 of the zero-initialised buffer is 1; no write happens |
| Panel.CropAt | client.go:57-59 | for a loop position inside the 5x3 grid, the crop's key is one of 0..14 and its rectangle is a 72x72 square inside the 360x216 panel |
| Panel.PanelCrops | client.go:55-56 | the panel loop visits exactly 15 positions; their order and keys are stated by `PanelCropOrder` and `PanelVisitsEveryKeyOnce` |
| Panel.PanelCropOrder | client.go:55-60 | loop position (column, row) is the crop visited in place column * 3 + row |
| Panel.CropsBeforeIs | client.go:55-56 | the crops the nested loop has visited on reaching (column, row) are the first column * 3 + row crops of the panel order |
| Panel.PanelVisitsEveryKeyOnce | client.go:55-60 | the panel loop visits each key 0..14 exactly once; the crop for a key is the square `KeyRect` names; key 0 gets the top-right square (288,0)-(360,72) |
| Panel.PanelTiling | client.go:57-59 | the 15 crops are 72x72 squares inside the 360x216 panel, every point of the panel lies in one of them, and no point lies in two |
| Panel.PanelSubImages | client.go:59 | for an image covering exactly the panel, each crop cuts out exactly its square |
| Pages.PanelPages | client.go:55-63 | what the panel loop sends, crop after crop: the pages of each crop in the given order; `PanelPagesAt` and `PanelPagesPrefix` state its shape |
| Pages.PanelPagesAt | client.go:60 | pages 2n and 2n + 1 of a panel update are the two pages of the n-th crop's key image |
| Pages.PanelPagesPrefix | client.go:55-65 | the pages of the first n crops are the first 2n pages of the whole panel update |
| StreamDeck.PanelLoopStep | client.go:60-63 | after one loop position, either the key update succeeded and the device state is that of the positions visited so far, or it failed and the state is that of the whole panel update |
| StreamDeck.Client.SetPanelImage | client.go:53-68 | the device ends as if the pages of all 15 crops had been sent in loop order, stopping at the first error, whose error is returned |
| Pages.ClearPanelPages | client.go:71-74 | what clearing keys 0..count-1 sends, key after key; `ClearPanelPagesAt` and `ClearPanelPagesPrefix` state its shape |
| Pages.ClearPanelPagesAt | client.go:71-72 | clearing the panel sends, for keys 0, 1, ..., 14 in turn, the two pages that clear that key |
| Pages.ClearPanelPagesPrefix | client.go:71-75 | the pages that clear keys below n are the first 2n pages that clear keys below m |
| StreamDeck.ClearLoopStep | client.go:72-74 | after clearing key i, either it succeeded and the state is that of having cleared keys 0..i, or it failed and the state is that of the whole clear-panel operation |
| StreamDeck.Client.ClearPanel | client.go:70-77 | the device ends as if keys 0..14 had been cleared in order, stopping at the first error, whose error is returned |
| Transport.SendAll | client.go:61-63 | reference meaning of writing pages one after another and returning at the first error; what it does is stated by `SendAllSpec` |
| Transport.SendAllSpec | client.go:60-63 | writing pages in order with stop-at-first-error logs the pages before the first failing write, returns that write's error and attempts nothing after it; without a failure every page is logged |
| Transport.SendAllAppend | client.go:93-98 | sending P and then, only if that succeeded, Q is the same as sending P + Q |
| Transport.SendAllPrefixFails | client.go:61-63 | once the first k pages fail, the pages after them change nothing |
| StreamDeck.Client.constructor | client.go:34-36 | a client wraps the given device |

## Left out

- The transport itself (USB HID). The device is a scripted stand-in: the
  outcome of each write and the reply to each read are parameters.
- The byte count that `Read` returns. The client discards it, so a short
  read is modelled only by what it leaves in the buffer.
- The byte count that `Write` returns. The client discards it. A write that
  reports fewer bytes than the page without an error breaks Go's writer
  contract and is not modelled; every short write is a failing write.
- `Close` (client.go:162-164) only forwards to the device's own `Close`. It
  is not part of this model.
- The construction error of `New` is not modelled. It is always `nil`.
- The image library beyond what the client uses is not part of this model,
  including colour models, alpha and premultiplication. A pixel is its red,
  green and blue 16-bit channel values; `SubImage` is rectangle
  intersection over shared pixels.
- The type assertion on the panel image (client.go:54) is not modelled. It
  panics for an image type without a `SubImage` method, and every model
  image has one.
- Imaging.EncodeKeyImage requires `FitsKey`: the bounds are empty, or at
  most 72 wide and 72 tall. With non-empty bounds wider or taller than 72
  the source indexes outside its buffer and panics. The model does not
  capture that panic.
- StreamDeck.Client.SetKeyImage requires `FitsKey` for the same reason. Crops
  taken by the panel operation always satisfy it.
- StreamDeck.Client.Buttons: what a short read leaves in the rest of the
  buffer depends on the reader. The stand-in device leaves those bytes as
  they were, which is 0 in a fresh buffer. Go's reader contract lets a
  reader use the whole buffer as scratch space. The model covers such a
  reader only as a reply that carries all 17 bytes.
- Go's fixed-width `int` is not modelled. Key indices are unbounded
  integers. Only the `byte(key + 1)` conversion is reduced modulo 256, as
  Go does.
- Wire.Repeat: the element-wise ensures is stated only for a non-empty
  unit. The client always repeats a 3-byte pixel.
