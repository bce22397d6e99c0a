/** The client: key-level and panel-level operations on a 15-key image
    panel, each a sequence of page writes to the device that stops at the
    first error, and the decoding of the device's input report. */
module StreamDeck {
  import opened Wire
  import opened Protocol
  import opened Transport
  import opened Imaging
  import opened Panel
  import opened Pages

  /** Decodes one input report: key i is pressed exactly when report byte
      i + 1 is 1 (any other value means released); byte 0 is not looked at. */
  method DecodeButtons(report: seq<byte>) returns (pressed: seq<bool>)
    requires |report| == EventSize
    ensures |pressed| == NumButtons
    ensures forall i | 0 <= i < NumButtons :: pressed[i] <==> report[i + 1] == 1
  {
    var buttons := new bool[NumButtons](_ => false);
    var i := 0;
    while i < NumButtons
      invariant 0 <= i <= NumButtons
      invariant forall k | 0 <= k < i :: buttons[k] <==> report[k + 1] == 1
    {
      buttons[i] := report[i + 1] == 1;
      i := i + 1;
    }
    pressed := buttons[..];
  }

  /** The report byte at `index` after reading `reply` into a zeroed
      buffer of EventSize bytes: bytes the reply did not supply stay 0. */
  function ReportByte(reply: Reply, index: nat): (b: byte)
  {
    if index < Min(|reply.data|, EventSize) then reply.data[index] else 0
  }

  /** The outcome of reading the buttons. */
  datatype ButtonsResult = Pressed(pressed: seq<bool>) | ReadFailed(error: IoError)

  /** One pass of the panel loop, on the device's observable state: if the
      state before position (column, row) is that of having sent the pages
      of the positions visited so far, and the key update there behaved as
      specified, then either it succeeded and the state is that of having
      sent this position too, or it failed and the state is that of the
      whole panel update. */
  lemma PanelLoopStep(verdict: nat -> Option<IoError>, writes: nat, sent: seq<seq<byte>>, img: Image,
                      column: nat, row: nat, before: Effect, after: Effect)
    requires column < NumColumns && row < NumRows
    requires before.err.None?
    requires before == SendAll(verdict, writes, sent, PanelPages(img, CropsBefore(column, row)))
    requires after == SendAll(verdict, before.writes, before.sent, CropPages(img, CropAt(column, row)))
    ensures after.err.None? ==> after == SendAll(verdict, writes, sent, PanelPages(img, CropsBefore(column, row + 1)))
    ensures after.err.Some? ==> after == SendAll(verdict, writes, sent, PanelPages(img, PanelCrops()))
  {
    PanelPagesAppend(img, CropsBefore(column, row), CropAt(column, row));
    SendAllAppend(verdict, writes, sent, PanelPages(img, CropsBefore(column, row)), CropPages(img, CropAt(column, row)));
    if after.err.Some? {
      var n := column * NumRows + row + 1;
      CropsBeforeIs(column, row + 1);
      PanelPagesPrefix(img, PanelCrops(), n);
      SendAllPrefixFails(verdict, writes, sent, PanelPages(img, PanelCrops()), 2 * n);
    }
  }

  /** One pass of the clearing loop, on the device's observable state: after
      keys below i were cleared, clearing key i either succeeds, giving the
      state of having cleared keys below i + 1, or fails, giving the state
      of the whole clearing operation. */
  lemma ClearLoopStep(verdict: nat -> Option<IoError>, writes: nat, sent: seq<seq<byte>>,
                      i: nat, before: Effect, after: Effect)
    requires i < NumButtons
    requires before.err.None?
    requires before == SendAll(verdict, writes, sent, ClearPanelPages(i))
    requires after == SendAll(verdict, before.writes, before.sent, ClearKeyPages(i))
    ensures after.err.None? ==> after == SendAll(verdict, writes, sent, ClearPanelPages(i + 1))
    ensures after.err.Some? ==> after == SendAll(verdict, writes, sent, ClearPanelPages(NumButtons))
  {
    SendAllAppend(verdict, writes, sent, ClearPanelPages(i), ClearKeyPages(i));
    if after.err.Some? {
      ClearPanelPagesPrefix(i + 1, NumButtons);
      SendAllPrefixFails(verdict, writes, sent, ClearPanelPages(NumButtons), 2 * (i + 1));
    }
  }

  class Client {
    const device: Device

    constructor (device: Device)
      ensures this.device == device
    {
      this.device := device;
    }

    /** Reads one input report and decodes it. A read error is returned as
        is. A short read is not an error: the byte count is discarded and the
        whole buffer is decoded. Bytes a read leaves untouched stay 0; a
        reader that uses the buffer as scratch space is a reply carrying all
        17 bytes. */
    method Buttons() returns (result: ButtonsResult)
      modifies device
      ensures device.readCount == old(device.readCount) + 1
      ensures device.writeCount == old(device.writeCount) && device.sent == old(device.sent)
      ensures var reply := device.replies(old(device.readCount));
        match reply.err
        case Some(e) => result == ReadFailed(e)
        case None =>
          result.Pressed? && |result.pressed| == NumButtons &&
          forall i | 0 <= i < NumButtons :: result.pressed[i] <==> ReportByte(reply, i + 1) == 1
    {
      var buf := new byte[EventSize](_ => 0);
      ghost var blank := buf[..];
      var _, err := device.Read(buf);
      if err.Some? {
        return ReadFailed(err.value);
      }
      ghost var reply := device.replies(old(device.readCount));
      assert forall k | 0 <= k < EventSize :: buf[k] == ReportByte(reply, k) by {
        var n := Min(|reply.data|, EventSize);
        forall k | 0 <= k < EventSize ensures buf[k] == ReportByte(reply, k) {
          if k < n {
            assert buf[..n][k] == reply.data[..n][k];
          } else {
            assert buf[n..][k - n] == blank[n..][k - n];
          }
        }
      }
      var pressed := DecodeButtons(buf[..]);
      result := Pressed(pressed);
    }

    /** Frames `payload` as the first page for `key` and writes it. */
    method WritePage1(key: int, payload: seq<byte>) returns (err: Option<IoError>)
      modifies device
      ensures Sends(device, old(device.writeCount), old(device.sent), [Frame(HeaderPage1, key, payload)], err)
      ensures device.readCount == old(device.readCount)
    {
      var page := FramePage(HeaderPage1, key, payload);
      err := device.Write(page);
    }

    /** Frames `payload` as the second page for `key` and writes it. */
    method WritePage2(key: int, payload: seq<byte>) returns (err: Option<IoError>)
      modifies device
      ensures Sends(device, old(device.writeCount), old(device.sent), [Frame(HeaderPage2, key, payload)], err)
      ensures device.readCount == old(device.readCount)
    {
      var page := FramePage(HeaderPage2, key, payload);
      err := device.Write(page);
    }

    /** Writes two pages, the second only if the first was accepted. */
    method WriteBoth(key: int, payload1: seq<byte>, payload2: seq<byte>) returns (err: Option<IoError>)
      modifies device
      ensures Sends(device, old(device.writeCount), old(device.sent),
                    [Frame(HeaderPage1, key, payload1), Frame(HeaderPage2, key, payload2)], err)
      ensures device.readCount == old(device.readCount)
    {
      ghost var w0, s0 := device.writeCount, device.sent;
      ghost var p1, p2 := Frame(HeaderPage1, key, payload1), Frame(HeaderPage2, key, payload2);
      SendAllAppend(device.verdict, w0, s0, [p1], [p2]);
      assert [p1] + [p2] == [p1, p2];
      err := WritePage1(key, payload1);
      if err.Some? {
        return;
      }
      err := WritePage2(key, payload2);
    }

    /** Shows `img` on key `key`: encodes it and writes the two pages.
        Non-empty bounds wider or taller than 72 pixels are not accepted. */
    method SetKeyImage(key: int, img: Image) returns (err: Option<IoError>)
      requires FitsKey(img.bounds)
      modifies device
      ensures Sends(device, old(device.writeCount), old(device.sent), KeyImagePages(key, img), err)
      ensures device.readCount == old(device.readCount)
    {
      var pixels := EncodeKeyImage(img);
      err := WriteBoth(key, pixels[..FirstPageBytes], pixels[FirstPageBytes..]);
    }

    /** Fills key `keyIndex` with one colour. */
    method SetKeyColor(keyIndex: int, r: byte, g: byte, b: byte) returns (err: Option<IoError>)
      modifies device
      ensures Sends(device, old(device.writeCount), old(device.sent), KeyColorPages(keyIndex, r, g, b), err)
      ensures device.readCount == old(device.readCount)
    {
      var pixel := ColorUnit(r, g, b);
      err := WriteBoth(keyIndex, Repeat(pixel, 3 * NumFirstPagePixels), Repeat(pixel, 3 * NumSecondPagePixels));
    }

    /** Blanks key `keyIndex`. */
    method ClearKey(keyIndex: int) returns (err: Option<IoError>)
      modifies device
      ensures Sends(device, old(device.writeCount), old(device.sent), ClearKeyPages(keyIndex), err)
      ensures device.readCount == old(device.readCount)
    {
      err := WriteBoth(keyIndex, Zeros(3 * 3 * NumFirstPagePixels), Zeros(3 * 3 * NumSecondPagePixels));
    }

    /** Shows a panel-wide image: for each column and, within it, each row,
        crops the square for that position and sets its key to it, stopping
        at the first error. */
    method SetPanelImage(img: Image) returns (err: Option<IoError>)
      modifies device
      ensures Sends(device, old(device.writeCount), old(device.sent), PanelPages(img, PanelCrops()), err)
      ensures device.readCount == old(device.readCount)
    {
      ghost var w0, s0 := device.writeCount, device.sent;
      var column := 0;
      while column < NumColumns
        invariant 0 <= column <= NumColumns
        invariant Sends(device, w0, s0, PanelPages(img, CropsBefore(column, 0)), None)
        invariant device.readCount == old(device.readCount)
      {
        var row := 0;
        while row < NumRows
          invariant 0 <= row <= NumRows
          invariant Sends(device, w0, s0, PanelPages(img, CropsBefore(column, row)), None)
          invariant device.readCount == old(device.readCount)
        {
          ghost var before := Effect(device.writeCount, device.sent, None);
          var crop := CropAt(column, row);
          err := SetKeyImage(crop.key, SubImage(img, crop.rect));
          PanelLoopStep(device.verdict, w0, s0, img, column, row, before, Effect(device.writeCount, device.sent, err));
          if err.Some? {
            return;
          }
          row := row + 1;
        }
        column := column + 1;
      }
      CropsBeforeIs(NumColumns, 0);
      assert PanelCrops()[..NumColumns * NumRows] == PanelCrops();
      err := None;
    }

    /** Clears keys 0, 1, ..., 14 in that order, stopping at the first error. */
    method ClearPanel() returns (err: Option<IoError>)
      modifies device
      ensures Sends(device, old(device.writeCount), old(device.sent), ClearPanelPages(NumButtons), err)
      ensures device.readCount == old(device.readCount)
    {
      ghost var w0, s0 := device.writeCount, device.sent;
      var i := 0;
      while i < NumButtons
        invariant 0 <= i <= NumButtons
        invariant Sends(device, w0, s0, ClearPanelPages(i), None)
        invariant device.readCount == old(device.readCount)
      {
        ghost var before := Effect(device.writeCount, device.sent, None);
        err := ClearKey(i);
        ClearLoopStep(device.verdict, w0, s0, i, before, Effect(device.writeCount, device.sent, err));
        if err.Some? {
          return;
        }
        i := i + 1;
      }
      err := None;
    }
  }
}
