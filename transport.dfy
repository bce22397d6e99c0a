/** The device the client talks to. The real device is a USB HID handle
    reached through a read/write/close interface; here it is a scripted
    stand-in: the outcome of the n-th write and the reply to the n-th read
    are fixed in advance by two oracle functions, and a ghost log records
    every page a write accepted. */
module Transport {
  import opened Wire

  /** An error returned by the transport; the client passes it on as is. */
  datatype IoError = IoError(reason: string)

  /** What one read delivers: the bytes it produced and its error, if any. */
  datatype Reply = Reply(data: seq<byte>, err: Option<IoError>)

  /** The observable effect of a series of writes: how many writes were
      attempted in all, the log of accepted pages, and the error returned. */
  datatype Effect = Effect(writes: nat, sent: seq<seq<byte>>, err: Option<IoError>)

  class Device {
    /** Outcome of the n-th write attempt (counting from 0). */
    const verdict: nat -> Option<IoError>
    /** Reply to the n-th read (counting from 0). */
    const replies: nat -> Reply

    var writeCount: nat
    var readCount: nat
    /** Every page a write accepted, in order. */
    ghost var sent: seq<seq<byte>>

    constructor (verdict: nat -> Option<IoError>, replies: nat -> Reply)
      ensures this.verdict == verdict && this.replies == replies
      ensures writeCount == 0 && readCount == 0 && sent == []
    {
      this.verdict := verdict;
      this.replies := replies;
      writeCount, readCount := 0, 0;
      sent := [];
    }

    /** Sends one page as one output report. The byte count of the real
        call is dropped by every caller and is not modelled; a short write
        comes with an error, so it is a write whose verdict is an error. */
    method Write(page: seq<byte>) returns (err: Option<IoError>)
      modifies this
      ensures err == verdict(old(writeCount))
      ensures writeCount == old(writeCount) + 1 && readCount == old(readCount)
      ensures sent == if err.None? then old(sent) + [page] else old(sent)
    {
      err := verdict(writeCount);
      writeCount := writeCount + 1;
      if err.None? {
        sent := sent + [page];
      }
    }

    /** Reads one input report into `buf`: as many bytes as the reply holds
        and the buffer takes; the rest of `buf` is left as it was. */
    method Read(buf: array<byte>) returns (n: nat, err: Option<IoError>)
      modifies this, buf
      ensures n == Min(|replies(old(readCount)).data|, buf.Length) && err == replies(old(readCount)).err
      ensures buf[..n] == replies(old(readCount)).data[..n] && buf[n..] == old(buf[n..])
      ensures readCount == old(readCount) + 1 && writeCount == old(writeCount) && sent == old(sent)
    {
      var reply := replies(readCount);
      n := Min(|reply.data|, buf.Length);
      var i := 0;
      while i < n
        modifies buf
        invariant 0 <= i <= n
        invariant buf[..i] == reply.data[..i] && buf[i..] == old(buf[i..])
      {
        buf[i] := reply.data[i];
        i := i + 1;
      }
      err := reply.err;
      readCount := readCount + 1;
    }
  }

  /** Reference semantics of "write these pages one after another and stop
      at the first error", starting after `writes` attempts with log `sent`. */
  function SendAll(verdict: nat -> Option<IoError>, writes: nat, sent: seq<seq<byte>>, pages: seq<seq<byte>>): (e: Effect)
    decreases |pages|
  {
    if pages == [] then Effect(writes, sent, None)
    else match verdict(writes)
      case Some(err) => Effect(writes + 1, sent, Some(err))
      case None => SendAll(verdict, writes + 1, sent + [pages[0]], pages[1..])
  }

  /** What SendAll does: the pages before the first failing attempt are
      appended to the log in order; the failing page is not, its error is
      returned, and nothing after it is attempted. Without a failure every
      page is logged and no error is returned. */
  lemma {:induction false} SendAllSpec(verdict: nat -> Option<IoError>, writes: nat, sent: seq<seq<byte>>, pages: seq<seq<byte>>)
    ensures var e := SendAll(verdict, writes, sent, pages);
      var k := |e.sent| - |sent|;
      0 <= k <= |pages| &&
      e.sent == sent + pages[..k] &&
      (forall n | writes <= n < writes + k :: verdict(n).None?) &&
      (e.err.None? <==> k == |pages|) &&
      (e.err.None? ==> e.writes == writes + |pages|) &&
      (e.err.Some? ==> e.err == verdict(writes + k) && e.writes == writes + k + 1)
    decreases |pages|
  {
    if pages != [] && verdict(writes).None? {
      SendAllSpec(verdict, writes + 1, sent + [pages[0]], pages[1..]);
      var e := SendAll(verdict, writes + 1, sent + [pages[0]], pages[1..]);
      var k := |e.sent| - |sent|;
      assert sent + [pages[0]] + pages[1..][..k - 1] == sent + pages[..k];
    }
  }

  /** Sending P and then, if that succeeded, Q is sending P + Q. */
  lemma {:induction false} SendAllAppend(verdict: nat -> Option<IoError>, writes: nat, sent: seq<seq<byte>>, p: seq<seq<byte>>, q: seq<seq<byte>>)
    ensures SendAll(verdict, writes, sent, p + q) ==
      var e := SendAll(verdict, writes, sent, p);
      if e.err.Some? then e else SendAll(verdict, e.writes, e.sent, q)
    decreases |p|
  {
    if p == [] {
      assert p + q == q;
    } else if verdict(writes).None? {
      assert (p + q)[1..] == p[1..] + q;
      SendAllAppend(verdict, writes + 1, sent + [p[0]], p[1..], q);
    }
  }

  /** When the first k pages already fail, sending all of them does exactly
      what sending those k does. */
  lemma SendAllPrefixFails(verdict: nat -> Option<IoError>, writes: nat, sent: seq<seq<byte>>, pages: seq<seq<byte>>, k: nat)
    requires k <= |pages|
    requires SendAll(verdict, writes, sent, pages[..k]).err.Some?
    ensures SendAll(verdict, writes, sent, pages) == SendAll(verdict, writes, sent, pages[..k])
  {
    assert pages == pages[..k] + pages[k..];
    SendAllAppend(verdict, writes, sent, pages[..k], pages[k..]);
  }

  /** The state of a device agrees with having sent `pages` from the state
      (`writes`, `sent`) and returned `err`. */
  ghost predicate Sends(d: Device, writes: nat, sent: seq<seq<byte>>, pages: seq<seq<byte>>, err: Option<IoError>)
    reads d
  {
    Effect(d.writeCount, d.sent, err) == SendAll(d.verdict, writes, sent, pages)
  }
}
