/** The byte streams under the HTTP library. Every call may move fewer bytes than it was asked to. */
module Streams {
  /** The end that is read from. */
  class Input {
    /** What the peer has sent or is going to send before it closes. */
    var pending: string
    /** Whether reading can fail before that. */
    const reliable: bool

    constructor (pending: string, reliable: bool)
      ensures this.pending == pending && this.reliable == reliable
    {
      this.pending := pending;
      this.reliable := reliable;
    }

    /** At most `size` bytes; `n` is 0 at the end and negative after a failure. */
    method Read(size: nat) returns (n: int, data: string)
      requires size > 0
      modifies this`pending
      ensures n < 0 ==> !reliable && pending == old(pending)
      ensures n == 0 ==> old(pending) == pending == ""
      ensures n > 0 ==> n <= size && n <= |old(pending)| && data == old(pending)[..n] && pending == old(pending)[n..]
    {
      data := "";
      var fail: bool :| fail ==> !reliable;
      if fail { return -1, data; }
      if pending == "" { return 0, data; }
      n :| 0 < n <= size && n <= |pending|;
      data, pending := pending[..n], pending[n..];
    }
  }

  /** The end that is written to. */
  class Output {
    var sent: string
    const reliable: bool

    constructor (reliable: bool)
      ensures sent == "" && this.reliable == reliable
    {
      sent := "";
      this.reliable := reliable;
    }

    /** Takes at least one byte; `n` is negative after a failure. */
    method Write(data: string) returns (n: int)
      requires data != ""
      modifies this`sent
      ensures n < 0 ==> !reliable && sent == old(sent)
      ensures n >= 0 ==> 0 < n <= |data| && sent == old(sent) + data[..n]
    {
      var fail: bool :| fail ==> !reliable;
      if fail { return -1; }
      n :| 0 < n <= |data|;
      sent := sent + data[..n];
    }
  }

  /** What takes the content that was read. */
  class Receiver {
    var got: string
    const willing: bool

    constructor (willing: bool)
      ensures got == "" && this.willing == willing
    {
      got := "";
      this.willing := willing;
    }

    method Take(data: string) returns (ok: bool)
      modifies this`got
      ensures got == old(got) + data
      ensures willing ==> ok
    {
      got := got + data;
      ok :| willing ==> ok;
    }
  }

  /** `write_data`: everything, in as many writes as it takes. */
  method WriteData(strm: Output, d: string) returns (ok: bool)
    modifies strm`sent
    ensures strm.reliable ==> ok
    ensures ok ==> strm.sent == old(strm.sent) + d
    ensures exists k | 0 <= k <= |d| :: strm.sent == old(strm.sent) + d[..k]
  {
    var offset := 0;
    assert strm.sent == old(strm.sent) + d[..0];
    while offset < |d|
      invariant 0 <= offset <= |d| && strm.sent == old(strm.sent) + d[..offset]
    {
      var length := strm.Write(d[offset..]);
      if length < 0 { return false; }
      assert d[..offset + length] == d[..offset] + d[offset..][..length];
      offset := offset + length;
    }
    return true;
  }

  const RECV_BUFSIZ: nat := 4096

  /** `read_content_with_length`: exactly `len` bytes, in as many reads as it takes. */
  method ReadContentWithLength(strm: Input, len: nat, out: Receiver) returns (ok: bool)
    modifies strm`pending, out`got
    ensures exists k | 0 <= k <= len && k <= |old(strm.pending)| ::
      out.got == old(out.got) + old(strm.pending)[..k] && strm.pending == old(strm.pending)[k..]
    ensures ok ==> len <= |old(strm.pending)| && out.got == old(out.got) + old(strm.pending)[..len]
                   && strm.pending == old(strm.pending)[len..]
    ensures strm.reliable && out.willing ==> (ok <==> len <= |old(strm.pending)|)
    ensures strm.reliable && out.willing && !ok ==> out.got == old(out.got) + old(strm.pending) && strm.pending == ""
  {
    ghost var was, got := strm.pending, out.got;
    var r := 0;
    assert got + was[..0] == got && was[0..] == was;
    while r < len
      invariant 0 <= r <= len && r <= |was|
      invariant out.got == got + was[..r] && strm.pending == was[r..]
    {
      var readLen := len - r;
      var n, buf := strm.Read(if readLen < RECV_BUFSIZ then readLen else RECV_BUFSIZ);
      if n <= 0 {
        assert n == 0 ==> r == |was| && was[..r] == was;
        return false;
      }
      assert was[..r + n] == was[..r] + was[r..][..n];
      var more := out.Take(buf);
      if !more {
        assert out.got == got + was[..r + n];
        return false;
      }
      r := r + n;
    }
    return true;
  }
}
