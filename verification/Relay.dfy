/** One direction of an open tunnel: struct copy of src/shared/socks5.c. */
module Relay {
  import opened Bytes
  import opened Buffers
  import Kernel

  const LIMIT := 4096

  /** The last four fields are the record of the direction since copy_init: the bytes
      its buffer already held, those received and sent, and the calls of shutdown. */
  datatype Copy = Copy(readFd: int, writeFd: int, eof: bool, writeClosed: bool, transferred: nat,
                       carried: seq<byte>, received: seq<byte>, delivered: seq<byte>, shutdowns: nat)
  {
    /** Nothing is lost, repeated or reordered; shutdown was called at most once, and
        only after end of file and with nothing left to send. */
    ghost predicate Conserved(rb: Buf) {
      && rb.Valid(LIMIT)
      && carried + received == delivered + rb.bytes
      && transferred == |delivered|
      && shutdowns <= 1 && (shutdowns == 1 ==> eof && rb.bytes == [])
    }

    /** The write side is shut down at most once, and exactly when end of file was
        seen and the last byte went out. */
    ghost predicate Settled(rb: Buf) {
      && Conserved(rb)
      && (writeClosed <==> eof && rb.bytes == [])
      && shutdowns == (if writeClosed then 1 else 0)
    }

    predicate SourceArmed(rb: Buf) {
      !eof && rb.CanWrite(LIMIT)
    }

    predicate SinkArmed(rb: Buf) {
      !writeClosed && rb.CanRead()
    }
  }

  function Opened(from: int, to: int, rb: Buf): Copy {
    Copy(from, to, false, false, 0, rb.bytes, [], [], 0)
  }

  /** Backpressure never wedges a direction: until it is shut down, its source is armed
      for reading or its sink for writing; from then on neither is, and the sink has
      been sent exactly what the source produced. */
  lemma NeverWedged(c: Copy, rb: Buf)
    requires c.Settled(rb)
    ensures !c.writeClosed <==> c.SourceArmed(rb) || c.SinkArmed(rb)
    ensures c.writeClosed ==> c.delivered == c.carried + c.received
  {
    if c.writeClosed {
      assert c.delivered + [] == c.delivered;
    }
  }

  datatype Outcome = Proceed | Fail

  /** copy_shutdown_write. */
  method ShutdownWrite(c: Copy, rb: Buf) returns (r: Outcome, d: Copy)
    requires c.Conserved(rb) && c.shutdowns == (if c.writeClosed then 1 else 0)
    requires c.writeClosed ==> c.eof && rb.bytes == []
    ensures r == Proceed ==> d.Settled(rb)
    ensures d == c.(writeClosed := d.writeClosed, shutdowns := d.shutdowns) && d.Conserved(rb)
    ensures d.shutdowns > c.shutdowns <==> c.eof && rb.bytes == [] && !c.writeClosed
    ensures c.writeClosed ==> d == c
  {
    d := c;
    if c.eof && !rb.CanRead() && !c.writeClosed {
      d := d.(shutdowns := d.shutdowns + 1);
      var ok := Kernel.ShutdownWrite();
      if !ok {
        return Fail, d;
      }
      d := d.(writeClosed := true);
    }
    return Proceed, d;
  }

  /** copy_read up to copy_is_done. It is only called before end of file, because
      OP_READ is armed only then; with room or without, it never asks for zero bytes. */
  method Read(c: Copy, rb: Buf) returns (r: Outcome, d: Copy, b: Buf, ghost got: Option<Kernel.Received<byte>>)
    requires c.Settled(rb) && !c.eof
    ensures d.Conserved(b) && (r == Proceed ==> d.Settled(b))
    ensures d == c.(eof := d.eof, received := d.received, writeClosed := d.writeClosed, shutdowns := d.shutdowns)
    ensures got.None? <==> |rb.bytes| == LIMIT
    ensures d.received == c.received + if got.Some? && got.value.Data? then got.value.bytes else []
    ensures d.eof <==> got == Some(Kernel.Eof)
    ensures got.None? || got.value.RecvAgain? ==> r == Proceed && d == c
    ensures got == Some(Kernel.RecvFailed) ==> r == Fail
  {
    d, b, got := c, rb, None;
    if !b.CanWrite(LIMIT) {
      b := b.Compact();
    }
    if !b.CanWrite(LIMIT) {
      return Proceed, d, b, got;
    }
    var received: Kernel.Received<byte> := Kernel.Recv(LIMIT - b.gap - |b.bytes|);
    got := Some(received);
    match received {
      case RecvAgain => return Proceed, d, b, got;
      case RecvFailed => return Fail, d, b, got;
      case Eof => d := d.(eof := true);
      case Data(bytes) =>
        assert d.delivered + (b.bytes + bytes) == d.delivered + b.bytes + bytes;
        b := b.Fill(bytes);
        d := d.(received := d.received + bytes);
    }
    r, d := ShutdownWrite(d, b);
  }

  /** copy_write up to copy_is_done. */
  method Write(c: Copy, rb: Buf) returns (r: Outcome, d: Copy, b: Buf, ghost sent: Option<Kernel.Sent>)
    requires c.Settled(rb)
    ensures d.Conserved(b) && (r == Proceed ==> d.Settled(b))
    ensures d == c.(transferred := d.transferred, delivered := d.delivered, writeClosed := d.writeClosed, shutdowns := d.shutdowns)
    ensures sent.None? <==> rb.bytes == []
    ensures sent.Some? && sent.value.Accepted? ==> sent.value.n <= |rb.bytes| && d.delivered == c.delivered + rb.bytes[..sent.value.n]
    ensures sent.Some? && !sent.value.Accepted? ==> d == c && r == if sent.value.SendAgain? then Proceed else Fail
    ensures sent.None? ==> d.delivered == c.delivered
  {
    d, b, sent := c, rb, None;
    if b.CanRead() {
      var out := Kernel.Send(b.bytes);
      sent := Some(out);
      match out {
        case SendAgain => return Proceed, d, b, sent;
        case SendFailed => return Fail, d, b, sent;
        case Accepted(n) =>
          if n == 0 {
            return Proceed, d, b, sent;
          }
          assert b.bytes == b.bytes[..n] + b.bytes[n..];
          d := d.(delivered := d.delivered + b.bytes[..n], transferred := d.transferred + n);
          b := b.Advance(n);
      }
    }
    r, d := ShutdownWrite(d, b);
  }
}
