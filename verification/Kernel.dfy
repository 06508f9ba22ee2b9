/** The socket calls, with every outcome POSIX allows. Their preconditions are the
    ways the program must not call them. */
module Kernel {
  import opened Bytes

  datatype Received<T> = Data(bytes: seq<T>) | Eof | RecvAgain | RecvFailed
  datatype Sent = Accepted(n: nat) | SendAgain | SendFailed

  /** Asking for zero bytes would read as end of file. */
  method Recv<T>(room: nat) returns (r: Received<T>)
    requires 0 < room
    ensures r.Data? ==> 0 < |r.bytes| <= room
  {
    r := *;
    if r.Data? && !(0 < |r.bytes| <= room) {
      r := RecvAgain;
    }
  }

  method Send<T>(pending: seq<T>) returns (r: Sent)
    requires 0 < |pending|
    ensures r.Accepted? ==> r.n <= |pending|
  {
    r := *;
    if r.Accepted? && r.n > |pending| {
      r := SendAgain;
    }
  }

  /** False for an error other than ENOTCONN and EPIPE. */
  method ShutdownWrite() returns (ok: bool) {
    ok := *;
  }

  const GENERAL_FAILURE: byte := 0x01
  const NET_UNREACHABLE: byte := 0x03
  const HOST_UNREACHABLE: byte := 0x04
  const CONN_REFUSED: byte := 0x05
  const TTL_EXPIRED: byte := 0x06

  /** The values of errno_to_socks_reply. */
  predicate ErrorReply(reply: byte) {
    reply in {GENERAL_FAILURE, NET_UNREACHABLE, HOST_UNREACHABLE, CONN_REFUSED, TTL_EXPIRED}
  }

  method AnyErrorReply() returns (reply: byte)
    ensures ErrorReply(reply)
  {
    reply := *;
    if !ErrorReply(reply) {
      reply := GENERAL_FAILURE;
    }
  }

  /** socket, O_NONBLOCK and connect: a descriptor on success or EINPROGRESS, and never
      one that is in use. */
  method Connect(busy: int) returns (fd: int, reply: byte)
    ensures fd >= -1 && (fd == busy ==> fd == -1) && ErrorReply(reply)
  {
    fd := *;
    if fd < 0 || fd == busy {
      fd := -1;
    }
    reply := AnyErrorReply();
  }

  /** SO_ERROR of a connecting socket: None when it reads as 0. */
  method SocketError() returns (reply: Option<byte>)
    ensures reply.Some? ==> ErrorReply(reply.value)
  {
    var failed: bool := *;
    if failed {
      var r := AnyErrorReply();
      reply := Some(r);
    } else {
      reply := None;
    }
  }
}
