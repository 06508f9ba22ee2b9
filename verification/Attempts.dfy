/** The attempts of src/shared/socks5.c to reach a destination: its addresses are tried
    one after the other until one is reached, none is left, or something cuts in. */
module Attempts {
  import opened Bytes
  import opened Selectors
  import Kernel

  type Address = seq<byte>

  /** What became of one attempt, and the descriptor it got. */
  datatype Try = ConnectFailed(code: byte) | NotRegistered(fd: int) | InProgress(fd: int)
  {
    /** As connect and the selector can produce it: with a slot for every descriptor, and
        none of them handed out while it is in use, a registration is refused exactly for
        a descriptor that has reached the limit. */
    predicate Possible() {
      match this
      case ConnectFailed(code) => Kernel.ErrorReply(code)
      case NotRegistered(fd) => fd >= FD_SETSIZE
      case InProgress(fd) => ValidFd(fd)
    }
  }

  /** Where the attempts stand. */
  datatype Fate =
    | Idle           // no attempt is due
    | NotSubmitted   // the DNS worker did not take the job
    | NoAddress      // the resolution found nothing
    | Between        // the next address is about to be tried
    | Awaiting       // a connect is under way
    | Reached        // SO_ERROR was read as 0
    | Exhausted      // every address failed
    | Unregistered   // the selector refused a descriptor
    | Expired        // the connect timeout struck

  /** origin_resolution and struct connecting. The rest is a record: the addresses tried
      and those that are not, the reply codes of the attempts that failed, and the last
      descriptor obtained. */
  datatype Conn = Conn(resolution: seq<Address>, current: seq<Address>, reply: byte,
                       tried: seq<Address>, left: seq<Address>, errors: seq<byte>, lastFd: int, fate: Fate)
  {
    predicate Attempted() {
      !fate.Idle? && !fate.NotSubmitted? && !fate.NoAddress?
    }

    predicate Concluded() {
      !fate.Idle? && !fate.Between? && !fate.Awaiting?
    }

    /** Before a connect is decided. */
    predicate Pursuing() {
      fate.Between? || fate.Awaiting? || fate.Exhausted? || fate.Unregistered?
    }

    ghost predicate Valid() {
      && (Attempted() ==> Kernel.ErrorReply(reply))
      && (fate.Unregistered? ==> lastFd >= FD_SETSIZE) && (!fate.Unregistered? && !fate.Expired? ==> lastFd < FD_SETSIZE)
      && match fate
         case Between => |errors| == |tried| && left != [] && (current == left || (current == [] && |left| == 1))
         case Awaiting => |errors| + 1 == |tried| && current == left
         case Reached => |errors| + 1 == |tried| && current == left
         case Exhausted => |errors| == |tried| > 0 && current == left == [] && reply == errors[|errors| - 1]
         case Unregistered => |errors| + 1 == |tried| && current == left && reply == Kernel.GENERAL_FAILURE
         case Expired => |errors| <= |tried| && tried != [] && current == [] && reply == Kernel.TTL_EXPIRED
         case _ => tried == left == [] && errors == []
    }

    /** The reply that goes with the fate. */
    function Verdict(): byte {
      match fate
      case NotSubmitted => Kernel.GENERAL_FAILURE
      case NoAddress => Kernel.HOST_UNREACHABLE
      case Unregistered => Kernel.GENERAL_FAILURE
      case Expired => Kernel.TTL_EXPIRED
      case Exhausted => if errors == [] then 0xFF else errors[|errors| - 1]
      case _ => 0x00
    }

    function Enter(addresses: seq<Address>): (c: Conn)
      requires Valid() && fate.Idle? && addresses != [] && (current == addresses || (current == [] && |addresses| == 1))
      ensures c.Valid() && c.tried + c.left == addresses
    {
      this.(reply := Kernel.GENERAL_FAILURE, left := addresses, fate := Between)
    }

    /** An attempt failed: the next one, if there is one. */
    function Failed(code: byte): (c: Conn)
      requires Valid() && fate.Awaiting? && Kernel.ErrorReply(code)
      ensures c.Valid() && c.tried + c.left == tried + left
    {
      this.(reply := code, errors := errors + [code], fate := if left == [] then Exhausted else Between)
    }

    function Next(t: Try): (c: Conn)
      requires Valid() && fate.Between? && t.Possible()
      ensures c.Valid() && c.tried + c.left == tried + left && |c.left| < |left| && tried <= c.tried
      ensures c.Pursuing() && c.resolution == resolution
    {
      var c := this.(current := if current == [] then [] else current[1..], tried := tried + [left[0]], left := left[1..],
                     fate := Awaiting);
      match t
      case InProgress(fd) => c.(lastFd := fd)
      case NotRegistered(fd) => c.(lastFd := fd, reply := Kernel.GENERAL_FAILURE, fate := Unregistered)
      case ConnectFailed(code) => c.Failed(code)
    }

    function Expire(): (c: Conn)
      requires Valid() && Attempted() && tried != []
      ensures c.Valid() && c.tried + c.left == tried + left
    {
      this.(current := [], reply := Kernel.TTL_EXPIRED, fate := Expired)
    }

    /** The loop over the addresses, for the outcomes ts. */
    ghost function Pursue(ts: seq<Try>): (c: Conn)
      requires Valid() && fate.Between? && Possible(ts)
      ensures c.Valid() && c.tried + c.left == tried + left && tried <= c.tried
      ensures c.Pursuing() && c.resolution == resolution
    {
      if ts == [] then this
      else
        var c := Pursue(ts[..|ts| - 1]);
        if c.fate.Between? then c.Next(ts[|ts| - 1]) else c
    }
  }

  const IDLE := Conn([], [], 0, [], [], [], -1, Idle)

  ghost predicate Possible(ts: seq<Try>) {
    forall i :: 0 <= i < |ts| ==> ts[i].Possible()
  }

  lemma PursueOne(c: Conn, ts: seq<Try>, t: Try)
    requires c.Valid() && c.fate.Between? && Possible(ts + [t]) && Possible(ts) && c.Pursue(ts).fate.Between?
    ensures c.Pursue(ts + [t]) == c.Pursue(ts).Next(t)
  {
    assert (ts + [t])[..|ts|] == ts;
  }

  /** What the design document promises of a request that could not be connected: the
      timeout answers TTL expired, and otherwise every address has failed and the reply
      is that of the last. */
  ghost predicate AsDesigned(c: Conn) {
    || (c.fate.Expired? && c.Verdict() == Kernel.TTL_EXPIRED)
    || (c.left == [] && c.errors != [] && |c.errors| == |c.tried| && c.Verdict() == c.errors[|c.errors| - 1])
  }

  /** The promise is kept exactly when the timeout struck or no descriptor reached the
      limit of the selector. An address is left untried only after a refused registration
      or a timeout, and then whenever there was one left. */
  lemma DesignHolds(c: Conn)
    requires c.Valid() && c.Attempted() && c.Concluded() && !c.fate.Reached?
    ensures AsDesigned(c) <==> c.fate.Expired? || c.lastFd < FD_SETSIZE
    ensures c.tried == c.tried + c.left <==> c.left == []
    ensures c.left != [] ==> c.fate.Unregistered? || c.fate.Expired?
  {
    if c.tried == c.tried + c.left {
      assert |c.tried| == |c.tried| + |c.left|;
    }
  }

  function Codes(ts: seq<Try>): seq<byte> {
    if ts == [] then []
    else Codes(ts[..|ts| - 1]) + if ts[|ts| - 1].ConnectFailed? then [ts[|ts| - 1].code] else []
  }

  /** While the loop goes on, each address so far was tried once, in order, and failed
      with the code on record. */
  lemma {:induction false} StillTrying(c: Conn, ts: seq<Try>)
    requires c.Valid() && c.fate.Between? && Possible(ts) && c.Pursue(ts).fate.Between?
    ensures var d := c.Pursue(ts);
            && d.tried + d.left == c.tried + c.left && |d.tried| == |c.tried| + |ts|
            && d.errors == c.errors + Codes(ts) && |Codes(ts)| == |ts|
    decreases |ts|
  {
    if ts == [] {
      assert c.errors + [] == c.errors;
    } else {
      var n := |ts| - 1;
      StillTrying(c, ts[..n]);
      var d := c.Pursue(ts[..n]);
      assert d.Next(ts[n]).errors == d.errors + [ts[n].code];
      assert d.errors + [ts[n].code] == c.errors + (Codes(ts[..n]) + [ts[n].code]);
    }
  }

  /** The outcomes of a loop that went on until the last of them. */
  ghost predicate Played(c: Conn, ts: seq<Try>)
    requires c.Valid() && c.fate.Between?
  {
    ts != [] && Possible(ts) && c.Pursue(ts[..|ts| - 1]).fate.Between?
  }

  /** The loop gives up with an address untried exactly when the registration of another
      one's descriptor is refused before the last. */
  lemma GivenUp(c: Conn, ts: seq<Try>)
    requires c.Valid() && c.fate.Between? && Played(c, ts)
    ensures var d := c.Pursue(ts);
            && d.tried + d.left == c.tried + c.left && |d.tried| == |c.tried| + |ts|
            && (d.Concluded() && d.left != [] <==> ts[|ts| - 1].NotRegistered? && |ts| < |c.left|)
  {
    var front := ts[..|ts| - 1];
    StillTrying(c, front);
    assert |c.Pursue(front).tried| + |c.Pursue(front).left| == |c.tried| + |c.left|;
  }

  /** Two addresses, and the descriptor for the first is 1024: the second is never tried,
      and the reply is a general failure although nothing has failed to connect. */
  lemma RefusedEarly(a: Address, b: Address)
    ensures var c := IDLE.(current := [a, b]).Enter([a, b]).Pursue([NotRegistered(1024)]);
            && c.Concluded() && c.tried == [a] && c.left == [b] && c.errors == []
            && c.Verdict() == Kernel.GENERAL_FAILURE && !AsDesigned(c)
  {
    var e := IDLE.(current := [a, b]).Enter([a, b]);
    assert [NotRegistered(1024)] == [] + [NotRegistered(1024)];
    PursueOne(e, [], NotRegistered(1024));
  }
}
