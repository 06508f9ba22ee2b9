/** src/shared/socks5.c over src/shared/stm.c: one proxied connection. */
module Sessions {
  import opened Bytes
  import opened Buffers
  import opened Incremental
  import opened Selectors
  import opened Attempts
  import Kernel
  import Hello
  import Auth
  import Request
  import Relay

  const LIMIT := Relay.LIMIT

  datatype State =
    | HelloRead | HelloWrite | AuthRead | AuthWrite | RequestRead | RequestResolv
    | Connecting | RequestWrite | Copying | Done | Error

  function Rank(s: State): nat {
    match s
    case HelloRead => 0 case HelloWrite => 1 case AuthRead => 2 case AuthWrite => 3
    case RequestRead => 4 case RequestResolv => 5 case Connecting => 6 case RequestWrite => 7
    case Copying => 8 case Done => 9 case Error => 10
  }

  predicate IsReading(s: State) {
    s.HelloRead? || s.AuthRead? || s.RequestRead?
  }

  /** The state number never decreases, and a read leads to no other reading state. */
  predicate Follows(s: State, next: State) {
    Rank(s) <= Rank(next) && (IsReading(s) && IsReading(next) ==> next == s)
  }

  type Users = Option<map<seq<byte>, seq<byte>>>

  predicate AuthRequired(users: Users) {
    users.Some? && users.value != map[]
  }

  function SelectMethod(required: bool, methods: seq<byte>): byte {
    if required && Hello.USERNAME_PASSWORD in methods then Hello.USERNAME_PASSWORD
    else if !required && Hello.NO_AUTHENTICATION in methods then Hello.NO_AUTHENTICATION
    else Hello.NO_ACCEPTABLE_METHODS
  }

  /** users_check, on what C strings make of the received bytes. */
  predicate Accepts(users: Users, uname: seq<byte>, passwd: seq<byte>) {
    users.None? || (CString(uname) in users.value && users.value[CString(uname)] == CString(passwd))
  }

  function HelloReply(m: byte): (r: seq<byte>)
    ensures |r| == 2
  {
    [Hello.SOCKS_VERSION, m]
  }

  function AuthReply(status: byte): (r: seq<byte>)
    ensures |r| == 2
  {
    [Auth.AUTH_VERSION, status]
  }

  function RequestReply(reply: byte): (r: seq<byte>)
    ensures |r| == 10
  {
    [Request.SOCKS_VERSION, reply, 0x00, Request.ATYP_IPV4, 0, 0, 0, 0, 0, 0]
  }

  /** A name is handed on as a C string. */
  function HostOf(d: Request.Destination): seq<byte> {
    if d.atyp == Request.ATYP_FQDN then CString(d.addr) else d.addr
  }

  /** The descriptors, the interests of the selector slots held at them, and the
      reference count. */
  datatype Registration = Registration(clientFd: int, originFd: int, client: Option<Interest>, origin: Option<Interest>,
                                       references: int)
  {
    /** The selector has slots for the descriptors. */
    predicate Fits() {
      ValidFd(clientFd) && -1 <= originFd < FD_SETSIZE
    }

    /** extra counts the DNS worker. */
    ghost predicate Holds(c: Interest, o: Option<Interest>, extra: nat) {
      && client == Some(c) && origin == o
      && (o.None? <==> originFd == -1) && originFd != clientFd && Fits()
      && references == 1 + (if o.None? then 0 else 1) + extra
    }

    /** What socksv5_done relies on: every descriptor it will see is registered, and
        the reference count is their number. */
    ghost predicate Closable() {
      && client.Some? && (origin.Some? <==> originFd != -1) && originFd != clientFd && Fits()
      && references == 1 + (if originFd == -1 then 0 else 1)
    }

    /** Is fd one of ours, and in the selector? */
    predicate Knows(fd: int) {
      (fd == clientFd && client.Some?) || (fd == originFd && origin.Some?)
    }

    /** selector_set_interest on one of ours. */
    function Armed(fd: int, interest: Interest): (r: Registration)
      requires Knows(fd) && originFd != clientFd
      ensures r.Knows(fd) && (if fd == clientFd then r.client else r.origin) == Some(interest)
    {
      if fd == clientFd then this.(client := Some(interest)) else this.(origin := Some(interest))
    }
  }

  /** The reference count is the number of registered descriptors, plus one for the
      DNS worker while the session waits in RESOLV with no origin yet. */
  ghost predicate Counted(s: State, reg: Registration) {
    && reg.client.Some? && (reg.origin.Some? <==> reg.originFd != -1) && reg.originFd != reg.clientFd && reg.Fits()
    && reg.references == 1 + (if reg.origin.Some? then 1 else 0) + (if s == RequestResolv then 1 else 0)
    && (s == RequestResolv ==> reg.origin == None)
  }

  /** Ghost record of the negotiation: the bytes each parser consumed and what they
      said, and what the user store was found to hold when it was asked. */
  datatype Heard = Heard(hello: seq<byte>, auth: seq<byte>, request: seq<byte>,
                         offered: seq<byte>, name: seq<byte>, password: seq<byte>, target: Request.Destination,
                         required: Option<bool>, users: Option<Users>)
  {
    /** Since before, the store was only asked while it was users, and for each of its
        two answers at most once. */
    ghost predicate Since(before: Heard, users: Users) {
      && (required == before.required || (before.required == None && required == Some(AuthRequired(users))))
      && (this.users == before.users || (before.users == None && this.users == Some(users)))
    }

    /** The greeting was complete and the method chosen from what it offered. */
    ghost predicate Greeted(m: byte) {
      && Hello.ReadMessage(hello) == Hello.Greeting(|hello|, offered)
      && required.Some? && m == SelectMethod(required.value, offered)
    }

    /** The credentials were complete and judged by the store of that moment. */
    ghost predicate Judged(status: byte) {
      && Auth.ReadMessage(auth) == Auth.Credentials(|auth|, name, password)
      && users.Some? && status == (if Accepts(users.value, name, password) then 0x00 else 0x01)
    }

    /** The authentication gate: either the store was empty or absent at greeting time
        and method 0x00 was offered, or method 0x02 was offered and the credentials passed. */
    ghost predicate Admitted(m: byte, status: byte) {
      && Greeted(m)
      && (if m == Hello.NO_AUTHENTICATION then required == Some(false) && auth == []
          else m == Hello.USERNAME_PASSWORD && status == 0x00 && Judged(status))
    }

    /** The request was complete and supported. */
    ghost predicate Requested() {
      Request.ReadMessage(request) == Request.Connect(|request|, target)
    }

    /** The addresses tried and left are those of the destination. */
    ghost predicate Chased(conn: Conn) {
      conn.tried + conn.left == if target.atyp == Request.ATYP_FQDN then conn.resolution else [HostOf(target)]
    }

    /** The reply that section 6 of RFC 1928 has for the request: for a supported one,
        the one that goes with what became of it. */
    ghost predicate Deserves(reply: byte, conn: Conn) {
      match Request.ReadMessage(request)
      case BadCommand(used) => used == |request| && reply == 0x07 && conn == IDLE
      case BadAddressType(used) => used == |request| && reply == 0x08 && conn == IDLE
      case Connect(used, to) =>
        && used == |request| && to == target && conn.Concluded() && reply == conn.Verdict()
        && (conn.Attempted() ==> Chased(conn))
      case _ => false
    }
  }

  /** The replies an admitted client gets before its request is answered. */
  function Greetings(m: byte): seq<byte> {
    if m == Hello.NO_AUTHENTICATION then HelloReply(m) else HelloReply(m) + AuthReply(0x00)
  }

  /** The access-log lines of one session. */
  datatype LogLine = OpenLine | CloseLine(c2o: nat, o2c: nat) | FailLine(reason: Option<string>)

  /** The log flags, the lines written so far, and whether the record is back in the pool. */
  datatype Books = Books(tunnelOpened: bool, emitted: bool, lines: seq<LogLine>, released: bool)

  const BLANK := Books(false, false, [], false)

  /** What the session has added to the global metrics. */
  datatype Counts = Counts(authFail: nat, originOk: nat, originFail: nat, c2o: nat, o2c: nat)

  const NONE := Counts(0, 0, 0, 0, 0)

  /** The counts once the request has its reply: an attempted connection counts once. */
  function Answered(reply: byte, attempted: bool): Counts {
    if reply == 0x00 then NONE.(originOk := 1) else if attempted then NONE.(originFail := 1) else NONE
  }

  /** Before the tunnel: received bytes are the consumed messages and the unread rest,
      produced replies are the sent ones and the unsent rest. */
  ghost predicate Balanced(said: Heard, negIn: seq<byte>, rb: Buf, negOut: seq<byte>, wb: Buf, replies: seq<byte>) {
    && rb.Valid(LIMIT) && wb.Valid(LIMIT)
    && negIn == said.hello + said.auth + said.request + rb.bytes
    && negOut + wb.bytes == replies
  }

  /** In the tunnel: what was left unread is what the first direction carries, the
      second starts with nothing, and neither loses anything. */
  ghost predicate Piped(said: Heard, negIn: seq<byte>, client: Relay.Copy, rb: Buf, origin: Relay.Copy, wb: Buf) {
    && negIn == said.hello + said.auth + said.request + client.carried && origin.carried == []
    && client.Conserved(rb) && origin.Conserved(wb)
  }

  /** The request is recorded in the parser and in the session. */
  ghost predicate Recorded(said: Heard, req: Request.RequestState, destination: Option<(seq<byte>, nat)>) {
    && said.Requested()
    && req == Request.RequestState(Request.Done, 0, 0, Request.CMD_CONNECT, said.target.atyp, said.target.addr, said.target.port)
    && destination == Some((HostOf(said.target), said.target.port))
  }

  /** The access log of an open tunnel. */
  function OpenBooks(logging: bool): Books {
    Books(logging, false, if logging then [OpenLine] else [], false)
  }

  /** socks5_set_failure: the first reason stays. */
  function FirstReason(failure: Option<string>, reason: string): (r: Option<string>)
    ensures r.Some? && (failure.Some? ==> r == failure)
  {
    if failure.None? then Some(reason) else failure
  }

  datatype Got = GotBytes | GotNothing | GotError
  datatype Flush = Flushed | Partial | SendError

  /** struct state_machine: current is NULL until the first event. */
  class StateMachine {
    var current: Option<State>

    constructor ()
      ensures current == None
    {
      current := None;
    }

    /** stm_state. */
    function State(): State
      reads this
    {
      if current.None? then HelloRead else current.value
    }
  }

  class Session {
    const stm: StateMachine
    const logging: bool

    var reg: Registration
    var readBuffer: Buf
    var writeBuffer: Buf
    var hello: Hello.HelloState
    var auth: Auth.AuthState
    var req: Request.RequestState
    var method_: byte
    var status: byte
    var reply: byte
    var conn: Conn
    var client: Relay.Copy
    var origin: Relay.Copy
    var destination: Option<(seq<byte>, nat)>
    var failure: Option<string>
    var books: Books
    var counts: Counts

    ghost var said: Heard
    /** Before the tunnel: bytes received, replies produced, and the part of them sent. */
    ghost var NegIn: seq<byte>
    ghost var Replies: seq<byte>
    ghost var NegOut: seq<byte>
    ghost var Tunnel: bool

    // ----- the byte streams of the connection

    ghost function ClientIn(): seq<byte>
      reads this
    {
      if Tunnel then NegIn + client.received else NegIn
    }

    ghost function ToOrigin(): seq<byte>
      reads this
    {
      if Tunnel then client.delivered else []
    }

    ghost function FromOrigin(): seq<byte>
      reads this
    {
      if Tunnel then origin.received else []
    }

    ghost function ClientOut(): seq<byte>
      reads this
    {
      if Tunnel then NegOut + origin.delivered else NegOut
    }

    // ----- invariants

    ghost predicate Plain()
      reads this
    {
      !Tunnel && books == BLANK && Balanced(said, NegIn, readBuffer, NegOut, writeBuffer, Replies)
    }

    /** Before a destination is known. */
    ghost predicate Negotiating()
      reads this
    {
      Plain() && conn == IDLE && destination == None
    }

    /** The method reply is out. */
    ghost predicate HelloAnswered()
      reads this
    {
      && counts == NONE && Replies == HelloReply(method_)
      && said.auth == [] && said.request == [] && said.Greeted(method_) && said.users == None
    }

    /** The authentication reply is out; a refusal is counted. */
    ghost predicate AuthAnswered()
      reads this
    {
      && counts == (if status == 0x00 then NONE else NONE.(authFail := 1))
      && Replies == HelloReply(method_) + AuthReply(status) && said.request == []
      && method_ == Hello.USERNAME_PASSWORD && said.Greeted(method_) && said.Judged(status)
    }

    /** The request has its reply, the one it deserves; a connection attempt is counted
        once, and 0x00 is given only for a destination that was reached. */
    ghost predicate RequestAnswered()
      reads this
    {
      && counts == Answered(reply, conn.Attempted()) && Replies == Greetings(method_) + RequestReply(reply)
      && said.Admitted(method_, status) && said.Deserves(reply, conn) && conn.Valid()
      && (reply == 0x00 <==> conn.fate.Reached?) && (reply == 0x00 ==> Recorded(said, req, destination))
    }

    ghost predicate InHelloRead()
      reads this
    {
      && Negotiating() && reg.Holds(OP_READ, None, 0) && counts == NONE && req == Request.INITIAL
      && Replies == [] && writeBuffer == EMPTY && said.auth == [] && said.request == []
      && said.required == None && said.users == None && Hello.Open(hello, said.hello)
    }

    ghost predicate InHelloWrite()
      reads this
    {
      && Negotiating() && reg.Holds(OP_WRITE, None, 0) && req == Request.INITIAL
      && HelloAnswered() && writeBuffer.CanRead()
    }

    ghost predicate ArrivingAuthRead()
      reads this
    {
      && Negotiating() && reg.Holds(OP_READ, None, 0) && req == Request.INITIAL
      && HelloAnswered() && writeBuffer == EMPTY && method_ == Hello.USERNAME_PASSWORD
    }

    ghost predicate InAuthRead()
      reads this
    {
      && Negotiating() && reg.Holds(OP_READ, None, 0) && counts == NONE && req == Request.INITIAL
      && Replies == HelloReply(method_) && writeBuffer == EMPTY && said.request == []
      && said.Greeted(method_) && method_ == Hello.USERNAME_PASSWORD
      && said.users == None && Auth.Open(auth, said.auth)
    }

    ghost predicate InAuthWrite()
      reads this
    {
      && Negotiating() && reg.Holds(OP_WRITE, None, 0) && req == Request.INITIAL
      && AuthAnswered() && writeBuffer.CanRead()
    }

    ghost predicate ArrivingRequestRead()
      reads this
    {
      && Negotiating() && reg.Holds(OP_READ, None, 0) && counts == NONE && req == Request.INITIAL
      && Replies == Greetings(method_) && writeBuffer == EMPTY && said.request == []
      && said.Admitted(method_, status)
    }

    ghost predicate InRequestRead()
      reads this
    {
      && Negotiating() && reg.Holds(OP_READ, None, 0) && counts == NONE
      && Replies == Greetings(method_) && writeBuffer == EMPTY
      && said.Admitted(method_, status) && Request.Open(req, said.request)
    }

    /** A request accepted and not yet answered. */
    ghost predicate Pending()
      reads this
    {
      && Plain() && counts == NONE && Replies == Greetings(method_) && writeBuffer == EMPTY
      && said.Admitted(method_, status) && Recorded(said, req, destination)
    }

    ghost predicate InRequestResolv()
      reads this
    {
      Pending() && reg.Holds(OP_NOOP, None, 1) && conn == IDLE && req.atyp == Request.ATYP_FQDN
    }

    ghost predicate ArrivingConnecting()
      reads this
    {
      && Pending() && reg.Holds(OP_NOOP, None, 0)
      && conn == IDLE.(resolution := conn.resolution, current := conn.resolution)
      && (conn.resolution == [] <==> req.atyp != Request.ATYP_FQDN)
    }

    /** One of two shapes: the origin awaits its connect with the client idle, or the
        attempts are over and the client is armed to be told. */
    ghost predicate InConnecting()
      reads this
    {
      && Pending() && conn.Valid() && said.Chased(conn)
      && (if reg.origin.Some? then conn.fate.Awaiting? && reg.Holds(OP_NOOP, Some(OP_WRITE), 0)
          else conn.Attempted() && conn.Concluded() && !conn.fate.Reached? && reg.Holds(OP_WRITE, None, 0))
    }

    ghost predicate Answering()
      reads this
    {
      && Plain() && RequestAnswered() && writeBuffer.CanRead()
      && (reply != 0x00 && destination.Some? ==> failure.Some?)
    }

    /** The reply is on its way; 0x00 only with an origin at hand. */
    ghost predicate InRequestWrite()
      reads this
    {
      Answering() && reg.Holds(OP_WRITE, if reply == 0x00 then Some(OP_NOOP) else None, 0)
    }

    ghost predicate ArrivingCopying()
      reads this
    {
      && Plain() && reg.Holds(OP_READ, Some(OP_NOOP), 0) && counts == Answered(0x00, true)
      && Replies == Greetings(method_) + RequestReply(0x00) && writeBuffer == EMPTY
      && said.Admitted(method_, status) && Recorded(said, req, destination) && conn.fate.Reached?
    }

    /** What a tunnel has carried, for a client that was admitted and whose request was
        granted. */
    ghost predicate Carried()
      reads this
    {
      && Piped(said, NegIn, client, readBuffer, origin, writeBuffer) && NegOut == Replies
      && counts == Counts(0, 1, 0, client.transferred, origin.transferred)
      && said.Admitted(method_, status) && Recorded(said, req, destination) && conn.fate.Reached?
      && Replies == Greetings(method_) + RequestReply(0x00)
    }

    ghost predicate Established()
      reads this
    {
      Tunnel && books == OpenBooks(logging) && Carried()
    }

    /** Both directions settled and not both finished, and armed exactly as their
        buffers ask. */
    ghost predicate Flowing()
      reads this
    {
      && client.Settled(readBuffer) && origin.Settled(writeBuffer) && !(client.writeClosed && origin.writeClosed)
      && client.readFd == origin.writeFd == reg.clientFd && client.writeFd == origin.readFd == reg.originFd
      && reg.Holds(Interest(client.SourceArmed(readBuffer), origin.SinkArmed(writeBuffer)),
                   Some(Interest(origin.SourceArmed(writeBuffer), client.SinkArmed(readBuffer))), 0)
    }

    /** Both directions settled and finished. */
    ghost predicate Drained()
      reads this
    {
      client.Settled(readBuffer) && origin.Settled(writeBuffer) && client.writeClosed && origin.writeClosed
    }

    ghost predicate InCopying()
      reads this
    {
      Established() && Flowing()
    }

    /** The accounts are in order, whatever went wrong: no byte is lost, an attempt to
        connect was counted once, and only for an admitted client. */
    ghost predicate Orderly()
      reads this
    {
      if Tunnel then Carried()
      else
        && Balanced(said, NegIn, readBuffer, NegOut, writeBuffer, Replies)
        && counts.c2o == counts.o2c == 0
        && counts.originOk == (if conn.fate.Reached? then 1 else 0)
        && counts.originFail == (if conn.Attempted() && !conn.fate.Reached? then 1 else 0)
        && (conn.Attempted() ==> said.Admitted(method_, status))
    }

    ghost predicate InError()
      reads this
    {
      reg.Closable() && books == (if Tunnel then OpenBooks(logging) else BLANK) && Orderly()
    }

    /** A refusal was sent whole, of the methods, the credentials or the request. */
    ghost predicate Refused()
      reads this
    {
      && writeBuffer == EMPTY
      && ((method_ == Hello.NO_ACCEPTABLE_METHODS && HelloAnswered())
          || (status != 0x00 && AuthAnswered())
          || (reply != 0x00 && RequestAnswered()))
    }

    /** A tunnel is done only when both directions were closed in order; anything else
        that is done has had its refusal sent, and can say why. */
    ghost predicate InDone()
      reads this
    {
      InError() && if Tunnel then Drained() else Refused() && (destination.Some? ==> failure.Some?)
    }

    ghost predicate InState(s: State)
      reads this
    {
      match s
      case HelloRead => InHelloRead()
      case HelloWrite => InHelloWrite()
      case AuthRead => InAuthRead()
      case AuthWrite => InAuthWrite()
      case RequestRead => InRequestRead()
      case RequestResolv => InRequestResolv()
      case Connecting => InConnecting()
      case RequestWrite => InRequestWrite()
      case Copying => InCopying()
      case Done => InDone()
      case Error => InError()
    }

    /** InState of the current state. The quantifier, here and in Landing, keeps the
        solver from taking every state apart wherever the predicate is passed on; At
        takes it off. */
    ghost predicate Here()
      reads this, stm
    {
      && (forall s :: s == stm.State() ==> InState(s))
      && (stm.current.None? ==> hello == Hello.INITIAL && said.hello == [])
    }

    lemma At(s: State)
      requires Here() && s == stm.State()
      ensures InState(s)
    {
    }

    /** What a handler leaves behind when it asks for a jump to next. */
    ghost predicate Landing(next: State)
      reads this, stm
    {
      forall s :: s == next ==> if s == stm.State() then InState(s) else Arriving(s)
    }

    ghost predicate Arriving(s: State)
      reads this
    {
      match s
      case AuthRead => ArrivingAuthRead()
      case RequestRead => ArrivingRequestRead()
      case Connecting => ArrivingConnecting()
      case Copying => ArrivingCopying()
      case _ => InState(s)
    }

    /** Holds between events. */
    ghost predicate Inv()
      reads this, stm
    {
      Here() && stm.State() != Done && stm.State() != Error
    }

    /** The end of a session: out of the selector, back in the pool, logged once. */
    ghost predicate Finished()
      reads this, stm
    {
      && books.released && reg.client == None && reg.origin == None
      && books.lines == (if !logging || destination == None then []
                         else if Tunnel then [OpenLine, CloseLine(|ToOrigin()|, |origin.delivered|)]
                         else [FailLine(failure)])
      && (destination.Some? && !Tunnel ==> failure.Some?)
      && Orderly() && (stm.State() == Done ==> if Tunnel then Drained() else Refused())
    }

    /** selector_select may report fd readable (writable) to this session. */
    predicate ReadArmed(fd: int)
      reads this
    {
      (fd == reg.clientFd && reg.client.Some? && reg.client.value.read)
      || (fd == reg.originFd && reg.origin.Some? && reg.origin.value.read)
    }

    predicate WriteArmed(fd: int)
      reads this
    {
      (fd == reg.clientFd && reg.client.Some? && reg.client.value.write)
      || (fd == reg.originFd && reg.origin.Some? && reg.origin.value.write)
    }

    /** No byte of either connection is taken back: only the negotiation moves before
        the tunnel, and only the tunnel in it. StreamsGrow says what that comes to. */
    twostate predicate Moved()
      reads this
    {
      && old(NegIn) <= NegIn && old(NegOut) <= NegOut && (old(Tunnel) ==> Tunnel && TunnelMoved())
      && old(books.lines) <= books.lines && old(conn.tried) <= conn.tried
      && reg.clientFd == old(reg.clientFd)
    }

    twostate predicate TunnelMoved()
      reads this
    {
      && NegIn == old(NegIn) && NegOut == old(NegOut)
      && old(client.received) <= client.received && old(client.delivered) <= client.delivered
      && old(origin.received) <= origin.received && old(origin.delivered) <= origin.delivered
    }

    twostate lemma StreamsGrow()
      requires Moved()
      ensures old(ClientIn()) <= ClientIn() && old(ToOrigin()) <= ToOrigin()
      ensures old(FromOrigin()) <= FromOrigin() && old(ClientOut()) <= ClientOut()
      ensures old(Tunnel) ==> Tunnel && old(origin.delivered) <= origin.delivered
    {
    }

    /** Arrival hooks move no bytes, and forget no address. */
    twostate predicate SameStreams()
      reads this
    {
      && NegIn == old(NegIn) && NegOut == old(NegOut) && (old(Tunnel) ==> Tunnel && client == old(client) && origin == old(origin))
      && conn.resolution == old(conn.resolution)
      && old(books.lines) <= books.lines && old(conn.tried) <= conn.tried
      && reg.clientFd == old(reg.clientFd)
    }

    /** And the state number never decreases. */
    twostate predicate Grown()
      reads this, stm
    {
      Moved() && Rank(old(stm.State())) <= Rank(stm.State())
    }

    /** socks5_new, and the registration of its client. */
    constructor (fd: int, logging: bool)
      requires ValidFd(fd)
      ensures Inv() && stm.current == None && fresh(stm) && reg.clientFd == fd && this.logging == logging
      ensures ClientIn() == ToOrigin() == FromOrigin() == ClientOut() == []
    {
      this.logging := logging;
      stm := new StateMachine();
      reg := Registration(fd, -1, Some(OP_READ), None, 1);
      readBuffer, writeBuffer := EMPTY, EMPTY;
      hello, auth, req := Hello.INITIAL, Auth.INITIAL, Request.INITIAL;
      method_, status, reply := 0, 0, 0;
      conn, destination, failure := IDLE, None, None;
      client, origin := Relay.Opened(-1, -1, EMPTY), Relay.Opened(-1, -1, EMPTY);
      books, counts := BLANK, NONE;
      said := Heard([], [], [], [], [], [], Request.Destination(0, [], 0), None, None);
      NegIn, Replies, NegOut, Tunnel := [], [], [], false;
    }

    // ----- small steps shared by the handlers

    /** The receive shared by hello_read, auth_read and request_read: only an empty
        buffer is refilled, so recv is always given room. */
    method FillReadBuffer() returns (r: Got, ghost outcome: Option<Kernel.Received<byte>>)
      requires readBuffer.Valid(LIMIT)
      modifies this`readBuffer, this`NegIn
      ensures outcome.None? <==> old(readBuffer.CanRead())
      ensures var got := if outcome.Some? && outcome.value.Data? then outcome.value.bytes else [];
              NegIn == old(NegIn) + got && readBuffer == old(readBuffer).Fill(got) && readBuffer.Valid(LIMIT)
      ensures r.GotBytes? <==> readBuffer.CanRead()
      ensures r.GotNothing? <==> outcome == Some(Kernel.RecvAgain)
    {
      outcome := None;
      if readBuffer.CanRead() {
        return GotBytes, outcome;
      }
      var received: Kernel.Received<byte> := Kernel.Recv(LIMIT - readBuffer.gap - |readBuffer.bytes|);
      outcome := Some(received);
      match received {
        case RecvAgain => r := GotNothing;
        case RecvFailed => r := GotError;
        case Eof => r := GotError;
        case Data(bytes) =>
          readBuffer, NegIn, r := readBuffer.Fill(bytes), NegIn + bytes, GotBytes;
      }
    }

    /** Whether hello_marshall, auth_marshall and request_marshall find room for n bytes. */
    predicate HasRoom(n: nat)
      reads this
    {
      n <= LIMIT - writeBuffer.gap - |writeBuffer.bytes|
    }

    // ----- HELLO

    method HelloProcess(fd: int, users: Users) returns (next: State)
      requires fd == reg.clientFd && Negotiating() && reg.Holds(OP_READ, None, 0) && counts == NONE && req == Request.INITIAL
      requires writeBuffer == EMPTY && Replies == [] && said.auth == [] && said.request == [] && said.users == None
      requires Hello.ReadMessage(said.hello) == Hello.Greeting(|said.hello|, said.offered)
      requires hello.noAuth == (Hello.NO_AUTHENTICATION in said.offered)
      requires hello.userPass == (Hello.USERNAME_PASSWORD in said.offered)
      modifies this`method_, this`said, this`Replies, this`writeBuffer, this`reg
      ensures next == HelloWrite && InHelloWrite() && said == old(said).(required := Some(AuthRequired(users)))
      ensures reg.clientFd == old(reg.clientFd)
    {
      if !reg.Knows(fd) {
        assert false;
      }
      var required := users.Some? && users.value != map[];
      method_ :=
        if required && hello.userPass then Hello.USERNAME_PASSWORD
        else if !required && hello.noAuth then Hello.NO_AUTHENTICATION
        else Hello.NO_ACCEPTABLE_METHODS;
      if !HasRoom(2) {
        assert false;
      }
      var answer := HelloReply(method_);
      Appended(NegOut, writeBuffer.bytes, answer);
      writeBuffer, Replies := writeBuffer.Fill(answer), Replies + answer;
      reg, said := reg.Armed(fd, OP_WRITE), said.(required := Some(required));
      return HelloWrite;
    }

    /** hello_consume on the read buffer. */
    method ConsumeHello()
      requires Hello.Open(hello, said.hello) && readBuffer.Valid(LIMIT)
      modifies this`hello, this`readBuffer, this`said
      ensures readBuffer.Valid(LIMIT) && said.hello + readBuffer.bytes == old(said.hello + readBuffer.bytes)
      ensures said == old(said).(hello := said.hello, offered := said.offered)
      ensures hello.phase.Done? ==>
                && Hello.ReadMessage(said.hello) == Hello.Greeting(|said.hello|, said.offered)
                && hello.noAuth == (Hello.NO_AUTHENTICATION in said.offered)
                && hello.userPass == (Hello.USERNAME_PASSWORD in said.offered)
      ensures !Hello.Final(hello) ==> Hello.Open(hello, said.hello) && readBuffer == EMPTY
    {
      ghost var unread, msg := readBuffer.bytes, said.hello;
      var fed := Hello.Parse(hello, readBuffer.bytes);
      Extend(Hello.Step, Hello.Final, Hello.INITIAL, msg, hello, unread);
      hello, readBuffer := fed.state, readBuffer.Advance(fed.used);
      assert msg + unread[..fed.used] + unread[fed.used..] == msg + unread;
      msg := msg + unread[..fed.used];
      Hello.ParseIsReadMessage(msg);
      said := said.(hello := msg, offered := if hello.phase.Done? then Hello.ReadMessage(msg).methods else said.offered);
    }

    /** hello_read once there is something to parse. */
    method ParseHello(fd: int, users: Users) returns (next: State)
      requires stm.State() == HelloRead && fd == reg.clientFd && InHelloRead()
      modifies this`said, this`method_, this`Replies, this`readBuffer, this`writeBuffer, this`hello, this`reg
      ensures reg.clientFd == old(reg.clientFd)
      ensures match next case Error => InError() case HelloRead => InHelloRead() case HelloWrite => InHelloWrite() case _ => false
      ensures next == HelloRead ==> readBuffer == EMPTY
      ensures said.Since(old(said), users)
      ensures next == if hello.phase.Error? then Error else if hello.phase.Done? then HelloWrite else HelloRead
    {
      assert NegIn == said.hello + readBuffer.bytes;
      ConsumeHello();
      if hello.phase.Error? {
        next := Error;
      } else if hello.phase.Done? {
        next := HelloProcess(fd, users);
      } else {
        next := HelloRead;
      }
    }

    method ReadHello(fd: int, users: Users) returns (next: State, ghost got: Got)
      requires stm.State() == HelloRead && fd == reg.clientFd && InHelloRead()
      modifies this`NegIn, this`said, this`method_, this`Replies, this`readBuffer, this`writeBuffer, this`hello, this`reg
      ensures Moved()
      ensures match next case Error => InError() case HelloRead => InHelloRead() case HelloWrite => InHelloWrite() case _ => false
      ensures next == HelloRead ==> readBuffer == EMPTY
      ensures said.Since(old(said), users)
      ensures next == if got == GotError || (got == GotBytes && hello.phase.Error?) then Error
                      else if got == GotBytes && hello.phase.Done? then HelloWrite else HelloRead
    {
      assert !Tunnel && conn == IDLE;
      var r, outcome := FillReadBuffer();
      got := r;
      match r {
        case GotBytes => next := ParseHello(fd, users);
        case GotNothing => next := HelloRead;
        case GotError => next := Error;
      }
    }

    /** The send shared by hello_write, auth_write and request_write. */
    method FlushReply() returns (r: Flush, ghost sent: Kernel.Sent)
      requires writeBuffer.Valid(LIMIT) && writeBuffer.CanRead()
      modifies this`writeBuffer, this`NegOut
      ensures writeBuffer.Valid(LIMIT) && NegOut + writeBuffer.bytes == old(NegOut) + old(writeBuffer).bytes
      ensures old(NegOut) <= NegOut
      ensures r.Flushed? <==> writeBuffer == EMPTY
      ensures r.SendError? <==> sent.SendFailed?
      ensures |writeBuffer.bytes| == |old(writeBuffer).bytes| - if sent.Accepted? then sent.n else 0
    {
      var accepted := Kernel.Send(writeBuffer.bytes);
      sent := accepted;
      match accepted {
        case SendAgain => r := Partial;
        case SendFailed => r := SendError;
        case Accepted(n) =>
          ghost var unsent := writeBuffer.bytes;
          assert NegOut + unsent[..n] + unsent[n..] == NegOut + unsent by {
            assert unsent == unsent[..n] + unsent[n..];
          }
          NegOut := NegOut + unsent[..n];
          writeBuffer := writeBuffer.Advance(n);
          r := if writeBuffer.CanRead() then Partial else Flushed;
      }
    }

    method WriteHello(fd: int) returns (next: State, ghost sent: Flush)
      requires stm.State() == HelloWrite && fd == reg.clientFd && InHelloWrite()
      modifies this`writeBuffer, this`NegOut, this`reg
      ensures Moved()
      ensures Landing(next) && Follows(HelloWrite, next)
      ensures next == match sent
                      case SendError => Error
                      case Partial => HelloWrite
                      case Flushed => if method_ == Hello.NO_ACCEPTABLE_METHODS then Done
                                      else if method_ == Hello.USERNAME_PASSWORD then AuthRead else RequestRead
    {
      var r, accepted := FlushReply();
      sent := r;
      if r != Flushed {
        next := if r == Partial then HelloWrite else Error;
      } else if method_ == Hello.NO_ACCEPTABLE_METHODS {
        next := Done;
      } else {
        if !reg.Knows(fd) {
          assert false;
        }
        reg := reg.Armed(fd, OP_READ);
        next := if method_ == Hello.USERNAME_PASSWORD then AuthRead else RequestRead;
      }
    }

    // ----- AUTH

    method AuthReadInit()
      requires ArrivingAuthRead()
      modifies this`auth, this`status
      ensures InAuthRead()
    {
      auth, status := Auth.INITIAL, 0x01;
    }

    /** users_check; a refusal is counted. */
    method Judge(users: Users)
      requires Auth.ReadMessage(said.auth) == Auth.Credentials(|said.auth|, said.name, said.password)
      requires auth.uname == said.name && auth.passwd == said.password
      modifies this`status, this`counts, this`said
      ensures said == old(said).(users := Some(users)) && said.Judged(status)
      ensures counts == if status == 0x00 then old(counts) else old(counts).(authFail := old(counts).authFail + 1)
    {
      said := said.(users := Some(users));
      status := 0x01;
      if Accepts(users, auth.uname, auth.passwd) {
        status := 0x00;
      } else {
        counts := counts.(authFail := counts.authFail + 1);
      }
    }

    method AuthProcess(fd: int, users: Users) returns (next: State)
      requires fd == reg.clientFd && Negotiating() && reg.Holds(OP_READ, None, 0) && counts == NONE && req == Request.INITIAL
      requires Replies == HelloReply(method_) && writeBuffer == EMPTY && said.request == []
      requires said.Greeted(method_) && method_ == Hello.USERNAME_PASSWORD
      requires Auth.ReadMessage(said.auth) == Auth.Credentials(|said.auth|, said.name, said.password)
      requires auth.uname == said.name && auth.passwd == said.password
      modifies this`status, this`counts, this`said, this`Replies, this`writeBuffer, this`reg
      ensures next == AuthWrite && InAuthWrite() && said == old(said).(users := Some(users))
      ensures reg.clientFd == old(reg.clientFd)
    {
      if !reg.Knows(fd) {
        assert false;
      }
      Judge(users);
      if !HasRoom(2) {
        assert false;
      }
      var answer := AuthReply(status);
      Appended(NegOut, writeBuffer.bytes, answer);
      writeBuffer, Replies, reg := writeBuffer.Fill(answer), Replies + answer, reg.Armed(fd, OP_WRITE);
      return AuthWrite;
    }

    /** auth_consume on the read buffer. */
    method ConsumeAuth()
      requires Auth.Open(auth, said.auth) && readBuffer.Valid(LIMIT)
      modifies this`auth, this`readBuffer, this`said
      ensures readBuffer.Valid(LIMIT) && said.auth + readBuffer.bytes == old(said.auth + readBuffer.bytes)
      ensures said == old(said).(auth := said.auth, name := said.name, password := said.password)
      ensures auth.phase.Done? ==>
                && Auth.ReadMessage(said.auth) == Auth.Credentials(|said.auth|, said.name, said.password)
                && auth.uname == said.name && auth.passwd == said.password
      ensures !Auth.Final(auth) ==> Auth.Open(auth, said.auth) && readBuffer == EMPTY
    {
      ghost var unread, msg := readBuffer.bytes, said.auth;
      var fed := Auth.Parse(auth, readBuffer.bytes);
      Extend(Auth.Step, Auth.Final, Auth.INITIAL, msg, auth, unread);
      auth, readBuffer := fed.state, readBuffer.Advance(fed.used);
      assert msg + unread[..fed.used] + unread[fed.used..] == msg + unread;
      msg := msg + unread[..fed.used];
      Auth.ParseIsReadMessage(msg);
      said := said.(auth := msg, name := auth.uname, password := auth.passwd);
    }

    method ParseAuth(fd: int, users: Users) returns (next: State)
      requires stm.State() == AuthRead && fd == reg.clientFd && InAuthRead()
      modifies this`said, this`status, this`counts, this`Replies, this`readBuffer, this`writeBuffer, this`auth, this`reg
      ensures reg.clientFd == old(reg.clientFd)
      ensures match next case Error => InError() case AuthRead => InAuthRead() case AuthWrite => InAuthWrite() case _ => false
      ensures next == AuthRead ==> readBuffer == EMPTY
      ensures said.Since(old(said), users)
      ensures next == if auth.phase.Error? then Error else if auth.phase.Done? then AuthWrite else AuthRead
    {
      assert NegIn == said.hello + (said.auth + readBuffer.bytes);
      ConsumeAuth();
      assert NegIn == said.hello + (said.auth + readBuffer.bytes);
      if auth.phase.Error? {
        next := Error;
      } else if auth.phase.Done? {
        next := AuthProcess(fd, users);
      } else {
        next := AuthRead;
      }
    }

    method ReadAuth(fd: int, users: Users) returns (next: State, ghost got: Got)
      requires stm.State() == AuthRead && fd == reg.clientFd && InAuthRead()
      modifies this`NegIn, this`said, this`status, this`counts, this`Replies, this`readBuffer, this`writeBuffer, this`auth, this`reg
      ensures Moved()
      ensures match next case Error => InError() case AuthRead => InAuthRead() case AuthWrite => InAuthWrite() case _ => false
      ensures next == AuthRead ==> readBuffer == EMPTY
      ensures said.Since(old(said), users)
      ensures next == if got == GotError || (got == GotBytes && auth.phase.Error?) then Error
                      else if got == GotBytes && auth.phase.Done? then AuthWrite else AuthRead
    {
      assert !Tunnel && conn == IDLE;
      var r, outcome := FillReadBuffer();
      got := r;
      match r {
        case GotBytes => next := ParseAuth(fd, users);
        case GotNothing => next := AuthRead;
        case GotError => next := Error;
      }
    }

    method WriteAuth(fd: int) returns (next: State, ghost sent: Flush)
      requires stm.State() == AuthWrite && fd == reg.clientFd && InAuthWrite()
      modifies this`writeBuffer, this`NegOut, this`reg
      ensures Moved()
      ensures match next
              case Error => InError()
              case AuthWrite => InAuthWrite()
              case Done => InDone()
              case RequestRead => ArrivingRequestRead()
              case _ => false
      ensures next == match sent
                      case SendError => Error
                      case Partial => AuthWrite
                      case Flushed => if status == 0x00 then RequestRead else Done
    {
      var r, accepted := FlushReply();
      sent := r;
      if r != Flushed {
        next := if r == Partial then AuthWrite else Error;
      } else {
        if !reg.Knows(fd) {
          assert false;
        }
        reg := reg.Armed(fd, OP_READ);
        next := if status == 0x00 then RequestRead else Done;
      }
    }

    // ----- REQUEST

    method RequestReadInit()
      requires ArrivingRequestRead()
      modifies this`req, this`reply
      ensures InRequestRead()
    {
      reply := Kernel.GENERAL_FAILURE;
      req := req.(phase := Request.Version, remaining := 0, read := 0, addr := []);
    }

    /** The error reply shared by request_process and request_resolv_done. */
    method Refuse(fd: int, code: byte) returns (next: State)
      requires fd == reg.clientFd && reg.client.Some? && reg.Holds(reg.client.value, None, 0)
      requires Plain() && counts == NONE && conn.Valid() && !conn.Attempted() && code != 0x00
      requires Replies == Greetings(method_) && writeBuffer == EMPTY && said.Admitted(method_, status)
      requires said.Deserves(code, conn) && (destination.Some? ==> failure.Some?)
      modifies this`reply, this`Replies, this`writeBuffer, this`reg
      ensures reg == old(reg).(client := Some(OP_WRITE)) && reply == code && next == RequestWrite && InRequestWrite()
    {
      if !HasRoom(10) || !reg.Knows(fd) {
        assert false;
      }
      var answer := RequestReply(code);
      Appended(NegOut, writeBuffer.bytes, answer);
      reply, writeBuffer, Replies := code, writeBuffer.Fill(answer), Replies + answer;
      reg := reg.Armed(fd, OP_WRITE);
      next := RequestWrite;
    }

    /** The request is answered before there is an address to try. */
    method NoAttempt(fd: int, fate: Fate, reason: string) returns (next: State)
      requires fate.NotSubmitted? || fate.NoAddress?
      requires fd == reg.clientFd && Pending() && reg.Holds(OP_NOOP, None, 0)
      requires conn == IDLE.(resolution := conn.resolution)
      modifies this`conn, this`failure, this`reply, this`Replies, this`writeBuffer, this`reg
      ensures next == RequestWrite && InRequestWrite()
      ensures conn == old(conn).(fate := fate) && reply == conn.Verdict() && reg == old(reg).(client := Some(OP_WRITE))
    {
      failure, conn := FirstReason(failure, reason), conn.(fate := fate);
      next := Refuse(fd, if fate.NotSubmitted? then Kernel.GENERAL_FAILURE else Kernel.HOST_UNREACHABLE);
    }

    /** dns_worker_submit and what follows it. Whether the worker takes the job is not
        this session's to decide. */
    method SubmitJob(fd: int) returns (next: State)
      requires stm.State() == RequestRead && fd == reg.clientFd && Pending() && reg.Holds(OP_NOOP, None, 0)
      requires conn == IDLE && req.atyp == Request.ATYP_FQDN
      modifies this`failure, this`reply, this`Replies, this`writeBuffer, this`reg, this`conn
      ensures match next case RequestResolv => InRequestResolv() case RequestWrite => InRequestWrite() case _ => false
      ensures reg.clientFd == old(reg.clientFd) && conn.tried == []
      ensures next == RequestWrite ==> conn.fate.NotSubmitted? && reply == Kernel.GENERAL_FAILURE
    {
      var submitted: bool := *;
      if !submitted {
        next := NoAttempt(fd, NotSubmitted, "dns submit failed");
      } else {
        reg := reg.(references := reg.references + 1);
        next := RequestResolv;
      }
    }

    /** request_process on a complete request. */
    method AcceptRequest(fd: int) returns (next: State)
      requires stm.State() == RequestRead && fd == reg.clientFd && Negotiating() && reg.Holds(OP_READ, None, 0) && counts == NONE
      requires Replies == Greetings(method_) && writeBuffer == EMPTY && said.Admitted(method_, status)
      requires said.Requested() && req == Request.RequestState(Request.Done, 0, 0, Request.CMD_CONNECT,
                                                              said.target.atyp, said.target.addr, said.target.port)
      modifies this`destination, this`failure, this`reply, this`Replies, this`writeBuffer, this`reg, this`conn
      ensures reg.clientFd == old(reg.clientFd) && conn.tried == []
      ensures Landing(next)
      ensures next == Connecting <==> req.atyp != Request.ATYP_FQDN
      ensures next == RequestResolv || next == Connecting || next == RequestWrite
      ensures next == RequestWrite ==> conn.fate.NotSubmitted? && reply == Kernel.GENERAL_FAILURE
    {
      if !reg.Knows(fd) {
        assert false;
      }
      destination := Some((HostOf(Request.Destination(req.atyp, req.addr, req.port)), req.port));
      reg := reg.Armed(fd, OP_NOOP);
      if req.atyp == Request.ATYP_FQDN {
        next := SubmitJob(fd);
      } else {
        next := Connecting;
      }
    }

    /** request_consume on the read buffer. */
    method ConsumeRequest()
      requires Request.Open(req, said.request) && readBuffer.Valid(LIMIT)
      modifies this`req, this`readBuffer, this`said
      ensures readBuffer.Valid(LIMIT) && said.request + readBuffer.bytes == old(said.request + readBuffer.bytes)
      ensures said == old(said).(request := said.request, target := said.target)
      ensures req.phase.Done? ==>
                && said.Requested()
                && req == Request.RequestState(Request.Done, 0, 0, Request.CMD_CONNECT, said.target.atyp, said.target.addr, said.target.port)
      ensures req.phase.BadCmd? ==> said.Deserves(0x07, IDLE)
      ensures req.phase.BadAtyp? ==> said.Deserves(0x08, IDLE)
      ensures !Request.Final(req) ==> Request.Open(req, said.request) && readBuffer == EMPTY
    {
      ghost var unread, msg := readBuffer.bytes, said.request;
      var fed := Request.Parse(req, readBuffer.bytes);
      Extend(Request.Step, Request.Final, Request.INITIAL, msg, req, unread);
      req, readBuffer := fed.state, readBuffer.Advance(fed.used);
      assert msg + unread[..fed.used] + unread[fed.used..] == msg + unread;
      msg := msg + unread[..fed.used];
      Request.ParseIsReadMessage(msg);
      said := said.(request := msg, target := Request.Destination(req.atyp, req.addr, req.port));
    }

    /** request_process on an unsupported request. */
    method RefuseRequest(fd: int, code: byte, reason: string) returns (next: State)
      requires stm.State() == RequestRead && fd == reg.clientFd && Negotiating() && reg.Holds(OP_READ, None, 0) && counts == NONE
      requires Replies == Greetings(method_) && writeBuffer == EMPTY && said.Admitted(method_, status)
      requires code != 0x00 && said.Deserves(code, IDLE)
      modifies this`failure, this`reply, this`Replies, this`writeBuffer, this`reg
      ensures next == RequestWrite && Landing(next) && reply == code && reg.clientFd == old(reg.clientFd)
    {
      failure := FirstReason(failure, reason);
      next := Refuse(fd, code);
    }

    /** request_read after request_consume. */
    method JudgeRequest(fd: int) returns (next: State)
      requires stm.State() == RequestRead && fd == reg.clientFd && Negotiating() && reg.Holds(OP_READ, None, 0) && counts == NONE
      requires Replies == Greetings(method_) && writeBuffer == EMPTY && said.Admitted(method_, status)
      requires req.phase.Done? ==>
                && said.Requested()
                && req == Request.RequestState(Request.Done, 0, 0, Request.CMD_CONNECT, said.target.atyp, said.target.addr, said.target.port)
      requires (req.phase.BadCmd? ==> said.Deserves(0x07, IDLE)) && (req.phase.BadAtyp? ==> said.Deserves(0x08, IDLE))
      requires !Request.Final(req) ==> Request.Open(req, said.request)
      modifies this`destination, this`failure, this`reply, this`Replies, this`writeBuffer, this`reg, this`conn
      ensures reg.clientFd == old(reg.clientFd) && conn.tried == []
      ensures Landing(next) && Follows(RequestRead, next)
      ensures next == RequestRead <==> !Request.Final(req)
      ensures next == Error <==> req.phase.Error?
    {
      match req.phase {
        case Error =>
          failure := FirstReason(failure, "invalid request");
          next := Error;
        case Done =>
          next := AcceptRequest(fd);
        case BadCmd =>
          next := RefuseRequest(fd, 0x07, "unsupported command");
        case BadAtyp =>
          next := RefuseRequest(fd, 0x08, "unsupported address type");
        case _ =>
          next := RequestRead;
      }
    }

    method ParseRequest(fd: int) returns (next: State)
      requires stm.State() == RequestRead && fd == reg.clientFd && InRequestRead()
      modifies this`said, this`destination, this`failure, this`reply, this`Replies, this`readBuffer, this`writeBuffer, this`req, this`reg, this`conn
      ensures reg.clientFd == old(reg.clientFd) && conn.tried == []
      ensures Landing(next) && Follows(RequestRead, next)
      ensures next == RequestRead ==> readBuffer == EMPTY
      ensures next == RequestRead <==> !Request.Final(req)
      ensures next == Error <==> req.phase.Error?
      ensures said == old(said).(request := said.request, target := said.target)
    {
      ghost var before := said.hello + said.auth;
      assert NegIn == before + (said.request + readBuffer.bytes);
      ConsumeRequest();
      assert NegIn == before + (said.request + readBuffer.bytes);
      next := JudgeRequest(fd);
    }

    method ReadRequest(fd: int) returns (next: State, ghost got: Got)
      requires stm.State() == RequestRead && fd == reg.clientFd && InRequestRead()
      modifies this`NegIn, this`said, this`destination, this`failure, this`reply, this`Replies, this`readBuffer, this`writeBuffer, this`req, this`reg, this`conn
      ensures old(NegIn) <= NegIn && reg.clientFd == old(reg.clientFd) && !old(Tunnel) && old(conn.tried) <= conn.tried
      ensures Landing(next) && Follows(RequestRead, next)
      ensures next == RequestRead ==> readBuffer == EMPTY
      ensures next == Error <==> got == GotError || (got == GotBytes && req.phase.Error?)
      ensures next == RequestRead <==> got == GotNothing || (got == GotBytes && !Request.Final(req))
      ensures said == old(said).(request := said.request, target := said.target)
    {
      assert !Tunnel && conn == IDLE;
      var r, outcome := FillReadBuffer();
      got := r;
      if r == GotBytes {
        next := ParseRequest(fd);
      } else {
        next := if r == GotError then Error else RequestRead;
      }
    }

    method ResolvDone(fd: int, resolved: seq<Address>) returns (next: State)
      requires stm.State() == RequestResolv && fd == reg.clientFd && InRequestResolv()
      modifies this`conn, this`failure, this`reply, this`Replies, this`writeBuffer, this`reg
      ensures Moved()
      ensures match next case Connecting => ArrivingConnecting() case RequestWrite => InRequestWrite() case _ => false
      ensures next == if resolved == [] then RequestWrite else Connecting
      ensures next == RequestWrite ==> conn.fate.NoAddress? && reply == Kernel.HOST_UNREACHABLE
      ensures reg.references == old(reg.references) - 1 && conn.resolution == resolved
    {
      reg := reg.(references := reg.references - 1);
      if resolved == [] {
        next := NoAttempt(fd, NoAddress, "dns resolution failed");
      } else {
        conn := conn.(resolution := resolved, current := resolved);
        next := Connecting;
      }
    }

    method WriteRequest(fd: int) returns (next: State, ghost sent: Flush)
      requires stm.State() == RequestWrite && fd == reg.clientFd && InRequestWrite()
      modifies this`writeBuffer, this`NegOut, this`reg
      ensures Moved()
      ensures match next
              case Error => InError()
              case RequestWrite => InRequestWrite()
              case Done => InDone()
              case Copying => ArrivingCopying()
              case _ => false
      ensures next == match sent
                      case SendError => Error
                      case Partial => RequestWrite
                      case Flushed => if reply == 0x00 then Copying else Done
    {
      var r, accepted := FlushReply();
      sent := r;
      if r == Flushed {
        next := ReplySent(fd);
      } else {
        next := if r == Partial then RequestWrite else Error;
      }
    }

    /** request_write once the reply is out. */
    method ReplySent(fd: int) returns (next: State)
      requires stm.State() == RequestWrite && fd == reg.clientFd && reg.Holds(OP_WRITE, if reply == 0x00 then Some(OP_NOOP) else None, 0)
      requires Plain() && RequestAnswered() && writeBuffer == EMPTY && (reply != 0x00 && destination.Some? ==> failure.Some?)
      modifies this`reg
      ensures match next case Done => InDone() case Copying => ArrivingCopying() case _ => false
      ensures next == (if reply == 0x00 then Copying else Done) && reg.clientFd == old(reg.clientFd)
    {
      if reply == 0x00 {
        if !reg.Knows(fd) {
          assert false;
        }
        reg := reg.Armed(fd, OP_READ);
        next := Copying;
      } else {
        next := Done;
      }
    }

    // ----- CONNECTING

    /** connecting_register_origin. A descriptor just opened is in no slot and the table has
        one for each below the limit, so reaching the limit is the only way to be refused:
        see Selector.Register. */
    method RegisterOrigin() returns (ok: bool)
      requires 0 <= reg.originFd != reg.clientFd && reg.origin == None
      modifies this`reg
      ensures ok <==> old(reg).originFd < FD_SETSIZE
      ensures ok ==> reg == old(reg).(origin := Some(OP_WRITE))
      ensures !ok ==> reg == old(reg).(originFd := -1, references := old(reg).references - 1)
    {
      ok := ValidFd(reg.originFd);
      reg := if ok then reg.(origin := Some(OP_WRITE)) else reg.(originFd := -1, references := reg.references - 1);
    }

    /** One attempt: connecting_try_one, and the registration if it has to be awaited. */
    method TryNext(address: Address) returns (t: Try)
      requires reg.Holds(OP_NOOP, None, 0) && conn.Valid() && conn.fate.Between? && address == conn.left[0]
      modifies this`reg, this`conn
      ensures t.Possible() && conn == old(conn).Next(t)
      ensures if t.InProgress? then reg.Holds(OP_NOOP, Some(OP_WRITE), 0) else reg.Holds(OP_NOOP, None, 0)
      ensures reg.clientFd == old(reg.clientFd)
    {
      var fd, code := Kernel.Connect(reg.clientFd);
      conn := conn.(current := if conn.current == [] then [] else conn.current[1..], tried := conn.tried + [address], left := conn.left[1..]);
      if fd == -1 {
        conn := conn.(reply := code, errors := conn.errors + [code], fate := if conn.left == [] then Exhausted else Between);
        return ConnectFailed(code);
      }
      reg := reg.(originFd := fd, references := reg.references + 1);
      var ok := RegisterOrigin();
      if ok {
        conn := conn.(lastFd := fd, fate := Awaiting);
        return InProgress(fd);
      }
      conn := conn.(lastFd := fd, reply := Kernel.GENERAL_FAILURE, fate := Unregistered);
      return NotRegistered(fd);
    }

    /** The attempts are over: wake the client so that it is told. */
    method GiveUp()
      requires reg.Holds(OP_NOOP, None, 0)
      modifies this`reg, this`failure
      ensures reg.Holds(OP_WRITE, None, 0) && reg.clientFd == old(reg.clientFd) && failure.Some?
    {
      failure := FirstReason(failure, "connect failed");
      reg := reg.Armed(reg.clientFd, OP_WRITE);
    }

    /** connecting_try_addrinfo: the addresses left are tried until one is under way or
        there is nothing more to try. */
    method TryCandidates() returns (ghost tries: seq<Try>)
      requires reg.Holds(OP_NOOP, None, 0) && conn.Valid() && conn.fate.Between? && conn.current == conn.left
      modifies this`reg, this`conn, this`failure
      ensures Played(old(conn), tries) && conn == old(conn).Pursue(tries) && !conn.fate.Between?
      ensures conn.Valid() && conn.Pursuing() && conn.tried + conn.left == old(conn.tried + conn.left) && old(conn.tried) <= conn.tried
      ensures conn.resolution == old(conn.resolution)
      ensures if conn.fate.Awaiting? then reg.Holds(OP_NOOP, Some(OP_WRITE), 0) else reg.Holds(OP_WRITE, None, 0) && failure.Some?
      ensures reg.clientFd == old(reg.clientFd)
    {
      tries := [];
      while conn.current != []
        invariant reg.Holds(OP_NOOP, None, 0) && reg.clientFd == old(reg.clientFd)
        invariant Possible(tries) && conn.Valid() && conn == old(conn).Pursue(tries)
        invariant if conn.current == [] then conn.fate.Exhausted? && Played(old(conn), tries)
                  else conn.fate.Between? && conn.current == conn.left
        decreases |conn.current|
      {
        var t := TryNext(conn.current[0]);
        PursueOne(old(conn), tries, t);
        assert (tries + [t])[..|tries|] == tries;
        tries := tries + [t];
        if t.InProgress? {
          return;
        } else if t.NotRegistered? {
          break;
        }
      }
      GiveUp();
    }

    /** The same, as far as the state is concerned. */
    method TryRest()
      requires Pending() && said.Chased(conn) && reg.Holds(OP_NOOP, None, 0)
      requires conn.Valid() && conn.fate.Between? && conn.current == conn.left
      modifies this`reg, this`conn, this`failure
      ensures InConnecting() && reg.clientFd == old(reg.clientFd)
      ensures old(conn.tried) <= conn.tried && conn.resolution == old(conn.resolution)
    {
      ghost var tries := TryCandidates();
    }

    method ConnectingInit()
      requires ArrivingConnecting()
      modifies this`reg, this`conn, this`failure
      ensures InConnecting() && reg.clientFd == old(reg.clientFd)
      ensures old(conn.tried) <= conn.tried && conn.resolution == old(conn.resolution)
    {
      if conn.current != [] {
        conn := conn.(reply := Kernel.GENERAL_FAILURE, left := conn.current, fate := Between);
        assert conn == old(conn).Enter(conn.left);
        TryRest();
      } else {
        var literal := HostOf(Request.Destination(req.atyp, req.addr, req.port));
        conn := conn.(reply := Kernel.GENERAL_FAILURE, left := [literal], fate := Between);
        assert conn == old(conn).Enter([literal]);
        TryLiteral(literal);
      }
    }

    /** The single attempt for an address that needed no resolution. */
    method TryLiteral(literal: Address)
      requires Pending() && said.Chased(conn) && reg.Holds(OP_NOOP, None, 0)
      requires conn.Valid() && conn.fate.Between? && conn.current == [] && conn.left == [literal]
      modifies this`reg, this`conn, this`failure
      ensures InConnecting() && reg.clientFd == old(reg.clientFd)
      ensures old(conn.tried) <= conn.tried && conn.resolution == old(conn.resolution)
    {
      var t := TryNext(literal);
      if !t.InProgress? {
        GiveUp();
      }
    }

    /** selector_unregister_fd of the origin, whose close callback drops its reference. */
    method DropOrigin()
      requires reg.origin.Some? && reg.originFd != -1 && reg.references > 1 && !books.released
      modifies this`reg
      ensures reg == old(reg).(originFd := -1, origin := None, references := old(reg).references - 1)
    {
      reg := reg.(originFd := -1, origin := None, references := reg.references - 1);
    }

    /** The attempts end: they are counted and the reply produced. */
    method Conclude(code: byte)
      requires Pending() && conn.Valid() && said.Chased(conn) && conn.Attempted() && conn.Concluded()
      requires code == conn.Verdict() && (code != 0x00 ==> failure.Some?)
      modifies this`reply, this`counts, this`Replies, this`writeBuffer
      ensures Answering() && reply == code
    {
      if !HasRoom(10) {
        assert false;
      }
      counts := if code == 0x00 then counts.(originOk := counts.originOk + 1) else counts.(originFail := counts.originFail + 1);
      var answer := RequestReply(code);
      Appended(NegOut, writeBuffer.bytes, answer);
      reply, writeBuffer, Replies := code, writeBuffer.Fill(answer), Replies + answer;
    }

    /** SO_ERROR 0 is the only way to success; the last error is the reply. */
    method WriteConnecting(fd: int) returns (next: State, ghost error: Option<byte>)
      requires stm.State() == Connecting && InConnecting()
      requires fd == (if reg.origin == None then reg.clientFd else reg.originFd)
      modifies this`reg, this`conn, this`failure, this`reply, this`counts, this`Replies, this`writeBuffer
      ensures Moved()
      ensures match next case Connecting => InConnecting() case RequestWrite => InRequestWrite() case _ => false
      ensures fd == old(reg).clientFd ==> next == RequestWrite && conn == old(conn) && reply == conn.Verdict()
      ensures fd != old(reg).clientFd && error.None? ==> next == RequestWrite && conn == old(conn).(fate := Reached) && reply == 0x00
      ensures fd != old(reg).clientFd && error.Some? ==> next == if old(conn).left != [] then Connecting else RequestWrite
      ensures fd != old(reg).clientFd && error.Some? && next == RequestWrite ==> conn.fate.Exhausted? && reply == error.value
    {
      error := None;
      if fd == reg.clientFd {
        ConnectGivenUp();
        next := RequestWrite;
      } else {
        next, error := ConnectDecided(fd);
      }
    }

    /** connecting_write on the origin. */
    method ConnectDecided(fd: int) returns (next: State, ghost error: Option<byte>)
      requires stm.State() == Connecting && InConnecting() && reg.origin.Some? && fd == reg.originFd
      modifies this`reg, this`conn, this`failure, this`reply, this`counts, this`Replies, this`writeBuffer
      ensures reg.clientFd == old(reg.clientFd) && old(conn.tried) <= conn.tried
      ensures match next case Connecting => InConnecting() case RequestWrite => InRequestWrite() case _ => false
      ensures error.None? ==> next == RequestWrite && conn == old(conn).(fate := Reached) && reply == 0x00
      ensures error.Some? ==> next == if old(conn).left != [] then Connecting else RequestWrite
      ensures error.Some? && next == RequestWrite ==> conn.fate.Exhausted? && reply == error.value
    {
      var err := Kernel.SocketError();
      error := err;
      if err == None {
        ConnectSucceeded(fd);
        next := RequestWrite;
      } else {
        next := ConnectFails(err.value);
      }
    }

    /** connecting_write on the client, woken because there is no origin to wait for. */
    method ConnectGivenUp()
      requires InConnecting() && reg.origin == None
      modifies this`failure, this`reply, this`counts, this`Replies, this`writeBuffer
      ensures InRequestWrite() && reply == conn.Verdict()
    {
      failure := FirstReason(failure, "connect failed");
      Conclude(conn.reply);
    }

    /** connecting_write, when SO_ERROR read as 0. */
    method ConnectSucceeded(fd: int)
      requires InConnecting() && reg.origin.Some? && fd == reg.originFd
      modifies this`reg, this`conn, this`reply, this`counts, this`Replies, this`writeBuffer
      ensures InRequestWrite() && reply == 0x00 && reg.clientFd == old(reg.clientFd) && conn == old(conn).(fate := Reached)
    {
      if !reg.Knows(reg.clientFd) || !reg.Knows(fd) {
        assert false;
      }
      conn := conn.(fate := Reached);
      Conclude(0x00);
      reg := reg.Armed(reg.clientFd, OP_WRITE).Armed(fd, OP_NOOP);
    }

    /** connecting_write, when SO_ERROR told of a failure. */
    method ConnectFails(code: byte) returns (next: State)
      requires stm.State() == Connecting && InConnecting() && reg.origin.Some? && Kernel.ErrorReply(code)
      modifies this`reg, this`conn, this`failure, this`reply, this`counts, this`Replies, this`writeBuffer
      ensures reg.clientFd == old(reg.clientFd) && old(conn.tried) <= conn.tried
      ensures match next case Connecting => InConnecting() case RequestWrite => InRequestWrite() case _ => false
      ensures next == if old(conn).left != [] then Connecting else RequestWrite
      ensures next == RequestWrite ==> conn.fate.Exhausted? && reply == code
    {
      conn := conn.(reply := code, errors := conn.errors + [code], fate := if conn.left == [] then Exhausted else Between);
      assert conn == old(conn).Failed(code);
      DropOrigin();
      if conn.current != [] {
        TryRest();
        next := Connecting;
      } else {
        AllFailed();
        next := RequestWrite;
      }
    }

    /** The end of connecting_write, with no address left. */
    method AllFailed()
      requires Pending() && said.Chased(conn) && reg.Holds(OP_NOOP, None, 0) && conn.Valid() && conn.fate.Exhausted?
      modifies this`reg, this`failure, this`reply, this`counts, this`Replies, this`writeBuffer
      ensures InRequestWrite() && reply == conn.reply && reg.clientFd == old(reg.clientFd)
    {
      failure := FirstReason(failure, "connect failed");
      Conclude(conn.reply);
      reg := reg.Armed(reg.clientFd, OP_WRITE);
    }

    /** connecting_timeout: afterwards the client is armed to be told, however often
        the sweep repeats it. */
    method ConnectingTimeout()
      requires InConnecting()
      modifies this`reg, this`conn
      ensures InConnecting() && reg.Holds(OP_WRITE, None, 0) && reg.clientFd == old(reg.clientFd)
      ensures conn == old(conn).(current := [], reply := Kernel.TTL_EXPIRED, fate := Expired)
      ensures conn == old(conn) ==> reg == old(reg)
    {
      if reg.originFd != -1 {
        DropOrigin();
      }
      conn := conn.(current := [], reply := Kernel.TTL_EXPIRED, fate := Expired);
      reg := reg.Armed(reg.clientFd, OP_WRITE);
    }

    // ----- COPY

    method LogOpen()
      requires !books.emitted && books.lines == [] && !books.tunnelOpened
      modifies this`books
      ensures books == if logging && destination.Some? then old(books).(tunnelOpened := true, lines := [OpenLine]) else old(books)
    {
      if !logging || destination == None || books.tunnelOpened {
        return;
      }
      books := books.(tunnelOpened := true, lines := books.lines + [OpenLine]);
    }

    /** copy_update_interests. */
    method UpdateInterests() returns (ok: bool)
      requires reg.client.Some? && reg.origin.Some? && reg.originFd != reg.clientFd
      modifies this`reg
      ensures ok
      ensures reg == old(reg).(client := Some(Interest(client.SourceArmed(readBuffer), origin.SinkArmed(writeBuffer))),
                               origin := Some(Interest(origin.SourceArmed(writeBuffer), client.SinkArmed(readBuffer))))
    {
      if !reg.Knows(reg.clientFd) || !reg.Knows(reg.originFd) {
        return false;
      }
      reg := reg.Armed(reg.clientFd, Interest(client.SourceArmed(readBuffer), origin.SinkArmed(writeBuffer)))
                .Armed(reg.originFd, Interest(origin.SourceArmed(writeBuffer), client.SinkArmed(readBuffer)));
      return true;
    }

    /** copy_init before it arms the descriptors. */
    method OpenTunnel()
      requires ArrivingCopying()
      modifies this`client, this`origin, this`books, this`Tunnel
      ensures Established()
      ensures client == Relay.Opened(reg.clientFd, reg.originFd, readBuffer)
      ensures origin == Relay.Opened(reg.originFd, reg.clientFd, writeBuffer)
    {
      client := Relay.Opened(reg.clientFd, reg.originFd, readBuffer);
      origin := Relay.Opened(reg.originFd, reg.clientFd, writeBuffer);
      Tunnel := true;
      LogOpen();
    }

    method CopyInit()
      requires ArrivingCopying()
      modifies this`client, this`origin, this`reg, this`books, this`Tunnel
      ensures reg.clientFd == old(reg.clientFd)
      ensures InCopying()
      ensures client.received == client.delivered == [] == origin.received == origin.delivered
    {
      OpenTunnel();
      var ok := UpdateInterests();
    }

    /** The end of copy_read and copy_write. */
    method CopyNext(r: Relay.Outcome) returns (next: State)
      requires stm.State() == Copying && Established()
      requires r == Relay.Proceed ==> client.Settled(readBuffer) && origin.Settled(writeBuffer)
      requires client.readFd == origin.writeFd == reg.clientFd && client.writeFd == origin.readFd == reg.originFd
      requires reg.client.Some? && reg.origin.Some? && reg.Holds(reg.client.value, reg.origin, 0)
      modifies this`reg
      ensures reg.clientFd == old(reg.clientFd)
      ensures match next case Error => InError() case Copying => InCopying() case Done => InDone() case _ => false
      ensures next == if r == Relay.Fail then Error else if client.writeClosed && origin.writeClosed then Done else Copying
    {
      if r == Relay.Fail {
        next := Error;
      } else if client.writeClosed && origin.writeClosed {
        next := Done;
      } else {
        var ok := UpdateInterests();
        next := Copying;
      }
    }

    /** The direction that reads from fd takes what recv delivers. */
    method ReadSide(fd: int) returns (r: Relay.Outcome)
      requires InCopying()
      requires ReadArmed(fd)
      modifies this`client, this`origin, this`readBuffer, this`writeBuffer
      ensures old(client.received) <= client.received && client.delivered == old(client.delivered)
      ensures old(origin.received) <= origin.received && origin.delivered == old(origin.delivered)
      ensures client.readFd == origin.writeFd == reg.clientFd && client.writeFd == origin.readFd == reg.originFd
      ensures Established()
      ensures r == Relay.Proceed ==> client.Settled(readBuffer) && origin.Settled(writeBuffer)
    {
      ghost var got;
      if fd == reg.clientFd {
        r, client, readBuffer, got := Relay.Read(client, readBuffer);
      } else if fd == reg.originFd {
        r, origin, writeBuffer, got := Relay.Read(origin, writeBuffer);
      } else {
        assert false;
      }
    }

    /** The direction that writes to fd sends what it can, and it is counted. */
    method WriteSide(fd: int) returns (r: Relay.Outcome)
      requires InCopying()
      requires WriteArmed(fd)
      modifies this`client, this`origin, this`readBuffer, this`writeBuffer, this`counts
      ensures old(client.delivered) <= client.delivered && client.received == old(client.received)
      ensures old(origin.delivered) <= origin.delivered && origin.received == old(origin.received)
      ensures client.readFd == origin.writeFd == reg.clientFd && client.writeFd == origin.readFd == reg.originFd
      ensures Established()
      ensures r == Relay.Proceed ==> client.Settled(readBuffer) && origin.Settled(writeBuffer)
    {
      ghost var accepted;
      if fd == reg.clientFd {
        var sent := origin.transferred;
        r, origin, writeBuffer, accepted := Relay.Write(origin, writeBuffer);
        counts := counts.(o2c := counts.o2c + origin.transferred - sent);
      } else if fd == reg.originFd {
        var sent := client.transferred;
        r, client, readBuffer, accepted := Relay.Write(client, readBuffer);
        counts := counts.(c2o := counts.c2o + client.transferred - sent);
      } else {
        assert false;
      }
    }

    method ReadCopy(fd: int) returns (next: State, ghost outcome: Relay.Outcome)
      requires stm.State() == Copying && InCopying()
      requires ReadArmed(fd)
      modifies this`client, this`origin, this`readBuffer, this`writeBuffer, this`reg
      ensures Moved()
      ensures match next case Error => InError() case Copying => InCopying() case Done => InDone() case _ => false
      ensures next == if outcome == Relay.Fail then Error else if client.writeClosed && origin.writeClosed then Done else Copying
    {
      assert Tunnel;
      var r := ReadSide(fd);
      assert Tunnel;
      outcome := r;
      next := CopyNext(r);
    }

    method WriteCopy(fd: int) returns (next: State, ghost outcome: Relay.Outcome)
      requires stm.State() == Copying && InCopying()
      requires WriteArmed(fd)
      modifies this`client, this`origin, this`readBuffer, this`writeBuffer, this`reg, this`counts
      ensures Moved()
      ensures match next case Error => InError() case Copying => InCopying() case Done => InDone() case _ => false
      ensures next == if outcome == Relay.Fail then Error else if client.writeClosed && origin.writeClosed then Done else Copying
    {
      assert Tunnel;
      var r := WriteSide(fd);
      assert Tunnel;
      outcome := r;
      next := CopyNext(r);
    }

    // ----- stm.c

    /** The on_arrival hook of a state. */
    method Arrive(next: State)
      requires Arriving(next)
      modifies this`auth, this`status, this`req, this`reply, this`conn, this`failure, this`reg
      modifies this`client, this`origin, this`books, this`Tunnel
      ensures (forall s :: s == next ==> InState(s)) && SameStreams()
    {
      match next {
        case AuthRead => AuthReadInit();
        case RequestRead => RequestReadInit();
        case Connecting => ConnectingInit();
        case Copying => CopyInit();
        case _ =>
      }
    }

    method Jump(next: State)
      requires Landing(next) && stm.current.Some?
      modifies stm, this`auth, this`status, this`req, this`reply, this`conn, this`failure, this`reg
      modifies this`client, this`origin, this`books, this`Tunnel
      ensures stm.current == Some(next) && Here() && SameStreams()
    {
      if stm.current != Some(next) {
        ghost var arriving := Arriving(next);
        assert arriving;
        stm.current := Some(next);
        Arrive(next);
      }
    }

    /** handle_first: the arrival hook of the initial state runs at the first event. */
    method HandleFirst()
      requires Here()
      modifies stm, this`hello
      ensures stm.current == Some(old(stm.State())) && Here()
    {
      if stm.current == None {
        stm.current := Some(HelloRead);
        hello := Hello.INITIAL;
      }
    }

    predicate Reading()
      reads stm
    {
      stm.State().HelloRead? || stm.State().AuthRead? || stm.State().RequestRead?
    }

    predicate Writing()
      reads stm
    {
      stm.State().HelloWrite? || stm.State().AuthWrite? || stm.State().RequestWrite?
    }

    /** The on_read_ready hooks. A state without one aborts; none is reached. */
    method OnReadReady(fd: int, users: Users) returns (next: State)
      requires Here() && stm.current.Some?
      requires if Reading() then fd == reg.clientFd else stm.State() == Copying && ReadArmed(fd)
      modifies this
      ensures Landing(next) && Moved() && Follows(stm.State(), next)
      ensures next == stm.State() && Reading() ==> readBuffer == EMPTY
      ensures said.Since(old(said), users)
    {
      if Reading() {
        next := OnMessageReady(fd, users);
      } else {
        At(Copying);
        var n, _ := ReadCopy(fd);
        next := n;
      }
    }

    /** Those that read a message. */
    method OnMessageReady(fd: int, users: Users) returns (next: State)
      requires Here() && Reading() && fd == reg.clientFd
      modifies this
      ensures Landing(next) && Moved() && Follows(stm.State(), next)
      ensures next == stm.State() ==> readBuffer == EMPTY
      ensures said.Since(old(said), users)
    {
      At(stm.State());
      match stm.State() {
        case HelloRead => var n, _ := ReadHello(fd, users); next := n;
        case AuthRead => var n, _ := ReadAuth(fd, users); next := n;
        case RequestRead => var n, _ := ReadRequest(fd); next := n;
        case _ => assert false;
      }
    }

    /** stm_handler_read. */
    method HandleRead(fd: int, users: Users)
      requires Here()
      requires if Reading() then fd == reg.clientFd else stm.State() == Copying && ReadArmed(fd)
      modifies this, stm
      ensures Here() && stm.current.Some? && Grown()
      ensures Reading() ==> stm.State() == old(stm.State()) && readBuffer == EMPTY
      ensures said.Since(old(said), users)
    {
      HandleFirst();
      var next := OnReadReady(fd, users);
      Jump(next);
    }

    /** The on_write_ready hooks. A state without one aborts; none is reached. */
    method OnWriteReady(fd: int) returns (next: State)
      requires Here() && stm.current.Some?
      requires if Writing() then fd == reg.clientFd
               else (stm.State() == Connecting || stm.State() == Copying) && WriteArmed(fd)
      modifies this
      ensures Landing(next) && Moved() && Follows(stm.State(), next) && said == old(said)
    {
      if Writing() {
        next := OnReplyReady(fd);
      } else {
        At(stm.State());
        match stm.State() {
          case Connecting => var n, _ := WriteConnecting(fd); next := n;
          case Copying => var n, _ := WriteCopy(fd); next := n;
          case _ => assert false;
        }
      }
    }

    /** Those that send a reply. */
    method OnReplyReady(fd: int) returns (next: State)
      requires Here() && Writing() && fd == reg.clientFd
      modifies this`writeBuffer, this`NegOut, this`reg
      ensures Landing(next) && Moved() && Follows(stm.State(), next)
    {
      At(stm.State());
      match stm.State() {
        case HelloWrite => var n, _ := WriteHello(fd); next := n;
        case AuthWrite => var n, _ := WriteAuth(fd); next := n;
        case RequestWrite => var n, _ := WriteRequest(fd); next := n;
        case _ => assert false;
      }
    }

    /** stm_handler_write. */
    method HandleWrite(fd: int)
      requires Here()
      requires if Writing() then fd == reg.clientFd
               else (stm.State() == Connecting || stm.State() == Copying) && WriteArmed(fd)
      modifies this, stm
      ensures Here() && stm.current.Some? && Grown() && said == old(said)
    {
      HandleFirst();
      var next := OnWriteReady(fd);
      Jump(next);
    }

    /** socksv5_pump: drain what is buffered and send what is due, until the session
        has to wait. Each turn moves to a later state or empties the read buffer, and
        when it stops in a reading state nothing buffered is left to parse. */
    method Pump(fd: int, users: Users)
      requires Here() && stm.current.Some?
      requires Rank(stm.State()) <= Rank(RequestRead) ==> fd == reg.clientFd
      modifies this, stm
      ensures Here() && stm.current.Some? && Grown()
      ensures Reading() ==> !readBuffer.CanRead()
      ensures said.Since(old(said), users)
    {
      while true
        invariant Here() && stm.current.Some? && Grown() && said.Since(old(said), users)
        invariant Rank(stm.State()) <= Rank(RequestRead) ==> fd == reg.clientFd
        decreases 10 - Rank(stm.State()), readBuffer.CanRead()
      {
        if Reading() && readBuffer.CanRead() {
          HandleRead(fd, users);
        } else if Writing() {
          var st := stm.State();
          HandleWrite(reg.clientFd);
          if stm.State() == st {
            break;
          }
        } else {
          break;
        }
      }
    }

    // ----- the end of a session

    /** socks5_log_event. */
    method LogEvent()
      requires !books.emitted
      modifies this`books
      ensures books == if !logging || destination == None then old(books)
                       else old(books).(emitted := true, lines := old(books).lines + [
                              if old(books).tunnelOpened then CloseLine(client.transferred, origin.transferred) else FailLine(failure)])
    {
      if !logging || books.emitted || destination == None {
        return;
      }
      if books.tunnelOpened {
        books := books.(lines := books.lines + [CloseLine(client.transferred, origin.transferred)]);
      } else {
        books := books.(lines := books.lines + [FailLine(failure)]);
      }
      books := books.(emitted := true);
    }

    /** socks5_destroy: the last reference returns the record, any other is dropped. */
    method Destroy()
      requires !books.released
      modifies this`reg, this`books
      ensures if old(reg).references == 1 then reg == old(reg) && books == old(books).(released := true)
              else reg == old(reg).(references := old(reg).references - 1) && books == old(books)
    {
      if reg.references == 1 {
        books := books.(released := true);
      } else {
        reg := reg.(references := reg.references - 1);
      }
    }

    /** selector_unregister_fd and its close callback; socksv5_done aborts if the
        descriptor is not registered, which never happens. */
    method Unregister(fd: int)
      requires (fd == reg.clientFd && reg.client.Some?) || (fd == reg.originFd && reg.origin.Some?)
      requires reg.clientFd != reg.originFd && !books.released
      modifies this`reg, this`books
      ensures var r := if fd == old(reg).clientFd then old(reg).(client := None) else old(reg).(origin := None);
              if r.references == 1 then reg == r && books == old(books).(released := true)
              else reg == r.(references := r.references - 1) && books == old(books)
    {
      if fd == reg.clientFd {
        reg := reg.(client := None);
      } else {
        reg := reg.(origin := None);
      }
      Destroy();
    }

    /** Every descriptor is taken out of the selector, and the record is released by
        the last of them, not before. */
    method CloseAll()
      requires reg.Closable() && !books.released
      modifies this`reg, this`books
      ensures reg.client == None && reg.origin == None && reg.clientFd == old(reg.clientFd)
      ensures books == old(books).(released := true)
    {
      Unregister(reg.clientFd);
      assert books.released == (reg.originFd == -1);
      if reg.originFd != -1 {
        Unregister(reg.originFd);
      }
    }

    /** socksv5_done. */
    method Finish()
      requires InError() && (destination.Some? && !Tunnel ==> failure.Some?)
      requires stm.State() == Done ==> if Tunnel then Drained() else Refused()
      modifies this`reg, this`books
      ensures Finished() && old(books.lines) <= books.lines && reg.clientFd == old(reg.clientFd)
    {
      LogEvent();
      CloseAll();
    }

    /** The end of socksv5_read and socksv5_write. */
    method Settle(reason: string)
      requires Here()
      modifies this`failure, this`reg, this`books
      ensures Finished() || Inv()
      ensures Moved()
    {
      if stm.State() == Error {
        At(Error);
        Abort(reason);
      } else if stm.State() == Done {
        At(Done);
        Finish();
      }
    }

    // ----- events, as the selector and the timeout sweep deliver them

    /** Whatever the selector can report readable has a handler. */
    lemma ReadableState(fd: int)
      requires Inv() && ReadArmed(fd)
      ensures if Reading() then fd == reg.clientFd else stm.State() == Copying
    {
      At(stm.State());
    }

    lemma WritableState(fd: int)
      requires Inv() && WriteArmed(fd)
      ensures if Writing() then fd == reg.clientFd else stm.State() == Connecting || stm.State() == Copying
    {
      At(stm.State());
    }

    /** Outside RESOLV and CONNECTING a session can be closed at any time. */
    lemma Closable()
      requires Inv() && stm.State() != RequestResolv && stm.State() != Connecting
      ensures InError()
    {
      At(stm.State());
    }

    /** A forced close, with its reason. */
    method Abort(reason: string)
      requires InError() && stm.State() != Done
      modifies this`failure, this`reg, this`books
      ensures Finished() && Moved() && failure == if old(failure).None? then Some(reason) else old(failure)
    {
      failure := FirstReason(failure, reason);
      Finish();
    }

    // ----- what holds in every reachable state

    /** Every state keeps the books of the negotiation or those of the tunnel. */
    lemma PlainOrCarried()
      requires Inv() || Finished()
      ensures if Tunnel then Carried()
              else Balanced(said, NegIn, readBuffer, NegOut, writeBuffer, Replies) && counts.c2o == counts.o2c == 0
    {
      if Inv() {
        At(stm.State());
      }
    }

    /** Whole-session byte conservation: everything the client sent is, in order, the
        three messages, then what went to the origin, then what is still unread; and
        everything due to the client is the replies, then what the origin sent. */
    lemma BytesConserved()
      requires Inv() || Finished()
      ensures ClientIn() == said.hello + said.auth + said.request + ToOrigin() + readBuffer.bytes
      ensures ClientOut() + writeBuffer.bytes == Replies + FromOrigin()
      ensures counts.c2o == |ToOrigin()| && counts.o2c == |ClientOut()| - |NegOut|
    {
      CountsAreLengths();
      PlainOrCarried();
      var head := said.hello + said.auth + said.request;
      if Tunnel {
        Shift(head, client.carried, client.received, client.delivered, readBuffer.bytes);
        Shift(Replies, [], origin.received, origin.delivered, writeBuffer.bytes);
      } else {
        assert head + [] == head;
      }
    }

    /** The byte counters are the lengths sent. */
    lemma CountsAreLengths()
      requires Inv() || Finished()
      ensures counts.c2o == |ToOrigin()| && counts.o2c == if Tunnel then |origin.delivered| else 0
    {
      PlainOrCarried();
    }

    /** The reference count of a live session. */
    lemma References()
      requires Inv()
      ensures Counted(stm.State(), reg) && !books.released
    {
      At(stm.State());
    }

    /** A live session always waits for something that can happen. */
    lemma Waiting()
      requires Inv()
      ensures stm.State() == RequestResolv || exists fd :: ReadArmed(fd) || WriteArmed(fd)
    {
      At(stm.State());
      if stm.State() == Copying {
        Relay.NeverWedged(client, readBuffer);
        Relay.NeverWedged(origin, writeBuffer);
        assert ReadArmed(reg.clientFd) || WriteArmed(reg.clientFd) || ReadArmed(reg.originFd) || WriteArmed(reg.originFd);
      } else {
        assert stm.State() != RequestResolv ==>
            ReadArmed(reg.clientFd) || WriteArmed(reg.clientFd) || ReadArmed(reg.originFd) || WriteArmed(reg.originFd);
      }
    }

    /** In the tunnel, each direction that is not finished has its source armed for
        reading or its sink for writing, and a finished one has neither. */
    lemma DirectionsLive()
      requires Inv() && stm.State() == Copying
      ensures reg.client.Some? && reg.origin.Some?
      ensures !client.writeClosed <==> (reg.client.value.read || reg.origin.value.write)
      ensures !origin.writeClosed <==> (reg.origin.value.read || reg.client.value.write)
    {
      At(Copying);
      Relay.NeverWedged(client, readBuffer);
      Relay.NeverWedged(origin, writeBuffer);
    }

    /** The authentication gate, over runs: a session that reads a request, and hence
        any with an origin, was admitted under RFC 1928 section 3 and RFC 1929. */
    lemma Gate()
      requires Inv() && (Rank(stm.State()) >= Rank(RequestRead) || reg.originFd != -1)
      ensures said.Admitted(method_, status)
      ensures reg.originFd != -1 ==> Recorded(said, req, destination)
    {
      At(stm.State());
    }

    /** The reply to a request, whether it is on its way or was sent in the event that
        ended the session: it is the one the request and the fate of its attempts
        deserve, after the greetings and before nothing else. An address of the
        destination was left untried only by a refused registration or the timeout, and
        the promise of the design document is kept unless it was the former. */
    lemma Replied()
      requires (Inv() && stm.State() == RequestWrite) || (Finished() && stm.State() == Done && !Tunnel && said.request != [])
      ensures said.Deserves(reply, conn) && ClientOut() + writeBuffer.bytes == Replies == Greetings(method_) + RequestReply(reply)
      ensures Finished() ==> writeBuffer == EMPTY && reply != 0x00
      ensures Inv() ==> (reply == 0x00 <==> reg.originFd != -1)
      ensures reply != 0x00 && conn.Attempted() ==>
                && (AsDesigned(conn) <==> conn.fate.Expired? || conn.lastFd < FD_SETSIZE)
                && (conn.left != [] ==> conn.fate.Unregistered? || conn.fate.Expired?)
    {
      if Inv() {
        At(stm.State());
      }
      if reply != 0x00 && conn.Attempted() {
        DesignHolds(conn);
      }
    }

    /** A session that is done without a tunnel has sent its refusal whole. */
    lemma RefusalSent()
      requires Finished() && stm.State() == Done && !Tunnel
      ensures Refused() && ClientOut() == Replies
      ensures said.auth == [] && said.request == [] ==> Replies == HelloReply(Hello.NO_ACCEPTABLE_METHODS) && counts == NONE
      ensures said.auth != [] && said.request == [] ==>
                && Replies == HelloReply(method_) + AuthReply(status) && status != 0x00
                && counts == NONE.(authFail := 1) && said.users.Some? && !Accepts(said.users.value, said.name, said.password)
    {
      assert NegOut + [] == NegOut;
    }

    /** A connection attempt is counted exactly once, when CONNECTING is left, and as a
        success only if the origin was reached; so also when the session ends at once. */
    lemma CountedOnce()
      requires Inv() || Finished()
      ensures counts.originOk + counts.originFail == if conn.Attempted() && (Finished() || stm.State() != Connecting) then 1 else 0
      ensures counts.originOk == 1 ==> conn.fate.Reached?
      ensures conn.Attempted() ==> said.Admitted(method_, status)
    {
      if Inv() {
        At(stm.State());
      }
    }

    /** The access log of a live session: nothing, then OPEN once the tunnel is. Grown
        says that lines are only ever added, Finished how the log ends. */
    lemma LogTrace()
      requires Inv()
      ensures books.lines == (if Tunnel && logging then [OpenLine] else []) && !books.emitted
      ensures Tunnel <==> stm.State() == Copying
    {
      At(stm.State());
    }

    /** A tunnel that ends DONE has delivered, both ways, exactly what it received. */
    lemma CleanEnd()
      requires Finished() && Tunnel && stm.State() == Done
      ensures ClientIn() == said.hello + said.auth + said.request + ToOrigin()
      ensures ClientOut() == Replies + FromOrigin()
      ensures client.shutdowns == 1 && origin.shutdowns == 1 && client.eof && origin.eof
      ensures logging ==> books.lines == [OpenLine, CloseLine(|ToOrigin()|, |FromOrigin()|)]
    {
      Relay.NeverWedged(client, readBuffer);
      Relay.NeverWedged(origin, writeBuffer);
      Shift(said.hello + said.auth + said.request, client.carried, client.received, client.delivered, []);
      assert origin.carried + origin.received == origin.received;
    }

    /** socksv5_read. */
    method OnRead(fd: int, users: Users)
      requires Inv() && ReadArmed(fd)
      modifies this, stm
      ensures (Inv() || Finished()) && Grown() && said.Since(old(said), users)
      ensures Inv() && Reading() ==> !readBuffer.CanRead()
    {
      ReadableState(fd);
      HandleRead(fd, users);
      Pump(fd, users);
      Settle("read error");
    }

    /** socksv5_write. */
    method OnWrite(fd: int, users: Users)
      requires Inv() && WriteArmed(fd)
      modifies this, stm
      ensures (Inv() || Finished()) && Grown() && said.Since(old(said), users)
      ensures Inv() && Reading() ==> !readBuffer.CanRead()
    {
      WritableState(fd);
      HandleWrite(fd);
      Pump(fd, users);
      Settle("write error");
    }

    /** The one on_block_ready hook. */
    method OnBlockReady(fd: int, resolved: seq<Address>) returns (next: State)
      requires Here() && stm.State() == RequestResolv && fd == reg.clientFd
      modifies this
      ensures Landing(next) && Moved() && (next == Connecting || next == RequestWrite) && conn.resolution == resolved
    {
      At(RequestResolv);
      next := ResolvDone(fd, resolved);
    }

    /** socksv5_block, with the addresses the DNS worker stored; none when it failed. */
    method OnBlock(resolved: seq<Address>)
      requires Inv() && stm.State() == RequestResolv
      modifies this, stm
      ensures Inv() && Grown() && conn.resolution == resolved
      ensures stm.State() == Connecting || stm.State() == RequestWrite
    {
      HandleFirst();
      var next := OnBlockReady(reg.clientFd, resolved);
      Jump(next);
    }

    /** socksv5_check_timeouts for one session: a connect that is overdue is given up
        and its client told, any other session that is overdue is closed; what waits for
        the DNS worker is left alone, and so is whatever is in time. */
    method OnSweep(connectOver: bool, idleOver: bool, negotiationOver: bool)
      requires Inv()
      modifies this, stm
      ensures (Inv() || Finished()) && Grown()
      ensures stm.State() == old(stm.State())
      ensures old(stm.State()) == Connecting && connectOver ==>
                Inv() && reg.origin == None && conn == old(conn).(current := [], reply := Kernel.TTL_EXPIRED, fate := Expired)
      ensures (if old(stm.State()) == Copying then idleOver
               else old(stm.State()) != Connecting && old(stm.State()) != RequestResolv && negotiationOver) ==>
                Finished() && failure.Some?
      ensures (match old(stm.State())
               case RequestResolv => true case Connecting => !connectOver case Copying => !idleOver case _ => !negotiationOver) ==>
                Inv() && reg == old(reg) && conn == old(conn) && books == old(books) && failure == old(failure) && counts == old(counts)
    {
      var st := stm.State();
      if st == Connecting {
        if connectOver {
          At(Connecting);
          ConnectingTimeout();
        }
      } else if st == Copying {
        if idleOver {
          Closable();
          Abort("idle timeout");
        }
      } else if st != Done && st != Error && st != RequestResolv {
        if negotiationOver {
          Closable();
          Abort("negotiation timeout");
        }
      }
    }
  }

  lemma Appended(a: seq<byte>, b: seq<byte>, c: seq<byte>)
    ensures a + (b + c) == a + b + c
  {
  }

  lemma Shift(head: seq<byte>, carried: seq<byte>, received: seq<byte>, delivered: seq<byte>, rest: seq<byte>)
    requires carried + received == delivered + rest
    ensures head + carried + received == head + delivered + rest
  {
    assert head + carried + received == head + (carried + received);
    assert head + delivered + rest == head + (delivered + rest);
  }

  /** Every life of a session: any number of events, in any order the selector, the
      DNS worker and the sweep can deliver them, with any outcome of every call. */
  method Lifetime(fd: int, logging: bool) returns (s: Session)
    requires ValidFd(fd)
    ensures s.Inv() || s.Finished()
  {
    s := new Session(fd, logging);
    var events: nat := *;
    while events > 0 && !s.books.released
      invariant s.Inv() || s.Finished()
      invariant fresh(s) && fresh(s.stm)
    {
      var on: int := *;
      var users: Users := *;
      if {
        case s.ReadArmed(on) => s.OnRead(on, users);
        case s.WriteArmed(on) => s.OnWrite(on, users);
        case s.stm.State() == RequestResolv =>
          var resolved: seq<Address> := *;
          s.OnBlock(resolved);
        case true =>
          var a: bool, b: bool, c: bool := *, *, *;
          s.OnSweep(a, b, c);
      }
      events := events - 1;
    }
  }
}
