/** src/shared/request.c: the CONNECT request of RFC 1928 section 4. */
module Request {
  import opened Bytes
  import opened Buffers
  import opened Incremental

  const SOCKS_VERSION: byte := 0x05
  const CMD_CONNECT: byte := 0x01
  const ATYP_IPV4: byte := 0x01
  const ATYP_FQDN: byte := 0x03
  const ATYP_IPV6: byte := 0x04
  const IPV4_LEN: byte := 4
  const IPV6_LEN: byte := 16
  const MAX_FQDN_LEN: byte := 255

  datatype Phase = Version | Cmd | Rsv | Atyp | DstAddr | DstPort | Done | Error | BadAtyp | BadCmd

  /** addr holds the address bytes stored so far. */
  datatype RequestState = RequestState(phase: Phase, remaining: byte, read: byte,
                                       cmd: byte, atyp: byte, addr: seq<byte>, port: nat)

  const INITIAL := RequestState(Version, 0, 0, 0, 0, [], 0)

  predicate Final(s: RequestState) {
    s.phase.Done? || s.phase.Error? || s.phase.BadAtyp? || s.phase.BadCmd?
  }

  function Step(s: RequestState, b: byte): RequestState {
    match s.phase
    case Version => s.(phase := if b != SOCKS_VERSION then Error else Cmd)
    case Cmd => s.(cmd := b, phase := if b != CMD_CONNECT then BadCmd else Rsv)
    case Rsv => s.(phase := Atyp)
    case Atyp =>
      var t := s.(atyp := b, read := 0);
      if b == ATYP_IPV4 then t.(remaining := IPV4_LEN, phase := DstAddr)
      else if b == ATYP_IPV6 then t.(remaining := IPV6_LEN, phase := DstAddr)
      else if b == ATYP_FQDN then t.(remaining := 0, phase := DstAddr)
      else t.(phase := BadAtyp)
    case DstAddr =>
      if s.atyp == ATYP_FQDN && s.remaining == 0 then
        if b == 0 then s.(phase := Error) else s.(remaining := b, read := 0)
      else if s.atyp == ATYP_FQDN && s.read >= MAX_FQDN_LEN then s.(phase := Error)
      else
        var left := Dec(s.remaining);
        s.(addr := s.addr + [b], remaining := left,
           read := if left == 0 || s.read == 255 then 0 else s.read + 1,
           phase := if left == 0 then DstPort else DstAddr)
    case DstPort =>
      if s.read == 0 then s.(port := b as nat * 0x100, read := 1)
      else s.(port := s.port / 0x100 * 0x100 + b as nat, phase := Done, read := 0)
    case _ => s
  }

  function Parse(s: RequestState, input: seq<byte>): Fed<RequestState> {
    Feed(Step, Final, s, input)
  }

  /** msg is an unfinished message, and consuming all of it leads to s. */
  ghost predicate Open(s: RequestState, msg: seq<byte>) {
    !Final(s) && Parse(INITIAL, msg) == Fed(s, |msg|)
  }

  // ----- the message as the RFC lays it out

  datatype Destination = Destination(atyp: byte, addr: seq<byte>, port: nat) {
    predicate Valid() {
      && port < 0x1_0000
      && (atyp == ATYP_IPV4 || atyp == ATYP_IPV6 || atyp == ATYP_FQDN)
      && (atyp == ATYP_IPV4 ==> |addr| == 4)
      && (atyp == ATYP_IPV6 ==> |addr| == 16)
      && (atyp == ATYP_FQDN ==> 1 <= |addr| <= 255)
    }
  }

  datatype Message =
    | Incomplete
    | Malformed(used: nat)
    | BadCommand(used: nat)
    | BadAddressType(used: nat)
    | Connect(used: nat, to: Destination)

  /** The address starts at index h and is n bytes long, the port follows. */
  function ReadTail(input: seq<byte>, h: nat, n: nat): Message
    requires h >= 4 && |input| >= 4
  {
    if |input| < h + n + 2 then Incomplete
    else Connect(h + n + 2, Destination(input[3], input[h..h + n], input[h + n] as nat * 0x100 + input[h + n + 1] as nat))
  }

  function ReadMessage(input: seq<byte>): Message {
    if |input| == 0 then Incomplete
    else if input[0] != SOCKS_VERSION then Malformed(1)
    else if |input| == 1 then Incomplete
    else if input[1] != CMD_CONNECT then BadCommand(2)
    else if |input| < 4 then Incomplete
    else if input[3] == ATYP_IPV4 then ReadTail(input, 4, 4)
    else if input[3] == ATYP_IPV6 then ReadTail(input, 4, 16)
    else if input[3] != ATYP_FQDN then BadAddressType(4)
    else if |input| == 4 then Incomplete
    else if input[4] == 0 then Malformed(5)
    else ReadTail(input, 5, input[4] as nat)
  }

  /** build_connect_request of the stress client, for any destination. */
  function Encode(d: Destination): seq<byte>
    requires d.Valid()
  {
    [SOCKS_VERSION, CMD_CONNECT, 0x00, d.atyp]
    + (if d.atyp == ATYP_FQDN then [|d.addr| as byte] else [])
    + d.addr + [(d.port / 0x100) as byte, (d.port % 0x100) as byte]
  }

  ghost predicate Verdict(m: Message, h: nat, r: Fed<RequestState>, total: nat) {
    match m
    case Incomplete => !Final(r.state) && h + r.used == total
    case Malformed(used) => r.state.phase.Error? && h + r.used == used
    case BadCommand(used) => r.state.phase.BadCmd? && h + r.used == used
    case BadAddressType(used) => r.state.phase.BadAtyp? && h + r.used == used
    case Connect(used, to) =>
      && r.state == RequestState(Done, 0, 0, CMD_CONNECT, to.atyp, to.addr, to.port)
      && h + r.used == used
  }

  /** Collecting the address; the over-long-name branch is never taken. */
  lemma {:induction false} ParseAddr(s: RequestState, input: seq<byte>)
    requires s.phase.DstAddr? && s.remaining > 0 && s.read as nat + s.remaining as nat <= 255
    ensures var n := s.remaining as nat;
            if |input| < n then
              !Final(Parse(s, input).state) && Parse(s, input).used == |input|
            else
              var t := s.(phase := DstPort, remaining := 0, read := 0, addr := s.addr + input[..n]);
              Parse(s, input) == Later(n, Parse(t, input[n..]))
    decreases |input|
  {
    if input != [] {
      var t := Step(s, input[0]);
      var n := s.remaining as nat;
      FeedOne(Step, Final, s, input, t);
      if n <= |input| {
        assert input[..n] == [input[0]] + input[1..][..n - 1];
        assert s.addr + input[..n] == t.addr + input[1..][..n - 1];
        assert input[1..][n - 1..] == input[n..];
      }
      if n > 1 {
        ParseAddr(t, input[1..]);
      } else {
        assert t.addr == s.addr + input[..1];
      }
    }
  }

  lemma ParsePort(s: RequestState, input: seq<byte>)
    requires s.phase.DstPort? && s.read == 0
    ensures var r := Parse(s, input);
            if |input| < 2 then !Final(r.state) && r.used == |input|
            else r == Fed(s.(phase := Done, port := input[0] as nat * 0x100 + input[1] as nat), 2)
  {
    if input != [] {
      var t := Step(s, input[0]);
      FeedOne(Step, Final, s, input, t);
      if |input| > 1 {
        FeedOne(Step, Final, t, input[1..], Step(t, input[1]));
      }
    }
  }

  lemma ParseTail(s: RequestState, input: seq<byte>, h: nat)
    requires s.phase.DstAddr? && s.remaining > 0 && s.read == 0 && s.addr == [] && s.cmd == CMD_CONNECT
    requires 4 <= h <= |input| && input[3] == s.atyp
    ensures Verdict(ReadTail(input, h, s.remaining as nat), h, Parse(s, input[h..]), |input|)
  {
    var n := s.remaining as nat;
    var rest := input[h..];
    ParseAddr(s, rest);
    if n <= |rest| {
      var t := s.(phase := DstPort, remaining := 0, read := 0, addr := s.addr + rest[..n]);
      assert s.addr + rest[..n] == rest[..n] == input[h..h + n];
      ParsePort(t, rest[n..]);
      if |rest| >= n + 2 {
        assert rest[n..][0] == input[h + n] && rest[n..][1] == input[h + n + 1];
      }
    }
  }

  /** The first four bytes. */
  lemma ParseHead(input: seq<byte>, s: RequestState)
    requires |input| >= 4 && input[0] == SOCKS_VERSION && input[1] == CMD_CONNECT
    requires s == Step(RequestState(Atyp, 0, 0, CMD_CONNECT, 0, [], 0), input[3])
    ensures Parse(INITIAL, input) == if Final(s) then Fed(s, 4) else Later(4, Parse(s, input[4..]))
  {
    var s1 := INITIAL.(phase := Cmd);
    var s2 := s1.(phase := Rsv, cmd := CMD_CONNECT);
    var s3 := s2.(phase := Atyp);
    FeedOne(Step, Final, INITIAL, input, s1);
    FeedOne(Step, Final, s1, input[1..], s2);
    assert input[1..][1..] == input[2..] && input[2..][1..] == input[3..] && input[3..][1..] == input[4..];
    FeedOne(Step, Final, s2, input[2..], s3);
    FeedOne(Step, Final, s3, input[3..], s);
  }

  lemma ParseShort(input: seq<byte>)
    requires |input| < 4 || input[0] != SOCKS_VERSION || input[1] != CMD_CONNECT
    ensures Verdict(ReadMessage(input), 0, Parse(INITIAL, input), |input|)
  {
    if input != [] {
      var s1 := Step(INITIAL, input[0]);
      FeedOne(Step, Final, INITIAL, input, s1);
      if !Final(s1) && |input| > 1 {
        var s2 := Step(s1, input[1]);
        FeedOne(Step, Final, s1, input[1..], s2);
        assert input[1..][1..] == input[2..];
        if !Final(s2) && |input| > 2 {
          FeedOne(Step, Final, s2, input[2..], Step(s2, input[2]));
        }
      }
    }
  }

  /** The byte-at-a-time parser is the RFC message reader, for every input: same
      verdict, same deciding byte, same destination. */
  lemma ParseIsReadMessage(input: seq<byte>)
    ensures Verdict(ReadMessage(input), 0, Parse(INITIAL, input), |input|)
  {
    if |input| < 4 || input[0] != SOCKS_VERSION || input[1] != CMD_CONNECT {
      ParseShort(input);
    } else {
      var s := Step(RequestState(Atyp, 0, 0, CMD_CONNECT, 0, [], 0), input[3]);
      ParseHead(input, s);
      if s.phase.DstAddr? && s.remaining > 0 {
        ParseTail(s, input, 4);
      } else if s.phase.DstAddr? && |input| > 4 {
        var t := Step(s, input[4]);
        FeedOne(Step, Final, s, input[4..], t);
        assert input[4..][1..] == input[5..];
        if !Final(t) {
          ParseTail(t, input, 5);
        }
      }
    }
  }

  lemma ReadEncoded(d: Destination, tail: seq<byte>)
    requires d.Valid()
    ensures ReadMessage(Encode(d) + tail) == Connect(|Encode(d)|, d)
  {
    var m := Encode(d) + tail;
    var h := if d.atyp == ATYP_FQDN then 5 else 4;
    var n := |d.addr|;
    assert m[0] == SOCKS_VERSION && m[1] == CMD_CONNECT && m[3] == d.atyp;
    assert h == 5 ==> m[4] == n as byte;
    assert m[h..h + n] == d.addr;
    assert m[h + n] == (d.port / 0x100) as byte && m[h + n + 1] == (d.port % 0x100) as byte;
    assert d.port / 0x100 * 0x100 + d.port % 0x100 == d.port;
  }

  /** Every IPv4, IPv6 and 1-to-255-byte FQDN request comes back from the parser
      unchanged, whatever follows it. */
  lemma RoundTrip(d: Destination, tail: seq<byte>)
    requires d.Valid()
    ensures Parse(INITIAL, Encode(d) + tail) == Fed(RequestState(Done, 0, 0, CMD_CONNECT, d.atyp, d.addr, d.port), |Encode(d)|)
  {
    ReadEncoded(d, tail);
    ParseIsReadMessage(Encode(d) + tail);
  }

  lemma ReadIsEncoded(input: seq<byte>)
    requires ReadMessage(input).Connect?
    ensures var m := ReadMessage(input);
            && m.to.Valid() && m.used <= |input|
            && input[..m.used] == Encode(m.to)[2 := input[2]]
  {
    var m := ReadMessage(input);
    var d := m.to;
    var h := if d.atyp == ATYP_FQDN then 5 else 4;
    var n := |d.addr|;
    var e := Encode(d)[2 := input[2]];
    assert d.port / 0x100 == input[h + n] as nat && d.port % 0x100 == input[h + n + 1] as nat;
    assert |e| == m.used;
    assert e[h..h + n] == d.addr;
    forall i | 0 <= i < m.used ensures input[i] == e[i] {
      if h <= i < h + n {
        assert input[i] == d.addr[i - h] == e[h..h + n][i - h];
      }
    }
  }

  /** The other direction: whatever the parser accepts is, but for its reserved byte, the
      encoding of the destination it read. */
  lemma AcceptedIsEncoded(input: seq<byte>)
    requires Parse(INITIAL, input).state.phase.Done?
    ensures var r := Parse(INITIAL, input);
            var d := Destination(r.state.atyp, r.state.addr, r.state.port);
            && d.Valid() && 4 <= r.used <= |input| && input[..r.used] == Encode(d)[2 := input[2]]
  {
    ParseIsReadMessage(input);
    ReadIsEncoded(input);
  }

  // ----- the parser object

  class RequestParser {
    var phase: Phase
    var remaining: byte
    var read: byte
    var cmd: byte
    var atyp: byte
    /** The union of in_addr, in6_addr and the NUL-terminated name. */
    const addr: array<byte>
    var port: nat
    ghost var stored: nat

    ghost predicate Valid()
      reads this, addr
    {
      && addr.Length == 256 && stored <= 255 && port < 0x1_0000
      && (phase.DstAddr? ==>
            && stored == read as nat && read as nat + remaining as nat <= 255
            && (atyp == ATYP_IPV4 || atyp == ATYP_IPV6 || atyp == ATYP_FQDN)
            && (remaining == 0 ==> atyp == ATYP_FQDN && read == 0))
      && (phase.DstPort? ==> read <= 1 && remaining == 0 && (read == 1 ==> port % 0x100 == 0))
      && (phase.DstPort? || phase.Done? ==> (atyp == ATYP_FQDN ==> addr[stored] == 0))
      && (phase.Version? || phase.Cmd? || phase.Rsv? || phase.Atyp? ==> stored == 0)
    }

    ghost function Value(): RequestState
      reads this, addr
      requires Valid()
    {
      RequestState(phase, remaining, read, cmd, atyp, addr[..stored], port)
    }

    constructor ()
      ensures Valid() && Value() == INITIAL
      ensures fresh(addr)
    {
      addr := new byte[256];
      phase, remaining, read, cmd, atyp, port, stored := Version, 0, 0, 0, 0, 0, 0;
    }

    /** request_parser_init leaves the request record itself alone. */
    method Init()
      requires Valid()
      modifies this`phase, this`remaining, this`read, this`stored
      ensures Valid() && Value() == INITIAL.(cmd := cmd, atyp := atyp, port := port)
    {
      phase, remaining, read, stored := Version, 0, 0, 0;
    }

    /** An address byte, common to the three address types. */
    method Store(b: byte)
      requires Valid() && phase.DstAddr? && remaining > 0
      modifies this`read, this`remaining, this`phase, this`stored, addr
      ensures Valid()
      ensures Value() == (var s := old(Value());
                          s.(addr := s.addr + [b], remaining := s.remaining - 1,
                             read := if s.remaining == 1 then 0 else s.read + 1,
                             phase := if s.remaining == 1 then DstPort else DstAddr))
    {
      addr[read] := b;
      assert addr[..stored + 1] == old(addr[..stored]) + [b];
      read, stored := read + 1, stored + 1;
      remaining := remaining - 1;
      if remaining == 0 {
        if atyp == ATYP_FQDN {
          addr[read] := 0;
        }
        phase := DstPort;
        read := 0;
      }
      assert addr[..stored] == old(addr[..stored]) + [b];
    }

    /** One iteration of the switch. Its verification shows that no 8-bit counter
        wraps, that no index leaves the address record, and that the over-long-name
        branch is dead. */
    method TakeByte(b: byte) returns (error: bool)
      requires Valid() && !Final(Value())
      modifies this, addr
      ensures Valid() && Value() == Step(old(Value()), b)
      ensures error <==> phase.Error?
    {
      error := false;
      match phase {
        case Version =>
          if b != SOCKS_VERSION {
            phase, error := Error, true;
          } else {
            phase := Cmd;
          }
        case Cmd =>
          cmd := b;
          phase := if b != CMD_CONNECT then BadCmd else Rsv;
        case Rsv =>
          phase := Atyp;
        case Atyp =>
          atyp, read := b, 0;
          if b == ATYP_IPV4 {
            remaining, phase := IPV4_LEN, DstAddr;
          } else if b == ATYP_IPV6 {
            remaining, phase := IPV6_LEN, DstAddr;
          } else if b == ATYP_FQDN {
            remaining, phase := 0, DstAddr;
          } else {
            phase := BadAtyp;
          }
        case DstAddr =>
          if atyp == ATYP_FQDN && remaining == 0 {
            if b == 0 {
              phase, error := Error, true;
            } else {
              remaining, read := b, 0;
            }
          } else if atyp == ATYP_FQDN && read >= MAX_FQDN_LEN {
            assert false;
          } else {
            Store(b);
          }
        case DstPort =>
          if read == 0 {
            port, read := b as nat * 0x100, 1;
          } else {
            port, phase, read := port + b as nat, Done, 0;
          }
        case _ =>
      }
    }

    method TakeNext(b: Buffer) returns (error: bool)
      requires Valid() && b.Valid() && !Final(Value()) && b.CanRead()
      requires b.data != addr
      modifies this, addr, b, b.data
      ensures Valid() && b.Valid() && b.View() == old(b.View()).Advance(1)
      ensures Value() == Step(old(Value()), old(b.Contents()[0]))
      ensures error <==> phase.Error?
    {
      var next := b.Read();
      error := TakeByte(next);
    }

    method Consume(b: Buffer) returns (error: bool)
      requires Valid() && b.Valid() && !Final(Value())
      requires b.data != addr
      modifies this, addr, b, b.data
      ensures Valid() && b.Valid()
      ensures var r := Parse(old(Value()), old(b.Contents()));
              Value() == r.state && b.View() == old(b.View()).Advance(r.used)
      ensures error <==> phase.Error?
    {
      error := false;
      ghost var start := b.View();
      ghost var whole, n := Parse(Value(), start.bytes), 0;
      while b.CanRead()
        invariant Valid() && b.Valid() && !Final(Value()) && !error
        invariant n <= |start.bytes| && b.View() == start.Advance(n)
        invariant whole == Later(n, Parse(Value(), start.bytes[n..]))
        decreases |start.bytes| - n
      {
        ghost var was := Value();
        error := TakeNext(b);
        AdvanceTwice(start, n, 1);
        FeedTurn(Step, Final, whole, n, was, start.bytes[n..], Value());
        assert start.bytes[n..][1..] == start.bytes[n + 1..];
        n := n + 1;
        if phase.Done? || phase.Error? || phase.BadAtyp? || phase.BadCmd? {
          break;
        }
      }
    }
  }
}
