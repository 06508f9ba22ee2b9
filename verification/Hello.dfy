/** src/shared/hello.c: the method-negotiation greeting of RFC 1928 section 3. */
module Hello {
  import opened Bytes
  import opened Buffers
  import opened Incremental

  const SOCKS_VERSION: byte := 0x05
  const NO_AUTHENTICATION: byte := 0x00
  const USERNAME_PASSWORD: byte := 0x02
  const NO_ACCEPTABLE_METHODS: byte := 0xFF

  datatype Phase = Version | NMethods | Methods | Done | Error

  datatype HelloState = HelloState(phase: Phase, remaining: byte, noAuth: bool, userPass: bool)

  const INITIAL := HelloState(Version, 0, false, false)

  predicate Final(s: HelloState) {
    s.phase.Done? || s.phase.Error?
  }

  function Step(s: HelloState, b: byte): HelloState {
    match s.phase
    case Version => s.(phase := if b != SOCKS_VERSION then Error else NMethods)
    case NMethods => if b == 0 then s.(phase := Error) else s.(phase := Methods, remaining := b)
    case Methods =>
      var left := Dec(s.remaining);
      HelloState(if left == 0 then Done else Methods, left,
                 s.noAuth || b == NO_AUTHENTICATION, s.userPass || b == USERNAME_PASSWORD)
    case _ => s
  }

  function Parse(s: HelloState, input: seq<byte>): Fed<HelloState> {
    Feed(Step, Final, s, input)
  }

  /** msg is an unfinished message, and consuming all of it leads to s. */
  ghost predicate Open(s: HelloState, msg: seq<byte>) {
    !Final(s) && Parse(INITIAL, msg) == Fed(s, |msg|)
  }

  // ----- the message as the RFC lays it out

  datatype Message = Incomplete | Malformed(used: nat) | Greeting(used: nat, methods: seq<byte>)

  function ReadMessage(input: seq<byte>): Message {
    if |input| == 0 then Incomplete
    else if input[0] != SOCKS_VERSION then Malformed(1)
    else if |input| == 1 then Incomplete
    else if input[1] == 0 then Malformed(2)
    else
      var end := 2 + input[1] as nat;
      if |input| < end then Incomplete else Greeting(end, input[2..end])
  }

  function Encode(methods: seq<byte>): seq<byte>
    requires 0 < |methods| < 0x100
  {
    [SOCKS_VERSION, |methods| as byte] + methods
  }

  lemma {:induction false} ParseMethods(s: HelloState, input: seq<byte>)
    requires s.phase.Methods? && s.remaining > 0
    ensures var n := s.remaining as nat;
            var seen := input[..if n <= |input| then n else |input|];
            Parse(s, input) == Fed(HelloState(if n <= |input| then Done else Methods, (n - |seen|) as byte,
                                              s.noAuth || NO_AUTHENTICATION in seen,
                                              s.userPass || USERNAME_PASSWORD in seen), |seen|)
    decreases |input|
  {
    if input != [] {
      var t := Step(s, input[0]);
      var n := s.remaining as nat;
      var seen := input[..if n <= |input| then n else |input|];
      assert seen == [input[0]] + seen[1..];
      if !Final(t) {
        ParseMethods(t, input[1..]);
        assert seen[1..] == input[1..][..|seen| - 1];
      }
    }
  }

  /** The byte-at-a-time parser is the RFC message reader: same verdict, same
      deciding byte, and exactly the offered methods are noticed. */
  lemma {:induction false} ParseIsReadMessage(input: seq<byte>)
    ensures var r := Parse(INITIAL, input);
            match ReadMessage(input)
            case Incomplete => !Final(r.state) && r.used == |input|
            case Malformed(used) => r.state.phase.Error? && r.used == used
            case Greeting(used, methods) =>
              && r == Fed(HelloState(Done, 0, NO_AUTHENTICATION in methods, USERNAME_PASSWORD in methods), used)
  {
    if input != [] {
      var s1 := Step(INITIAL, input[0]);
      FeedOne(Step, Final, INITIAL, input, s1);
      if !Final(s1) && |input| > 1 {
        var s2 := Step(s1, input[1]);
        FeedOne(Step, Final, s1, input[1..], s2);
        if !Final(s2) {
          assert input[1..][1..] == input[2..];
          ParseMethods(s2, input[2..]);
          var n := input[1] as nat;
          if 2 + n <= |input| {
            assert input[2..][..n] == input[2..2 + n];
          }
        }
      }
    }
  }

  lemma ReadEncoded(methods: seq<byte>, tail: seq<byte>)
    requires 0 < |methods| < 0x100
    ensures ReadMessage(Encode(methods) + tail) == Greeting(|Encode(methods)|, methods)
  {
    var m := Encode(methods) + tail;
    assert m[1] == |methods| as byte;
    assert m[2..2 + |methods|] == methods;
  }

  /** Any greeting, followed by anything: the parser stops at its end and has noticed
      exactly the methods offered. */
  lemma RoundTrip(methods: seq<byte>, tail: seq<byte>)
    requires 0 < |methods| < 0x100
    ensures Parse(INITIAL, Encode(methods) + tail) ==
            Fed(HelloState(Done, 0, NO_AUTHENTICATION in methods, USERNAME_PASSWORD in methods), |Encode(methods)|)
  {
    ReadEncoded(methods, tail);
    ParseIsReadMessage(Encode(methods) + tail);
  }

  /** The other direction: whatever the parser accepts is an encoded greeting. */
  lemma AcceptedIsEncoded(input: seq<byte>)
    requires Parse(INITIAL, input).state.phase.Done?
    ensures var m := ReadMessage(input);
            && m.Greeting? && 0 < |m.methods| < 0x100
            && Parse(INITIAL, input).used == m.used <= |input| && input[..m.used] == Encode(m.methods)
  {
    ParseIsReadMessage(input);
  }

  // ----- the parser object

  class HelloParser {
    var phase: Phase
    var remaining: byte
    var noAuthOffered: bool
    var userPassOffered: bool

    ghost predicate Valid()
      reads this
    {
      phase.Methods? ==> remaining > 0
    }

    function Value(): HelloState
      reads this
    {
      HelloState(phase, remaining, noAuthOffered, userPassOffered)
    }

    constructor ()
      ensures Valid() && Value() == INITIAL
    {
      phase, remaining, noAuthOffered, userPassOffered := Version, 0, false, false;
    }

    /** hello_read_init together with hello_parser_init. */
    method Init()
      modifies this
      ensures Valid() && Value() == INITIAL
    {
      phase, remaining, noAuthOffered, userPassOffered := Version, 0, false, false;
    }

    method OnMethod(method_: byte)
      modifies this`noAuthOffered, this`userPassOffered
      ensures noAuthOffered == (old(noAuthOffered) || method_ == NO_AUTHENTICATION)
      ensures userPassOffered == (old(userPassOffered) || method_ == USERNAME_PASSWORD)
    {
      if method_ == NO_AUTHENTICATION {
        noAuthOffered := true;
      } else if method_ == USERNAME_PASSWORD {
        userPassOffered := true;
      }
    }

    /** One iteration of the switch; the 8-bit counter is shown not to wrap. */
    method TakeByte(b: byte) returns (error: bool)
      requires Valid() && !Final(Value())
      modifies this
      ensures Valid() && Value() == Step(old(Value()), b)
      ensures error <==> phase.Error?
    {
      error := false;
      match phase {
        case Version =>
          if b != SOCKS_VERSION {
            phase, error := Error, true;
          } else {
            phase := NMethods;
          }
        case NMethods =>
          if b == 0 {
            phase, error := Error, true;
          } else {
            remaining, phase := b, Methods;
          }
        case Methods =>
          OnMethod(b);
          remaining := remaining - 1;
          if remaining == 0 {
            phase := Done;
          }
        case _ =>
      }
    }

    method TakeNext(b: Buffer) returns (error: bool)
      requires Valid() && b.Valid() && !Final(Value()) && b.CanRead()
      modifies this, b, b.data
      ensures Valid() && b.Valid() && b.View() == old(b.View()).Advance(1)
      ensures Value() == Step(old(Value()), old(b.Contents()[0]))
      ensures error <==> phase.Error?
    {
      var next := b.Read();
      error := TakeByte(next);
    }

    method Consume(b: Buffer) returns (error: bool)
      requires Valid() && b.Valid() && !Final(Value())
      modifies this, b, b.data
      ensures Valid() && b.Valid()
      ensures var r := Parse(old(Value()), old(b.Contents()));
              Value() == r.state && b.View() == old(b.View()).Advance(r.used)
      ensures error <==> phase.Error?
    {
      error := false;
      ghost var start := b.View();
      ghost var whole, n := Parse(Value(), start.bytes), 0;
      while b.CanRead()
        invariant Valid() && b.Valid() && !Final(Value()) && !error
        invariant n <= |start.bytes| && b.View() == start.Advance(n)
        invariant whole == Later(n, Parse(Value(), start.bytes[n..]))
        decreases |start.bytes| - n
      {
        ghost var was := Value();
        error := TakeNext(b);
        AdvanceTwice(start, n, 1);
        FeedTurn(Step, Final, whole, n, was, start.bytes[n..], Value());
        assert start.bytes[n..][1..] == start.bytes[n + 1..];
        n := n + 1;
        if phase.Done? || phase.Error? {
          break;
        }
      }
    }
  }
}
