/** src/shared/auth.c: the username/password sub-negotiation of RFC 1929 section 2. */
module Auth {
  import opened Bytes
  import opened Buffers
  import opened Incremental

  const AUTH_VERSION: byte := 0x01

  datatype Phase = Ver | ULen | UName | PLen | Passwd | Done | Error

  /** uname and passwd hold the bytes stored so far. */
  datatype AuthState = AuthState(phase: Phase, remaining: byte, uname: seq<byte>, passwd: seq<byte>)

  const INITIAL := AuthState(Ver, 0, [], [])

  predicate Final(s: AuthState) {
    s.phase.Done? || s.phase.Error?
  }

  function Step(s: AuthState, b: byte): AuthState {
    match s.phase
    case Ver => s.(phase := if b != AUTH_VERSION then Error else ULen)
    case ULen => if b == 0 then s.(phase := Error) else s.(phase := UName, remaining := b)
    case UName =>
      var left := Dec(s.remaining);
      s.(phase := if left == 0 then PLen else UName, remaining := left, uname := s.uname + [b])
    case PLen => if b == 0 then s.(phase := Error) else s.(phase := Passwd, remaining := b)
    case Passwd =>
      var left := Dec(s.remaining);
      s.(phase := if left == 0 then Done else Passwd, remaining := left, passwd := s.passwd + [b])
    case _ => s
  }

  function Parse(s: AuthState, input: seq<byte>): Fed<AuthState> {
    Feed(Step, Final, s, input)
  }

  /** msg is an unfinished message, and consuming all of it leads to s. */
  ghost predicate Open(s: AuthState, msg: seq<byte>) {
    !Final(s) && Parse(INITIAL, msg) == Fed(s, |msg|)
  }

  // ----- the message as the RFC lays it out

  datatype Message = Incomplete | Malformed(used: nat) | Credentials(used: nat, uname: seq<byte>, passwd: seq<byte>)

  function ReadMessage(input: seq<byte>): Message {
    if |input| == 0 then Incomplete
    else if input[0] != AUTH_VERSION then Malformed(1)
    else if |input| == 1 then Incomplete
    else if input[1] == 0 then Malformed(2)
    else
      var u := 2 + input[1] as nat;
      if |input| <= u then Incomplete
      else if input[u] == 0 then Malformed(u + 1)
      else
        var p := u + 1 + input[u] as nat;
        if |input| < p then Incomplete else Credentials(p, input[2..u], input[u + 1..p])
  }

  function Encode(uname: seq<byte>, passwd: seq<byte>): seq<byte>
    requires 0 < |uname| < 0x100 && 0 < |passwd| < 0x100
  {
    [AUTH_VERSION, |uname| as byte] + uname + [|passwd| as byte] + passwd
  }

  function Min(a: nat, b: nat): nat {
    if a <= b then a else b
  }

  lemma {:induction false} ParsePasswd(s: AuthState, input: seq<byte>)
    requires s.phase.Passwd? && s.remaining > 0
    ensures var n := s.remaining as nat;
            var k := Min(n, |input|);
            Parse(s, input) == Fed(s.(phase := if n <= |input| then Done else Passwd,
                                      remaining := (n - k) as byte, passwd := s.passwd + input[..k]), k)
    decreases |input|
  {
    if input == [] {
      assert s.passwd + [] == s.passwd;
    } else {
      var t := Step(s, input[0]);
      var k := Min(s.remaining as nat, |input|);
      FeedOne(Step, Final, s, input, t);
      assert s.passwd + input[..k] == s.passwd + [input[0]] + input[1..][..k - 1];
      assert t.passwd + input[1..][..k - 1] == s.passwd + input[..k];
      if !Final(t) {
        ParsePasswd(t, input[1..]);
        assert k - 1 == Min(t.remaining as nat, |input[1..]|);
      } else {
        assert k == 1 && t.passwd == s.passwd + input[..1];
      }
    }
  }

  /** A short name leaves the parser waiting; a whole one hands the rest to the length byte. */
  lemma {:induction false} ParseUName(s: AuthState, input: seq<byte>)
    requires s.phase.UName? && s.remaining > 0
    ensures var n := s.remaining as nat;
            var k := Min(n, |input|);
            var t := s.(phase := if n <= |input| then PLen else UName,
                        remaining := (n - k) as byte, uname := s.uname + input[..k]);
            Parse(s, input) == var r := Parse(t, input[k..]); Fed(r.state, k + r.used)
    decreases |input|
  {
    if input == [] {
      assert s.uname + [] == s.uname;
    } else {
      var t := Step(s, input[0]);
      var k := Min(s.remaining as nat, |input|);
      FeedOne(Step, Final, s, input, t);
      assert s.uname + input[..k] == s.uname + [input[0]] + input[1..][..k - 1];
      assert input[1..][k - 1..] == input[k..];
      assert t.uname + input[1..][..k - 1] == s.uname + input[..k];
      if t.phase.UName? {
        ParseUName(t, input[1..]);
        assert k - 1 == Min(t.remaining as nat, |input[1..]|);
      } else {
        assert k == 1 && t.uname == s.uname + input[..1];
      }
    }
  }

  lemma ParseBody(s: AuthState, input: seq<byte>)
    requires |input| >= 2 && input[0] == AUTH_VERSION && input[1] != 0
    requires s == AuthState(UName, input[1], [], [])
    ensures var r := Parse(s, input[2..]);
            match ReadMessage(input)
            case Incomplete => !Final(r.state) && 2 + r.used == |input|
            case Malformed(used) => r.state.phase.Error? && 2 + r.used == used
            case Credentials(used, uname, passwd) => r.state == AuthState(Done, 0, uname, passwd) && 2 + r.used == used
  {
    var rest, u := input[2..], input[1] as nat;
    ParseUName(s, rest);
    if u < |rest| {
      var t := s.(phase := PLen, remaining := 0, uname := rest[..u]);
      assert s.uname + rest[..u] == rest[..u] == input[2..2 + u];
      var t' := Step(t, rest[u]);
      FeedOne(Step, Final, t, rest[u..], t');
      if rest[u] != 0 {
        var tail, p := input[3 + u..], rest[u] as nat;
        assert rest[u..][1..] == tail;
        ParsePasswd(t', tail);
        assert t'.passwd + tail[..Min(p, |tail|)] == tail[..Min(p, |tail|)];
        if p <= |tail| {
          assert tail[..p] == input[3 + u..3 + u + p];
        }
      }
    } else {
      assert rest[Min(u, |rest|)..] == [];
    }
  }

  lemma {:induction false} ParseIsReadMessage(input: seq<byte>)
    ensures var r := Parse(INITIAL, input);
            match ReadMessage(input)
            case Incomplete => !Final(r.state) && r.used == |input|
            case Malformed(used) => r.state.phase.Error? && r.used == used
            case Credentials(used, uname, passwd) => r == Fed(AuthState(Done, 0, uname, passwd), used)
  {
    if input != [] {
      var s1 := Step(INITIAL, input[0]);
      FeedOne(Step, Final, INITIAL, input, s1);
      if !Final(s1) && |input| > 1 {
        var s2 := Step(s1, input[1]);
        FeedOne(Step, Final, s1, input[1..], s2);
        if !Final(s2) {
          assert input[1..][1..] == input[2..];
          ParseBody(s2, input);
        }
      }
    }
  }

  lemma ReadEncoded(uname: seq<byte>, passwd: seq<byte>, tail: seq<byte>)
    requires 0 < |uname| < 0x100 && 0 < |passwd| < 0x100
    ensures ReadMessage(Encode(uname, passwd) + tail) == Credentials(|Encode(uname, passwd)|, uname, passwd)
  {
    var m := Encode(uname, passwd) + tail;
    var u := 2 + |uname|;
    assert m[1] == |uname| as byte;
    assert m[2..u] == uname;
    assert m[u] == |passwd| as byte;
    assert m[u + 1..u + 1 + |passwd|] == passwd;
  }

  /** Any credentials of 1 to 255 bytes come back from the parser unchanged, whatever
      follows them. */
  lemma RoundTrip(uname: seq<byte>, passwd: seq<byte>, tail: seq<byte>)
    requires 0 < |uname| < 0x100 && 0 < |passwd| < 0x100
    ensures Parse(INITIAL, Encode(uname, passwd) + tail) == Fed(AuthState(Done, 0, uname, passwd), |Encode(uname, passwd)|)
  {
    ReadEncoded(uname, passwd, tail);
    ParseIsReadMessage(Encode(uname, passwd) + tail);
  }

  /** The other direction: whatever the parser accepts is the encoding of what it read. */
  lemma AcceptedIsEncoded(input: seq<byte>)
    requires Parse(INITIAL, input).state.phase.Done?
    ensures var r := Parse(INITIAL, input);
            && 0 < |r.state.uname| < 0x100 && 0 < |r.state.passwd| < 0x100
            && r.used <= |input| && input[..r.used] == Encode(r.state.uname, r.state.passwd)
  {
    ParseIsReadMessage(input);
  }

  // ----- the parser object

  class AuthParser {
    var phase: Phase
    var remaining: byte
    var ulen: byte
    var plen: byte
    const uname: array<byte>
    const passwd: array<byte>

    /** How many bytes of the name (password) have been stored. */
    ghost function NameStored(): int
      reads this
    {
      if phase.UName? then ulen as int - remaining as int else if phase.Ver? || phase.ULen? then 0 else ulen as int
    }

    ghost function PassStored(): int
      reads this
    {
      if phase.Passwd? then plen as int - remaining as int else if phase.Done? || phase.Error? then plen as int else 0
    }

    ghost predicate Valid()
      reads this, uname, passwd
    {
      && uname != passwd && uname.Length == 256 && passwd.Length == 256
      && (phase.UName? ==> 0 < remaining <= ulen)
      && (phase.Passwd? ==> 0 < remaining <= plen)
      && (phase.Ver? || phase.ULen? || phase.UName? || phase.PLen? ==> plen == 0)
      && (phase.Ver? || phase.ULen? ==> ulen == 0)
      && (phase.PLen? || phase.Passwd? || phase.Done? ==> uname[ulen] == 0)
      && (phase.Done? ==> passwd[plen] == 0)
    }

    ghost function Value(): AuthState
      reads this, uname, passwd
      requires Valid()
    {
      AuthState(phase, remaining, uname[..NameStored()], passwd[..PassStored()])
    }

    constructor ()
      ensures Valid() && Value() == INITIAL
      ensures fresh(uname) && fresh(passwd)
    {
      uname, passwd := new byte[256], new byte[256];
      phase, remaining, ulen, plen := Ver, 0, 0, 0;
    }

    method Init()
      requires Valid()
      modifies this
      ensures Valid() && Value() == INITIAL
    {
      phase, remaining, ulen, plen := Ver, 0, 0, 0;
    }

    /** One iteration of the switch. Every counter is an 8-bit byte, so its
        verification includes that none wraps and no array index leaves 0..255. */
    method TakeByte(b: byte) returns (error: bool)
      requires Valid() && !Final(Value())
      modifies this, uname, passwd
      ensures Valid() && Value() == Step(old(Value()), b)
      ensures error <==> phase.Error?
    {
      error := false;
      match phase {
        case Ver =>
          if b != AUTH_VERSION {
            phase, error := Error, true;
          } else {
            phase := ULen;
          }
        case ULen =>
          if b == 0 {
            phase, error := Error, true;
          } else {
            ulen, remaining, phase := b, b, UName;
          }
        case UName =>
          uname[ulen - remaining] := b;
          assert uname[..ulen - remaining + 1] == old(uname[..ulen - remaining]) + [b];
          remaining := remaining - 1;
          if remaining == 0 {
            uname[ulen] := 0;
            phase := PLen;
          }
          assert uname[..NameStored()] == old(uname[..ulen - remaining]) + [b];
        case PLen =>
          if b == 0 {
            phase, error := Error, true;
          } else {
            plen, remaining, phase := b, b, Passwd;
          }
        case Passwd =>
          passwd[plen - remaining] := b;
          assert passwd[..plen - remaining + 1] == old(passwd[..plen - remaining]) + [b];
          remaining := remaining - 1;
          if remaining == 0 {
            passwd[plen] := 0;
            phase := Done;
          }
          assert passwd[..PassStored()] == old(passwd[..plen - remaining]) + [b];
        case _ =>
      }
    }

    method TakeNext(b: Buffer) returns (error: bool)
      requires Valid() && b.Valid() && !Final(Value()) && b.CanRead()
      requires b.data != uname && b.data != passwd
      modifies this, uname, passwd, b, b.data
      ensures Valid() && b.Valid() && b.View() == old(b.View()).Advance(1)
      ensures Value() == Step(old(Value()), old(b.Contents()[0]))
      ensures error <==> phase.Error?
    {
      var next := b.Read();
      error := TakeByte(next);
    }

    method Consume(b: Buffer) returns (error: bool)
      requires Valid() && b.Valid() && !Final(Value())
      requires b.data != uname && b.data != passwd
      modifies this, uname, passwd, b, b.data
      ensures Valid() && b.Valid()
      ensures var r := Parse(old(Value()), old(b.Contents()));
              Value() == r.state && b.View() == old(b.View()).Advance(r.used)
      ensures error <==> phase.Error?
    {
      error := false;
      ghost var start := b.View();
      ghost var whole, n := Parse(Value(), start.bytes), 0;
      while b.CanRead()
        invariant Valid() && b.Valid() && !Final(Value()) && !error
        invariant n <= |start.bytes| && b.View() == start.Advance(n)
        invariant whole == Later(n, Parse(Value(), start.bytes[n..]))
        decreases |start.bytes| - n
      {
        ghost var was := Value();
        error := TakeNext(b);
        AdvanceTwice(start, n, 1);
        FeedTurn(Step, Final, whole, n, was, start.bytes[n..], Value());
        assert start.bytes[n..][1..] == start.bytes[n + 1..];
        n := n + 1;
        if phase.Done? || phase.Error? {
          break;
        }
      }
    }
  }
}
