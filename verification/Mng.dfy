/** src/server/mng.c: one management session, as a refinement of a line interpreter
    that answers one frame at a time. */
module Management {
  import opened Framing
  import opened Selectors
  import Kernel

  const WRITE_SIZE := 4096
  const MAX_AUTH_FAILURES := 3

  // ----- the line interpreter

  datatype Admin = Admin(authenticated: bool, locked: bool, closing: bool, failures: nat)

  const NEWCOMER := Admin(false, false, false, 0)

  /** A frame, its response, and the session flags around it. */
  datatype Exchange = Exchange(frame: Frame, response: string, before: Admin, after: Admin)

  predicate IsProtected(command: string) {
    command == "STATS" || command == "USERS" || command == "USER" || command == "CONFIG"
  }

  /** AUTH, with what follows it. */
  ghost predicate AnswersAuth(secret: string, args: seq<string>, a: Admin, response: string, b: Admin) {
    if |args| != 1 then b == a && response == "-ERR usage AUTH <secret>\n"
    else if secret == "" then b == a && response == "-ERR auth required\n"
    else if args[0] == secret then
      b == a.(authenticated := true, failures := 0) && response == "+OK authenticated\n"
    else if a.failures + 1 >= MAX_AUTH_FAILURES then
      && b == a.(failures := a.failures + 1, locked := true, closing := true)
      && response == "-ERR locked\n"
    else
      b == a.(failures := a.failures + 1) && response == "-ERR invalid credentials\n"
  }

  /** Any other command. What the protected ones do to users, metrics and
      configuration is not followed: any line the output buffer can hold. */
  ghost predicate AnswersOther(command: string, a: Admin, response: string, b: Admin) {
    && b == a
    && if a.locked then response == "-ERR locked\n"
       else if !a.authenticated then response == "-ERR auth required\n"
       else if !IsProtected(command) then response == "-ERR unknown command\n"
       else 0 < |response| < WRITE_SIZE
  }

  ghost predicate AnswersWords(secret: string, words: seq<string>, a: Admin, response: string, b: Admin) {
    if words == [] then b == a && response == "-ERR empty command\n"
    else if words[0] == "AUTH" then AnswersAuth(secret, words[1..], a, response, b)
    else if words[0] == "QUIT" then
      if |words| > 1 then b == a && response == "-ERR usage QUIT\n"
      else b == a.(closing := true) && response == "+OK bye\n"
    else AnswersOther(words[0], a, response, b)
  }

  ghost predicate Answers(secret: string, e: Exchange) {
    match e.frame
    case TooLong => e.after == e.before && e.response == "-ERR line too long\n"
    case Line(text) => AnswersWords(secret, Words(CText(text)), e.before, e.response, e.after)
  }

  /** A conversation: frames answered one after the other, none after a closing one. */
  ghost predicate Conversation(secret: string, log: seq<Exchange>, now: Admin) {
    if log == [] then now == NEWCOMER
    else
      var e := log[|log| - 1];
      && Conversation(secret, log[..|log| - 1], e.before)
      && !e.before.closing && Answers(secret, e) && e.after == now
  }

  function FramesOf(log: seq<Exchange>): (fs: seq<Frame>)
    ensures |fs| == |log|
  {
    if log == [] then [] else FramesOf(log[..|log| - 1]) + [log[|log| - 1].frame]
  }

  function Output(log: seq<Exchange>): string {
    if log == [] then "" else Output(log[..|log| - 1]) + log[|log| - 1].response
  }

  lemma Extended(secret: string, log: seq<Exchange>, e: Exchange)
    requires Conversation(secret, log, e.before) && !e.before.closing && Answers(secret, e)
    ensures Conversation(secret, log + [e], e.after)
    ensures FramesOf(log + [e]) == FramesOf(log) + [e.frame] && Output(log + [e]) == Output(log) + e.response
  {
    assert (log + [e])[..|log|] == log;
  }

  /** Three wrong secrets in a row close the session, so a locked session is always a
      closing one: the locked answer to other commands is never given. */
  lemma {:induction false} LockedCloses(secret: string, log: seq<Exchange>, now: Admin)
    requires Conversation(secret, log, now)
    ensures now.locked ==> now.closing
    ensures !now.closing ==> now.failures < MAX_AUTH_FAILURES
  {
    if log != [] {
      var e := log[|log| - 1];
      LockedCloses(secret, log[..|log| - 1], e.before);
    }
  }

  /** The command that authenticates. */
  ghost predicate GoodAuth(secret: string, e: Exchange) {
    e.frame.Line? && Words(CText(e.frame.text)) == ["AUTH", secret] && secret != ""
  }

  /** Nobody is authenticated without having sent the secret. */
  lemma {:induction false} AuthenticatedByAuth(secret: string, log: seq<Exchange>, now: Admin)
    requires Conversation(secret, log, now) && now.authenticated
    ensures exists i :: 0 <= i < |log| && GoodAuth(secret, log[i])
  {
    var e := log[|log| - 1];
    if e.before.authenticated {
      AuthenticatedByAuth(secret, log[..|log| - 1], e.before);
      var i :| 0 <= i < |log| - 1 && GoodAuth(secret, log[..|log| - 1][i]);
      assert GoodAuth(secret, log[i]);
    } else {
      var ws := Words(CText(e.frame.text));
      assert ws == ["AUTH", ws[1..][0]];
      assert GoodAuth(secret, e);
    }
  }

  /** A protected command that was carried out came after the secret. */
  lemma ProtectedAfterAuth(secret: string, log: seq<Exchange>, now: Admin, k: nat)
    requires Conversation(secret, log, now) && k < |log|
    requires log[k].frame.Line? && Words(CText(log[k].frame.text)) != []
    requires IsProtected(Words(CText(log[k].frame.text))[0]) && log[k].response != "-ERR auth required\n"
    ensures exists i :: 0 <= i < k && GoodAuth(secret, log[i])
    decreases |log|
  {
    var e := log[|log| - 1];
    var front := log[..|log| - 1];
    if k < |log| - 1 {
      ProtectedAfterAuth(secret, front, e.before, k);
      var i :| 0 <= i < k && GoodAuth(secret, front[i]);
      assert GoodAuth(secret, log[i]);
    } else {
      LockedCloses(secret, front, e.before);
      AuthenticatedByAuth(secret, front, e.before);
      var i :| 0 <= i < |front| && GoodAuth(secret, front[i]);
      assert GoodAuth(secret, log[i]);
    }
  }

  // ----- the session

  class MngSession {
    const secret: string
    const line: array<char>
    var lineLen: nat
    var inBuf: string
    var inPos: nat
    var out: string
    var outSent: nat
    var authenticated: bool
    var locked: bool
    var closing: bool
    var authFailures: nat
    /** The selector slot; None once unregistered. */
    var slot: Slot

    ghost var Received: string
    ghost var Consumed: string
    ghost var Sent: string
    ghost var Log: seq<Exchange>

    ghost function Flags(): Admin
      reads this
    {
      Admin(authenticated, locked, closing, authFailures)
    }

    /** Framing, conversation and output are all accounted for. */
    ghost predicate Kept()
      reads this, line
    {
      && line.Length == LINE_SIZE && lineLen < LINE_SIZE
      && Scan(Consumed) == Scanned(FramesOf(Log), line[..lineLen])
      && Conversation(secret, Log, Flags())
      && outSent <= |out| && Sent + out[outSent..] == Output(Log)
      && inPos <= |inBuf| && Received == Consumed + inBuf[inPos..]
    }

    /** Between events: writing with a response pending, or reading with no input left. */
    ghost predicate Inv()
      reads this, line
    {
      && Kept()
      && match slot
         case Closed => true
         case Armed(i) =>
           if out != "" then i == OP_WRITE && outSent < |out|
           else i == OP_READ && inBuf == "" && inPos == 0 && outSent == 0 && !closing
    }

    constructor (secret: string)
      ensures Inv() && slot == Armed(OP_READ) && Received == "" && this.secret == secret && fresh(line)
    {
      this.secret := secret;
      line := new char[LINE_SIZE];
      lineLen, inBuf, inPos, out, outSent := 0, "", 0, "", 0;
      authenticated, locked, closing, authFailures := false, false, false, 0;
      slot := Armed(OP_READ);
      Received, Consumed, Sent, Log := "", "", "", [];
    }

    /** queue_response, for a response that vsnprintf can format. */
    method QueueResponse(response: string)
      requires response != ""
      modifies this`out, this`outSent, this`slot
      ensures out == (if |response| >= WRITE_SIZE then "-ERR response too large\n" else response)
      ensures outSent == 0 && slot == if old(slot).Armed? then Armed(OP_WRITE) else old(slot)
    {
      out := if |response| >= WRITE_SIZE then "-ERR response too large\n" else response;
      outSent := 0;
      if slot.Armed? {
        slot := Armed(OP_WRITE);
      }
    }

    /** The protected commands, as far as this session can tell. */
    method Serve()
      modifies this`out, this`outSent, this`slot
      ensures 0 < |out| < WRITE_SIZE
      ensures outSent == 0 && slot == if old(slot).Armed? then Armed(OP_WRITE) else old(slot)
    {
      var response: string := *;
      QueueResponse(if response == "" then "+OK\n" else response);
    }

    method HandleAuth(text: string, cursor: nat)
      requires cursor <= |text|
      modifies this`out, this`outSent, this`slot, this`authenticated, this`locked, this`closing, this`authFailures
      ensures AnswersAuth(secret, Words(text[cursor..]), old(Flags()), out, Flags())
      ensures 0 < |out| && outSent == 0 && slot == if old(slot).Armed? then Armed(OP_WRITE) else old(slot)
    {
      var given, next := NextToken(text, cursor);
      var extra, _ := NextToken(text, next);
      assert given != "" ==> |Words(text[cursor..])| == 1 + |Words(text[next..])|;
      if given == "" || extra != "" {
        QueueResponse("-ERR usage AUTH <secret>\n");
      } else if secret == "" {
        QueueResponse("-ERR auth required\n");
      } else if given == secret {
        authenticated, authFailures := true, 0;
        QueueResponse("+OK authenticated\n");
      } else {
        authFailures := authFailures + 1;
        if authFailures >= MAX_AUTH_FAILURES {
          locked, closing := true, true;
          QueueResponse("-ERR locked\n");
        } else {
          QueueResponse("-ERR invalid credentials\n");
        }
      }
    }

    /** require_auth and the commands behind it. */
    method HandleOther(command: string)
      modifies this`out, this`outSent, this`slot
      ensures AnswersOther(command, old(Flags()), out, Flags())
      ensures 0 < |out| && outSent == 0 && slot == if old(slot).Armed? then Armed(OP_WRITE) else old(slot)
    {
      if locked {
        QueueResponse("-ERR locked\n");
      } else if !authenticated {
        QueueResponse("-ERR auth required\n");
      } else if command == "STATS" || command == "USERS" || command == "USER" || command == "CONFIG" {
        Serve();
      } else {
        QueueResponse("-ERR unknown command\n");
      }
    }

    method HandleLine(text: string)
      modifies this`out, this`outSent, this`slot, this`authenticated, this`locked, this`closing, this`authFailures
      ensures Answers(secret, Exchange(Line(text), out, old(Flags()), Flags()))
      ensures 0 < |out| && outSent == 0 && slot == if old(slot).Armed? then Armed(OP_WRITE) else old(slot)
    {
      var trimmed := TrimRight(CText(text));
      var command, cursor := NextToken(trimmed, 0);
      assert trimmed[0..] == trimmed;
      var words := Words(CText(text));
      assert command != "" ==> words[1..] == Words(trimmed[cursor..]);
      if command == "" {
        QueueResponse("-ERR empty command\n");
      } else if command == "AUTH" {
        HandleAuth(trimmed, cursor);
      } else if command == "QUIT" {
        var extra, _ := NextToken(trimmed, cursor);
        if extra != "" {
          QueueResponse("-ERR usage QUIT\n");
        } else {
          closing := true;
          QueueResponse("+OK bye\n");
        }
      } else {
        HandleOther(command);
      }
    }

    /** A frame is complete: its response becomes the pending output. */
    ghost method Record(frame: Frame, before: Admin)
      requires line.Length == LINE_SIZE && lineLen == 0 && Scan(Consumed) == Scanned(FramesOf(Log) + [frame], "")
      requires Conversation(secret, Log, before) && !before.closing && Answers(secret, Exchange(frame, out, before, Flags()))
      requires outSent == 0 && Sent == Output(Log)
      requires inPos <= |inBuf| && Received == Consumed + inBuf[inPos..]
      modifies this`Log
      ensures Kept()
    {
      Extended(secret, Log, Exchange(frame, out, before, Flags()));
      Log := Log + [Exchange(frame, out, before, Flags())];
      assert out[0..] == out && line[..0] == [];
    }

    /** The scan and the pending line agree once c, the byte before in_pos, is used. */
    ghost predicate Using(c: char)
      reads this, line
    {
      && line.Length == LINE_SIZE && lineLen < LINE_SIZE
      && Scan(Consumed) == TakeChar(Scanned(FramesOf(Log), line[..lineLen]), c)
      && Conversation(secret, Log, Flags())
      && out == "" && outSent == 0 && Sent == Output(Log)
      && inPos <= |inBuf| && Received == Consumed + inBuf[inPos..]
    }

    method EndLine()
      requires Using('\n') && !closing && slot.Armed?
      modifies this`lineLen, this`Log, this`out, this`outSent, this`slot
      modifies this`authenticated, this`locked, this`closing, this`authFailures
      ensures Kept() && out != "" && outSent == 0 && slot == Armed(OP_WRITE)
    {
      ghost var before := Flags();
      var text := line[..lineLen];
      lineLen := 0;
      HandleLine(text);
      Record(Line(text), before);
    }

    method CutLine(c: char)
      requires Using(c) && c != '\r' && c != '\n' && lineLen + 1 >= LINE_SIZE && !closing && slot.Armed?
      modifies this`lineLen, this`Log, this`out, this`outSent, this`slot
      ensures Kept() && out != "" && outSent == 0 && slot == Armed(OP_WRITE)
    {
      lineLen := 0;
      QueueResponse("-ERR line too long\n");
      Record(TooLong, Flags());
    }

    method KeepChar(c: char)
      requires Using(c) && c != '\r' && c != '\n' && lineLen + 1 < LINE_SIZE
      modifies this`lineLen, line
      ensures Kept()
    {
      line[lineLen] := c;
      lineLen := lineLen + 1;
      assert line[..lineLen] == old(line[..lineLen]) + [c];
      assert out[outSent..] == "" && Sent + "" == Sent;
    }

    /** One turn of the loop of mng_process_input. */
    method ProcessChar()
      requires Kept() && out == "" && outSent == 0 && !closing && inPos < |inBuf| && slot.Armed?
      modifies this`inPos, this`Consumed, this`lineLen, this`Log, this`out, this`outSent, this`slot, line
      modifies this`authenticated, this`locked, this`closing, this`authFailures
      ensures Kept() && outSent == 0 && inPos == old(inPos) + 1
      ensures if out == "" then slot == old(slot) && !closing else slot == Armed(OP_WRITE)
    {
      var c := inBuf[inPos];
      ScanOne(Consumed, c);
      assert inBuf[inPos..] == [c] + inBuf[inPos + 1..];
      assert Sent + out[outSent..] == Sent;
      inPos, Consumed := inPos + 1, Consumed + [c];
      if c == '\r' {
      } else if c == '\n' {
        EndLine();
      } else if lineLen + 1 >= line.Length {
        CutLine(c);
      } else {
        KeepChar(c);
      }
    }

    /** mng_process_input: it stops at the first response, or with the input used up. */
    method ProcessInput()
      requires Kept() && out == "" && outSent == 0 && !closing && slot.Armed?
      modifies this`inBuf, this`inPos, this`Consumed, this`lineLen, this`Log, this`out, this`outSent, this`slot, line
      modifies this`authenticated, this`locked, this`closing, this`authFailures
      ensures Kept() && outSent == 0
      ensures if out == "" then slot == old(slot) && !closing && inBuf == "" && inPos == 0 else slot == Armed(OP_WRITE)
    {
      while inPos < |inBuf| && out == ""
        invariant Kept() && outSent == 0
        invariant if out == "" then slot == old(slot) && !closing else slot == Armed(OP_WRITE)
        decreases |inBuf| - inPos
      {
        ProcessChar();
      }
      if inPos >= |inBuf| {
        inBuf, inPos := "", 0;
      }
    }

    /** mng_read. */
    method OnRead()
      requires Inv() && slot == Armed(OP_READ)
      modifies this, line
      ensures Inv() && old(Received) <= Received && Sent == old(Sent)
    {
      if inPos >= |inBuf| {
        var more := Fetch();
        if !more {
          return;
        }
      }
      ProcessInput();
    }

    /** The receive of mng_read. */
    method Fetch() returns (more: bool)
      requires Inv() && slot == Armed(OP_READ)
      modifies this`slot, this`inBuf, this`inPos, this`Received
      ensures old(Received) <= Received
      ensures if more then Kept() && slot == old(slot) else Inv()
    {
      more := false;
      var got: Kernel.Received<char> := Kernel.Recv(256);
      match got {
        case RecvAgain =>
        case RecvFailed => slot := Closed;
        case Eof => slot := Closed;
        case Data(bytes) =>
          inBuf, inPos, Received := bytes, 0, Received + bytes;
          more := true;
      }
    }

    /** The send loop of mng_write; broken is an error that closes the session. */
    method SendPending() returns (broken: bool)
      requires Kept()
      modifies this`outSent, this`Sent
      ensures Kept() && old(Sent) <= Sent
    {
      broken := false;
      while outSent < |out|
        invariant Kept() && old(Sent) <= Sent
        decreases |out| - outSent
      {
        var sent := Kernel.Send(out[outSent..]);
        match sent {
          case SendAgain => return;
          case SendFailed => return true;
          case Accepted(n) =>
            if n == 0 {
              break;
            }
            assert out[outSent..] == out[outSent..outSent + n] + out[outSent + n..];
            Sent := Sent + out[outSent..outSent + n];
            outSent := outSent + n;
        }
      }
    }

    /** mng_write. */
    method OnWrite()
      requires Inv() && slot == Armed(OP_WRITE)
      modifies this, line
      ensures Inv() && old(Sent) <= Sent && Received == old(Received)
    {
      var broken := SendPending();
      if broken {
        slot := Closed;
        return;
      }
      if outSent == |out| {
        Continue();
      }
    }

    /** mng_write once the response is out: close, or go on with the input left. */
    method Continue()
      requires Kept() && outSent == |out| && slot == Armed(OP_WRITE)
      modifies this, line
      ensures Inv() && Sent == old(Sent) && Received == old(Received)
    {
      assert out[outSent..] == "" && Sent + "" == Sent;
      out, outSent := "", 0;
      if closing {
        slot := Closed;
      } else {
        Resume();
      }
    }

    /** More input may be waiting; only with none left is OP_READ armed again. */
    method Resume()
      requires Kept() && out == "" && outSent == 0 && !closing && slot == Armed(OP_WRITE)
      modifies this, line
      ensures Inv() && Sent == old(Sent) && Received == old(Received)
    {
      ProcessInput();
      if out == "" {
        slot := Armed(OP_READ);
      }
    }

    /** For every chunking of the input and every pattern of partial sends: the frames
        handled are the first ones of the received stream, each answered by the
        interpreter in turn, the bytes sent are a prefix of its responses, and input is
        only asked for when none is left over. */
    lemma Refines()
      requires Inv()
      ensures FramesOf(Log) <= Scan(Received).frames
      ensures Conversation(secret, Log, Flags()) && Sent <= Output(Log)
      ensures slot == Armed(OP_READ) ==> Sent == Output(Log) && FramesOf(Log) == Scan(Received).frames
    {
      ScanGrows(Consumed, inBuf[inPos..]);
      assert slot == Armed(OP_READ) ==> Consumed + inBuf[inPos..] == Consumed;
      assert slot == Armed(OP_READ) ==> Sent + out[outSent..] == Sent;
    }
  }

  datatype Slot = Closed | Armed(interest: Interest)

  /** Every life of a management session. */
  method Lifetime(secret: string) returns (m: MngSession)
    ensures m.Inv()
  {
    m := new MngSession(secret);
    var events: nat := *;
    while events > 0
      invariant m.Inv() && fresh(m) && fresh(m.line)
    {
      if {
        case m.slot == Armed(OP_READ) => m.OnRead();
        case m.slot == Armed(OP_WRITE) => m.OnWrite();
        case true =>
      }
      events := events - 1;
    }
  }
}
