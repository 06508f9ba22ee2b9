/** How src/server/mng.c cuts its input into lines, and a line into words. */
module Framing {
  const LINE_SIZE := 1024

  /** What reaches the command interpreter. */
  datatype Frame = Line(text: string) | TooLong

  datatype Scanned = Scanned(frames: seq<Frame>, partial: string)

  /** One byte of input. */
  function TakeChar(s: Scanned, c: char): Scanned {
    if c == '\r' then s
    else if c == '\n' then Scanned(s.frames + [Line(s.partial)], "")
    else if |s.partial| + 1 >= LINE_SIZE then Scanned(s.frames + [TooLong], "")
    else Scanned(s.frames, s.partial + [c])
  }

  function Scan(input: string): (s: Scanned)
    ensures |s.partial| < LINE_SIZE
  {
    if input == "" then Scanned([], "") else TakeChar(Scan(input[..|input| - 1]), input[|input| - 1])
  }

  lemma ScanOne(input: string, c: char)
    ensures Scan(input + [c]) == TakeChar(Scan(input), c)
  {
    assert (input + [c])[..|input|] == input;
  }

  /** Frames are only ever added. */
  lemma {:induction false} ScanGrows(a: string, b: string)
    ensures Scan(a).frames <= Scan(a + b).frames
    decreases |b|
  {
    if b == "" {
      assert a + b == a;
    } else {
      var front := b[..|b| - 1];
      ScanGrows(a, front);
      ScanOne(a + front, b[|b| - 1]);
      assert a + b == a + front + [b[|b| - 1]];
    }
  }

  predicate PlainText(text: string) {
    '\r' !in text && '\n' !in text
  }

  function Repeat(f: Frame, n: nat): seq<Frame> {
    if n == 0 then [] else Repeat(f, n - 1) + [f]
  }

  lemma CountOne(n: nat)
    ensures n % LINE_SIZE == LINE_SIZE - 1 ==> (n + 1) % LINE_SIZE == 0 && (n + 1) / LINE_SIZE == n / LINE_SIZE + 1
    ensures n % LINE_SIZE != LINE_SIZE - 1 ==> (n + 1) % LINE_SIZE == n % LINE_SIZE + 1 && (n + 1) / LINE_SIZE == n / LINE_SIZE
  {
  }

  /** What text without a line end becomes. */
  function TextFrames(text: string): Scanned {
    Scanned(Repeat(TooLong, |text| / LINE_SIZE), text[|text| - |text| % LINE_SIZE..])
  }

  function After(frames: seq<Frame>, s: Scanned): Scanned {
    Scanned(frames + s.frames, s.partial)
  }

  lemma TextOne(frames: seq<Frame>, front: string, c: char)
    requires PlainText([c])
    ensures TakeChar(After(frames, TextFrames(front)), c) == After(frames, TextFrames(front + [c]))
  {
    var n := |front|;
    CountOne(n);
    assert c in [c];
    var partial := front[n - n % LINE_SIZE..];
    if n % LINE_SIZE == LINE_SIZE - 1 {
      var k := n / LINE_SIZE;
      assert Repeat(TooLong, k + 1) == Repeat(TooLong, k) + [TooLong];
      assert frames + Repeat(TooLong, k) + [TooLong] == frames + Repeat(TooLong, k + 1);
      assert (front + [c])[n + 1..] == "";
    } else {
      assert (front + [c])[n - n % LINE_SIZE..] == partial + [c];
    }
  }

  /** Text without a line end, after complete lines. */
  lemma {:induction false} ScanText(before: string, text: string)
    requires Scan(before).partial == "" && PlainText(text)
    ensures Scan(before + text) == After(Scan(before).frames, TextFrames(text))
    decreases |text|
  {
    if text == "" {
      assert before + text == before;
      assert Scan(before).frames + [] == Scan(before).frames;
    } else {
      var front, c := text[..|text| - 1], text[|text| - 1];
      ScanText(before, front);
      ScanOne(before + front, c);
      assert before + text == before + front + [c] && text == front + [c];
      TextOne(Scan(before).frames, front, c);
    }
  }

  /** A line of any length: one TooLong for each 1024 bytes, whose last is dropped, and
      then the rest as a line of its own. */
  lemma ScanLine(before: string, text: string)
    requires Scan(before).partial == "" && PlainText(text)
    ensures Scan(before + text + "\n") ==
            Scanned(Scan(before).frames + Repeat(TooLong, |text| / LINE_SIZE) + [Line(text[|text| - |text| % LINE_SIZE..])], "")
  {
    ScanText(before, text);
    ScanOne(before + text, '\n');
  }

  lemma {:induction false} RepeatLength(f: Frame, n: nat)
    ensures |Repeat(f, n)| == n
  {
    if n > 0 {
      RepeatLength(f, n - 1);
    }
  }

  /** One request line gets one frame, hence one response, exactly when it has at most
      1023 bytes; the protocol document promises it for every line. */
  lemma OneFramePerLine(before: string, text: string)
    requires Scan(before).partial == "" && PlainText(text)
    ensures |Scan(before + text + "\n").frames| == |Scan(before).frames| + 1 <==> |text| <= 1023
    ensures |text| <= 1023 ==> Scan(before + text + "\n").frames == Scan(before).frames + [Line(text)]
  {
    ScanLine(before, text);
    RepeatLength(TooLong, |text| / LINE_SIZE);
    if |text| <= 1023 {
      assert text[0..] == text;
    }
  }

  /** Requests ended by LF, or by CRLF. */
  function Join(lines: seq<string>, crlf: bool): string {
    if lines == [] then ""
    else Join(lines[..|lines| - 1], crlf) + lines[|lines| - 1] + if crlf then "\r\n" else "\n"
  }

  function AsFrames(lines: seq<string>): (fs: seq<Frame>)
    ensures |fs| == |lines|
  {
    if lines == [] then [] else AsFrames(lines[..|lines| - 1]) + [Line(lines[|lines| - 1])]
  }

  /** CR is ignored, so CRLF ends a line like LF. */
  lemma CrLf(s: string)
    ensures Scan(s + "\r\n") == Scan(s + "\n")
  {
    ScanOne(s, '\r');
    ScanOne(s + "\r", '\n');
    ScanOne(s, '\n');
    assert s + "\r\n" == s + "\r" + "\n";
  }

  /** Well-formed requests are framed back to themselves. */
  lemma {:induction false} JoinScans(lines: seq<string>, crlf: bool)
    requires forall t :: t in lines ==> PlainText(t) && |t| <= 1023
    ensures Scan(Join(lines, crlf)) == Scanned(AsFrames(lines), "")
    decreases |lines|
  {
    if lines != [] {
      var front, last := lines[..|lines| - 1], lines[|lines| - 1];
      JoinScans(front, crlf);
      var before := Join(front, crlf);
      OneFramePerLine(before, last);
      ScanLine(before, last);
      CrLf(before + last);
    }
  }

  // ----- words

  /** isspace in the C locale. */
  predicate IsSpace(c: char) {
    c == ' ' || 9 <= c as int <= 13
  }

  function SkipSpaces(s: string): string {
    if s != "" && IsSpace(s[0]) then SkipSpaces(s[1..]) else s
  }

  function WordLength(s: string): (n: nat)
    ensures n <= |s|
  {
    if s == "" || IsSpace(s[0]) then 0 else 1 + WordLength(s[1..])
  }

  lemma {:induction false} SkipShortens(s: string)
    ensures |SkipSpaces(s)| <= |s|
    ensures SkipSpaces(s) != "" ==> WordLength(SkipSpaces(s)) > 0
    ensures SkipSpaces(SkipSpaces(s)) == SkipSpaces(s)
  {
    if s != "" && IsSpace(s[0]) {
      SkipShortens(s[1..]);
    }
  }

  /** The words of a line. */
  function Words(s: string): seq<string>
    decreases |s|
  {
    var t := SkipSpaces(s);
    SkipShortens(s);
    if t == "" then [] else [t[..WordLength(t)]] + Words(t[WordLength(t)..])
  }

  /** What a C string function sees of the line buffer. */
  function CText(s: string): string {
    if s == "" || s[0] == '\0' then "" else [s[0]] + CText(s[1..])
  }

  lemma {:induction false} SkipEnds(s: string, c: char)
    requires IsSpace(c)
    ensures SkipSpaces(s + [c]) == if SkipSpaces(s) == "" then "" else SkipSpaces(s) + [c]
  {
    if s == "" {
      assert s + [c] == [c];
      assert [c][1..] == "";
    } else if IsSpace(s[0]) {
      assert (s + [c])[1..] == s[1..] + [c];
      SkipEnds(s[1..], c);
    }
  }

  lemma {:induction false} WordEnds(s: string, c: char)
    requires IsSpace(c)
    ensures WordLength(s + [c]) == WordLength(s)
  {
    if s != "" && !IsSpace(s[0]) {
      assert (s + [c])[1..] == s[1..] + [c];
      WordEnds(s[1..], c);
    }
  }

  /** Trailing white space carries no words. */
  lemma {:induction false} TrimKeepsWords(s: string, c: char)
    requires IsSpace(c)
    ensures Words(s + [c]) == Words(s)
    decreases |s|
  {
    SkipEnds(s, c);
    var t := SkipSpaces(s);
    if t != "" {
      WordEnds(t, c);
      var n := WordLength(t);
      SkipShortens(s);
      assert (t + [c])[..n] == t[..n];
      assert (t + [c])[n..] == t[n..] + [c];
      TrimKeepsWords(t[n..], c);
    }
  }

  /** trim_right. */
  method TrimRight(s: string) returns (t: string)
    ensures t <= s && Words(t) == Words(s)
    ensures t != "" ==> !IsSpace(t[|t| - 1])
  {
    var n := |s|;
    assert s[..n] == s;
    while n > 0 && IsSpace(s[n - 1])
      invariant n <= |s| && Words(s[..n]) == Words(s)
    {
      TrimKeepsWords(s[..n - 1], s[n - 1]);
      assert s[..n] == s[..n - 1] + [s[n - 1]];
      n := n - 1;
    }
    t := s[..n];
  }

  lemma {:induction false} SkipOne(s: string)
    requires s != "" && IsSpace(s[0])
    ensures Words(s[1..]) == Words(s)
  {
  }

  lemma FirstWord(s: string)
    requires s != "" && !IsSpace(s[0])
    ensures Words(s) == [s[..WordLength(s)]] + Words(s[WordLength(s)..])
  {
    assert SkipSpaces(s) == s;
  }

  /** The first loop of next_token. */
  method SkipBlank(s: string, cursor: nat) returns (i: nat)
    requires cursor <= |s|
    ensures cursor <= i <= |s| && Words(s[cursor..]) == Words(s[i..])
    ensures i < |s| ==> !IsSpace(s[i])
  {
    i := cursor;
    while i < |s| && IsSpace(s[i])
      invariant cursor <= i <= |s| && Words(s[cursor..]) == Words(s[i..])
    {
      assert s[i..][1..] == s[i + 1..];
      SkipOne(s[i..]);
      i := i + 1;
    }
  }

  /** The second. */
  method SkipWord(s: string, start: nat) returns (i: nat)
    requires start < |s| && !IsSpace(s[start])
    ensures start < i <= |s| && WordLength(s[start..]) == i - start
    ensures i < |s| ==> IsSpace(s[i])
  {
    i := start;
    while i < |s| && !IsSpace(s[i])
      invariant start <= i <= |s| && WordLength(s[start..]) == i - start + WordLength(s[i..])
    {
      assert s[i..][1..] == s[i + 1..];
      i := i + 1;
    }
  }

  /** next_token: the first word from cursor on, and the cursor behind it. */
  method NextToken(s: string, cursor: nat) returns (token: string, next: nat)
    requires cursor <= |s|
    ensures next <= |s|
    ensures Words(s[cursor..]) == if token == "" then [] else [token] + Words(s[next..])
    ensures token == "" ==> next == |s|
  {
    var start := SkipBlank(s, cursor);
    if start == |s| {
      return "", start;
    }
    var i := SkipWord(s, start);
    token, next := s[start..i], i;
    FirstWord(s[start..]);
    assert s[start..][..i - start] == token && s[start..][i - start..] == s[i..];
    if i < |s| {
      SkipOne(s[i..]);
      assert s[i..][1..] == s[i + 1..];
      next := i + 1;
    }
  }
}
