/** The loop shared by hello_consume, auth_consume and request_consume: take one
    byte, step the state, stop right after the byte that made the state final. */
module Incremental {
  import opened Bytes

  datatype Fed<+S> = Fed(state: S, used: nat)

  function Feed<S>(step: (S, byte) -> S, final: S -> bool, s: S, input: seq<byte>): (r: Fed<S>)
    ensures r.used <= |input|
    decreases |input|
  {
    if input == [] then Fed(s, 0)
    else
      var t := step(s, input[0]);
      if final(t) then Fed(t, 1)
      else
        var r := Feed(step, final, t, input[1..]);
        Fed(r.state, r.used + 1)
  }

  /** A result counted from n bytes earlier. */
  function Later<S>(n: nat, r: Fed<S>): Fed<S> {
    Fed(r.state, n + r.used)
  }

  /** One turn of the loop. */
  lemma {:induction false} FeedOne<S>(step: (S, byte) -> S, final: S -> bool, s: S, input: seq<byte>, t: S)
    requires input != [] && t == step(s, input[0])
    ensures Feed(step, final, s, input) == if final(t) then Fed(t, 1) else Later(1, Feed(step, final, t, input[1..]))
  {
  }

  /** The same turn, seen from a loop that has already used n bytes. */
  lemma {:induction false} FeedTurn<S>(step: (S, byte) -> S, final: S -> bool, whole: Fed<S>, n: nat, s: S, rest: seq<byte>, t: S)
    requires rest != [] && t == step(s, rest[0])
    requires whole == Later(n, Feed(step, final, s, rest))
    ensures whole == if final(t) then Fed(t, n + 1) else Later(n + 1, Feed(step, final, t, rest[1..]))
  {
  }

  function Flatten(chunks: seq<seq<byte>>): seq<byte> {
    if chunks == [] then [] else chunks[0] + Flatten(chunks[1..])
  }

  /** Chunk by chunk, as successive recv calls deliver them. */
  function FeedChunks<S>(step: (S, byte) -> S, final: S -> bool, s: S, chunks: seq<seq<byte>>): Fed<S>
    decreases |chunks|
  {
    if chunks == [] then Fed(s, 0)
    else
      var r := Feed(step, final, s, chunks[0]);
      if final(r.state) then r
      else
        var q := FeedChunks(step, final, r.state, chunks[1..]);
        Fed(q.state, r.used + q.used)
  }

  /** Cutting the input in two changes neither the state nor the deciding byte.
      The side condition is exact: a parser that is already final swallows one byte. */
  lemma {:induction false} FeedSplit<S>(step: (S, byte) -> S, final: S -> bool, s: S, a: seq<byte>, b: seq<byte>)
    requires a != [] || !final(s)
    ensures var r := Feed(step, final, s, a);
            && (!final(r.state) ==> r.used == |a|)
            && (var q := Feed(step, final, r.state, b);
                Feed(step, final, s, a + b) == if final(r.state) then r else Fed(q.state, |a| + q.used))
    decreases |a|
  {
    if a == [] {
      assert a + b == b;
    } else {
      assert (a + b)[1..] == a[1..] + b;
      var t := step(s, a[0]);
      if !final(t) {
        FeedSplit(step, final, t, a[1..], b);
      }
    }
  }

  /** Any fragmentation of the stream parses like the whole stream. */
  lemma {:induction false} AnyFragmentation<S>(step: (S, byte) -> S, final: S -> bool, s: S, chunks: seq<seq<byte>>)
    requires !final(s)
    ensures FeedChunks(step, final, s, chunks) == Feed(step, final, s, Flatten(chunks))
    decreases |chunks|
  {
    if chunks != [] {
      var r := Feed(step, final, s, chunks[0]);
      FeedSplit(step, final, s, chunks[0], Flatten(chunks[1..]));
      if !final(r.state) {
        AnyFragmentation(step, final, r.state, chunks[1..]);
      }
    }
  }

  /** Bytes after the deciding one have no influence. */
  lemma {:induction false} OnlyUsedBytesMatter<S>(step: (S, byte) -> S, final: S -> bool, s: S, input: seq<byte>)
    requires !final(s)
    ensures var r := Feed(step, final, s, input);
            Feed(step, final, s, input[..r.used]) == r
    decreases |input|
  {
    if input != [] {
      var t := step(s, input[0]);
      var r := Feed(step, final, s, input);
      assert input[..r.used][1..] == input[1..][..r.used - 1];
      if !final(t) {
        OnlyUsedBytesMatter(step, final, t, input[1..]);
      }
    }
  }

  /** A message that has been consumed so far and is still open, and the bytes the
      next turn consumes, are together what a parser that saw only them consumed. */
  lemma Extend<S>(step: (S, byte) -> S, final: S -> bool, start: S, msg: seq<byte>, s: S, input: seq<byte>)
    requires !final(start) && !final(s)
    requires Feed(step, final, start, msg) == Fed(s, |msg|)
    ensures var r := Feed(step, final, s, input);
            && Feed(step, final, start, msg + input[..r.used]) == Fed(r.state, |msg| + r.used)
            && (!final(r.state) ==> r.used == |input|)
  {
    var r := Feed(step, final, s, input);
    OnlyUsedBytesMatter(step, final, s, input);
    FeedSplit(step, final, start, msg, input[..r.used]);
    FeedSplit(step, final, s, input, []);
  }
}
