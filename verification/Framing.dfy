/** How DoSFTPProtocol cuts the input stream into messages. */
module Framing {
  import opened Bytes

  const MAX_MESSAGE: nat := 256 * 1024

  /** What follows the type byte. */
  type Body = b: bytes | |b| < MAX_MESSAGE

  datatype Msg = Msg(kind: byte, body: Body)

  /** What the first bytes of the unread input allow. */
  datatype Head = Wait | Reject | Empty | Whole(size: nat)

  /** A length with the sign bit set reads as negative: it is not too long, and never complete. */
  function HeadOf(u: bytes): (h: Head)
    ensures h.Whole? ==> 0 < h.size <= MAX_MESSAGE && 4 + h.size <= |u|
  {
    if |u| < 5 then Wait
    else
      var n := Dec32(u);
      if MAX_MESSAGE < n < 0x8000_0000 then Reject
      else if n == 0 then Empty
      else if n >= 0x8000_0000 || |u| - 4 < n then Wait
      else Whole(n)
  }

  /** The messages of a stream, the bytes after them, and why it stopped there. */
  datatype Parsed = Parsed(msgs: seq<Msg>, rest: bytes, why: Head)

  function First(u: bytes): Msg
    requires HeadOf(u).Whole?
  {
    Msg(u[4], u[5..4 + HeadOf(u).size])
  }

  function After(u: bytes): (r: bytes)
    requires HeadOf(u).Whole?
    ensures |r| < |u|
  {
    u[4 + HeadOf(u).size..]
  }

  function Parse(u: bytes): (p: Parsed)
    ensures !p.why.Whole? && HeadOf(p.rest) == p.why
    decreases |u|
  {
    var h := HeadOf(u);
    if h.Whole? then
      var p := Parse(After(u));
      Parsed([First(u)] + p.msgs, p.rest, p.why)
    else Parsed([], u, h)
  }

  /** A head that is not waiting stays what it is when more bytes arrive. */
  lemma HeadIsFinal(u: bytes, more: bytes)
    requires !HeadOf(u).Wait?
    ensures HeadOf(u + more) == HeadOf(u)
    ensures HeadOf(u).Whole? ==> First(u + more) == First(u) && After(u + more) == After(u) + more
  {
    var w := u + more;
    assert w[0] == u[0] && w[1] == u[1] && w[2] == u[2] && w[3] == u[3];
    if HeadOf(u).Whole? {
      var n := HeadOf(u).size;
      assert w[5..4 + n] == u[5..4 + n];
    }
  }

  /** Parsing goes on where it stopped: bytes may arrive in any portions. */
  lemma {:induction false} ParseAppend(u: bytes, more: bytes)
    ensures var p := Parse(u);
            if p.why.Wait? then
              var q := Parse(p.rest + more);
              Parse(u + more) == Parsed(p.msgs + q.msgs, q.rest, q.why)
            else
              Parse(u + more) == Parsed(p.msgs, p.rest + more, p.why)
    decreases |u|
  {
    hide HeadOf;
    var h := HeadOf(u);
    if h.Whole? {
      HeadIsFinal(u, more);
      ParseAppend(After(u), more);
      var p := Parse(After(u));
      var q := Parse(p.rest + more);
      assert [First(u)] + (p.msgs + q.msgs) == [First(u)] + p.msgs + q.msgs;
    } else if h.Wait? {
      assert [] + Parse(u + more).msgs == Parse(u + more).msgs;
    } else {
      HeadIsFinal(u, more);
    }
  }

  /** The bytes of the messages and the rest are the stream: nothing is lost, added or moved. */
  function Unparse(ms: seq<Msg>): bytes {
    if ms == [] then [] else EncString([ms[0].kind] + ms[0].body) + Unparse(ms[1..])
  }

  lemma {:induction false} ParseLosesNothing(u: bytes)
    ensures Unparse(Parse(u).msgs) + Parse(u).rest == u
    decreases |u|
  {
    hide HeadOf, EncString, First, After;
    if HeadOf(u).Whole? {
      var p := Parse(After(u));
      ParseLosesNothing(After(u));
      FirstUnparsed(u);
      UnparseCons(First(u), p.msgs);
    } else {
      assert [] + u == u;
    }
  }

  lemma UnparseCons(m: Msg, ms: seq<Msg>)
    ensures Unparse([m] + ms) == EncString([m.kind] + m.body) + Unparse(ms)
  {
    assert ([m] + ms)[1..] == ms;
  }

  lemma FirstUnparsed(u: bytes)
    requires HeadOf(u).Whole?
    ensures EncString([First(u).kind] + First(u).body) + After(u) == u
  {
    hide Enc32, Dec32;
    var n := HeadOf(u).size;
    EncOfDec32(u[..4]);
    assert Dec32(u[..4]) == Dec32(u) by {
      SameHead(u);
    }
    assert [First(u).kind] + First(u).body == u[4..4 + n];
    assert u[..4] + u[4..4 + n] + u[4 + n..] == u;
  }

  lemma SameHead(u: bytes)
    requires |u| >= 4
    ensures Dec32(u[..4]) == Dec32(u)
  {
  }

  /** Every list of messages that fit is what its bytes parse to. */
  lemma {:induction false} UnparseParses(ms: seq<Msg>)
    ensures Parse(Unparse(ms)) == Parsed(ms, [], Wait)
    decreases |ms|
  {
    if ms != [] {
      var m := ms[0];
      var b: text := [m.kind] + m.body;
      var rest := Unparse(ms[1..]);
      UnparseParses(ms[1..]);
      OneMessage(m, rest);
      assert Unparse(ms) == EncString(b) + rest;
      assert ms == [m] + ms[1..];
    }
  }

  lemma OneMessage(m: Msg, rest: bytes)
    ensures var u := EncString([m.kind] + m.body) + rest;
            HeadOf(u).Whole? && First(u) == m && After(u) == rest
  {
    hide Enc32, Dec32;
    var b: text := [m.kind] + m.body;
    var u := EncString(b) + rest;
    assert u == Enc32(|b|) + (b + rest);
    Dec32OfEnc(|b|, b + rest);
    assert u[4] == b[0] && u[5..4 + |b|] == m.body;
  }
}
