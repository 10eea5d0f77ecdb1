/** SftpMain of Sftp.c: bytes in, messages handled, bytes out, under a quota per accounting period. */
module MainLoop {
  import opened Wrappers
  import opened Bytes
  import opened Buffers
  import opened UserTable
  import opened Handles
  import opened Replies
  import opened Framing
  import opened Protocol
  import opened SessionRuns
  import opened Session
  import opened WhoTable

  const SSH2_MAX_PACKET: nat := 131072

  /**
    What a turn of the loop finds: a request to shut down, or a failing select(); nothing but a signal;
    a time-out, after which the shares are those of the last sweep; or what the system can give, or take,
    without blocking: a number of bytes, which is no more than 0 at the end of the input or on an error.
   */
  datatype Wake =
    | Stopped
    | Interrupted
    | TimedOut(downShare: u32, upShare: u32)
    | Ready(input: Option<nat>, output: Option<int>)

  /** All that the client will ever send, and what the system will answer to each message of it. */
  datatype Client = Client(stream: bytes, envs: seq<Env>)

  ghost predicate Serves(start: Sess, c: Client, cfg: Config, dbs: Databases) {
    var p := Parse(c.stream);
    && |c.stream| < 0x8000_0000 && !p.why.Empty?
    && |p.msgs| <= |c.envs| && Legal(start, Zip(p.msgs, c.envs), cfg, dbs)
  }

  ghost function Inputs(start: Sess, c: Client, cfg: Config, dbs: Databases): (ins: seq<Input>)
    requires Serves(start, c, cfg, dbs)
    ensures |ins| == |Parse(c.stream).msgs| <= |c.envs| && Legal(start, ins, cfg, dbs)
  {
    Zip(Parse(c.stream).msgs, c.envs)
  }

  /** The first k messages lead to state s with these replies. */
  ghost predicate Done(start: Sess, c: Client, cfg: Config, dbs: Databases, k: nat, s: Sess, out: seq<text>)
    requires Serves(start, c, cfg, dbs)
  {
    var ins := Inputs(start, c, cfg, dbs);
    k <= |ins| && Legal(start, ins[..k], cfg, dbs) && Run(start, ins[..k], cfg, dbs) == (s, out)
  }

  /** What has been received holds k complete messages of the stream, and then `rest`. */
  ghost predicate CutAt(c: Client, received: bytes, k: nat, rest: bytes) {
    && received <= c.stream && k <= |Parse(c.stream).msgs|
    && Parse(received) == Parsed(Parse(c.stream).msgs[..k], rest, Wait)
  }

  lemma NothingYet(start: Sess, c: Client, cfg: Config, dbs: Databases)
    requires Serves(start, c, cfg, dbs)
    ensures Done(start, c, cfg, dbs, 0, start, []) && CutAt(c, [], 0, [])
  {
    hide Run, Legal;
    assert Inputs(start, c, cfg, dbs)[..0] == [];
    RunEmpty(start, cfg, dbs);
  }

  /** The prefix of a stream parses to a prefix of its messages. */
  lemma ParsePrefix(c: Client, received: bytes)
    requires received <= c.stream
    ensures var p, q := Parse(received), Parse(c.stream);
            && |p.msgs| <= |q.msgs| && p.msgs == q.msgs[..|p.msgs|]
            && (!p.why.Wait? ==> |p.msgs| == |q.msgs| && p.why == q.why)
            && |p.rest| <= |c.stream|
  {
    hide Parse, Unparse;
    ParseAppend(received, c.stream[|received|..]);
    assert received + c.stream[|received|..] == c.stream;
    ParseLosesNothing(received);
  }

  /** More bytes: the messages completed by them are the next ones of the stream. */
  lemma Arrival(start: Sess, c: Client, cfg: Config, dbs: Databases, received: bytes, k: nat, rest: bytes, chunk: bytes)
    requires Serves(start, c, cfg, dbs) && CutAt(c, received, k, rest) && received + chunk <= c.stream
    ensures var q, ms := Parse(rest + chunk), Parse(c.stream).msgs;
            && !q.why.Empty? && |rest + chunk| < 0x8000_0000
            && k + |q.msgs| <= |ms| <= |c.envs| && |Parse(received + chunk).msgs| == k + |q.msgs|
            && q.msgs == ms[k..k + |q.msgs|] && Parse(received + chunk).why == q.why
            && (q.why.Wait? ==> CutAt(c, received + chunk, k + |q.msgs|, q.rest))
  {
    hide Parse, Legal, Run;
    ParseAppend(received, chunk);
    ParsePrefix(c, received + chunk);
    ParseLosesNothing(received);
    var q, ms := Parse(rest + chunk), Parse(c.stream).msgs;
    assert ms[..k + |q.msgs|] == ms[..k] + q.msgs;
    assert ms[..k + |q.msgs|][k..] == q.msgs;
  }

  lemma ZipPart(ms: seq<Msg>, envs: seq<Env>, k: nat, j: nat)
    requires k + j <= |ms| <= |envs|
    ensures Zip(ms[k..k + j], envs[k..]) == Zip(ms, envs)[k..k + j]
  {
  }

  /** Going on from k messages to k + j. */
  lemma Continue(start: Sess, c: Client, cfg: Config, dbs: Databases, k: nat, j: nat, s: Sess, out: seq<text>)
    requires Serves(start, c, cfg, dbs) && Done(start, c, cfg, dbs, k, s, out)
    requires k + j <= |Inputs(start, c, cfg, dbs)|
    ensures var more := Inputs(start, c, cfg, dbs)[k..k + j];
            && Legal(s, more, cfg, dbs)
            && var (s', new') := Run(s, more, cfg, dbs);
               Done(start, c, cfg, dbs, k + j, s', out + new')
  {
    hide Run, Legal;
    var ins := Inputs(start, c, cfg, dbs);
    LegalPrefix(start, ins, cfg, dbs, k + j);
    RunSplit(start, ins[..k + j], cfg, dbs, k);
    assert ins[..k + j][..k] == ins[..k];
    assert ins[..k + j][k..] == ins[k..k + j];
  }

  /** One direction's quota: at most `limit` bytes a period, none at all being meant by 0. */
  ghost predicate WithinQuota(limit: u32, current: u32, moved: nat) {
    current == moved % 0x1_0000_0000 && (limit > 0 ==> moved <= limit)
  }

  /**
    What the client makes of the first n bytes of the output: its packet number j answers its
    message number j, and when it has all the output there is a packet for every message handled.
   */
  lemma ClientView(start: Sess, c: Client, cfg: Config, dbs: Databases, k: nat, s: Sess, out: seq<text>, n: nat)
    requires Serves(start, c, cfg, dbs) && Done(start, c, cfg, dbs, k, s, out) && n <= |FrameAll(out)|
    ensures var ps, ms := Packets(FrameAll(out)[..n]), Parse(c.stream).msgs;
            && |ps| <= k <= |ms| && (n == |FrameAll(out)| ==> |ps| == k)
            && forall j :: 0 <= j < |ps| ==> Answers(PhaseAfter(PhaseOf(start), ms[..j]), ms[j], ps[j])
  {
    hide Run, Legal, Parse, Answers, Packets, FrameAll, PhaseAfter;
    var ins, ms := Inputs(start, c, cfg, dbs), Parse(c.stream).msgs;
    OneReplyEach(start, ins[..k], cfg, dbs);
    ClientSeesPackets(out, n);
    assert Msgs(ins[..k]) == ms[..k];
    assert forall j :: 0 <= j < k ==> ms[..k][..j] == ms[..j];
  }

  // ----- quotas -----

  /** The bytes that the sessions taking part have moved in one period. */
  function TotalMoved(ss: seq<Slot>, moved: seq<nat>, d: Direction): nat
    requires |moved| == |ss|
  {
    if ss == [] then 0
    else TotalMoved(ss[..|ss| - 1], moved[..|ss| - 1], d) + if Sharing(ss[|ss| - 1], d) then moved[|ss| - 1] else 0
  }

  lemma {:induction false} MovedWithinTotal(ss: seq<Slot>, share: u32, moved: seq<nat>, d: Direction)
    requires |moved| == |ss|
    requires forall i :: 0 <= i < |ss| && Sharing(ss[i], d) ==> moved[i] <= Effective(OwnLimit(ss[i], d), share, false)
    ensures TotalMoved(ss, moved, d) <= TotalLimit(ss, share, d)
    decreases |ss|
  {
    hide Sharing, Effective, OwnLimit;
    if ss != [] {
      MovedWithinTotal(ss[..|ss| - 1], share, moved[..|ss| - 1], d);
    }
  }

  /**
    Sessions that keep to the quotas of one sweep move together, in a period, no more than the
    global limit, if that allows a byte to each that is active.
   */
  lemma PeriodWithinGlobalLimit(ss: seq<Slot>, limit: u32, moved: seq<nat>, current: seq<u32>, d: Direction)
    requires 0 < ActiveCount(ss, d) <= limit && |moved| == |ss| == |current|
    requires var share := Share(limit, ActiveCount(ss, d));
             forall i :: 0 <= i < |ss| && Sharing(ss[i], d) ==>
               WithinQuota(Effective(OwnLimit(ss[i], d), share, false), current[i], moved[i])
    ensures TotalMoved(ss, moved, d) <= limit
  {
    hide Sharing, Effective, OwnLimit, ActiveCount, TotalLimit, TotalMoved, Share;
    GlobalLimitKept(ss, limit, d);
    var share := Share(limit, ActiveCount(ss, d));
    assert forall i :: 0 <= i < |ss| && Sharing(ss[i], d) ==> ss[i] in ss;
    MovedWithinTotal(ss, share, moved, d);
  }

  function Min(a: nat, b: nat): nat {
    if a < b then a else b
  }

  // ----- one turn, in numbers of bytes -----

  /** How far a session is: the bytes received and sent, and the counters and limits of this period. */
  datatype Progress = Progress(received: nat, sent: nat, up: u32, upMax: u32, down: u32, downMax: u32)

  /** The limits that an administrator has given a session, and those that it may bypass. */
  datatype Own = Own(down: u32, up: u32, bypassDown: bool, bypassUp: bool)

  function ReadLimit(limit: u32, current: u32): nat
    requires limit == 0 || current < limit
  {
    if limit > 0 then Min(SSH2_MAX_PACKET, limit - current) else SSH2_MAX_PACKET
  }

  /** All replies to the messages that are complete in the first n bytes. */
  ghost function RepliesTo(start: Sess, c: Client, cfg: Config, dbs: Databases, n: nat): bytes
    requires Serves(start, c, cfg, dbs) && n <= |c.stream|
  {
    var ins := Inputs(start, c, cfg, dbs);
    ParsePrefix(c, c.stream[..n]);
    LegalPrefix(start, ins, cfg, dbs, |Parse(c.stream[..n]).msgs|);
    FrameAll(Run(start, ins[..|Parse(c.stream[..n]).msgs|], cfg, dbs).1)
  }

  /** read() gives what has come, what the quota allows, or all that is left; nothing, or a message that is too long, ends the process. */
  ghost function AfterRead(c: Client, p: Progress, input: nat): (Progress, bool)
    requires p.received <= |c.stream| && (p.upMax == 0 || p.up < p.upMax)
  {
    var n := Min(Min(input, ReadLimit(p.upMax, p.up)), |c.stream| - p.received);
    if n == 0 then (p, false)
    else
      var m := p.received + n;
      (p.(received := m, up := (p.up + n) % 0x1_0000_0000), Parse(c.stream[..m]).why.Wait?)
  }

  /** write() takes what it can, what the quota allows, or all that waits. */
  function AfterWrite(p: Progress, output: int, waiting: nat): (Progress, bool)
    requires p.downMax == 0 || p.down < p.downMax
  {
    if output < 0 then (p, false)
    else
      var n := Min(output, if p.downMax > 0 then Min(waiting, p.downMax - p.down) else waiting);
      (p.(sent := p.sent + n, down := (p.down + n) % 0x1_0000_0000), true)
  }

  /** One turn of the loop; which descriptors are watched is decided before anything is read. */
  ghost function Next(start: Sess, c: Client, cfg: Config, dbs: Databases, own: Own, p: Progress, w: Wake): (r: (Progress, bool))
    requires Serves(start, c, cfg, dbs) && p.received <= |c.stream|
    ensures r.0.received <= |c.stream|
  {
    match w
    case Stopped => (p, false)
    case Interrupted => (p, true)
    case TimedOut(downShare, upShare) =>
      (p.(up := 0, down := 0, upMax := Effective(own.up, upShare, own.bypassUp),
          downMax := Effective(own.down, downShare, own.bypassDown)), true)
    case Ready(input, output) =>
      var fdR := p.upMax == 0 || p.up < p.upMax;
      var fdW := |RepliesTo(start, c, cfg, dbs, p.received)| > p.sent && (p.downMax == 0 || p.down < p.downMax);
      WhenReady(start, c, cfg, dbs, p, fdR, fdW, input, output)
  }

  /** Reading comes first; the replies to what was read may go out in the same turn. */
  ghost function WhenReady(start: Sess, c: Client, cfg: Config, dbs: Databases, p: Progress, fdR: bool, fdW: bool,
                           input: Option<nat>, output: Option<int>): (r: (Progress, bool))
    requires Serves(start, c, cfg, dbs) && p.received <= |c.stream|
    requires (fdR ==> p.upMax == 0 || p.up < p.upMax) && (fdW ==> p.downMax == 0 || p.down < p.downMax)
    ensures r.0.received <= |c.stream|
  {
    var (q, alive) := if fdR && input.Some? then AfterRead(c, p, input.value) else (p, true);
    var total := |RepliesTo(start, c, cfg, dbs, q.received)|;
    if alive && fdW && output.Some? then AfterWrite(q, output.value, if total > q.sent then total - q.sent else 0)
    else (q, alive)
  }

  lemma ReadFirst(start: Sess, c: Client, cfg: Config, dbs: Databases, p: Progress, fdR: bool, fdW: bool,
                  input: Option<nat>, output: Option<int>, q: Progress, alive: bool, waiting: nat)
    requires Serves(start, c, cfg, dbs) && p.received <= |c.stream| && q.received <= |c.stream|
    requires (fdR ==> p.upMax == 0 || p.up < p.upMax) && (fdW ==> p.downMax == 0 || p.down < p.downMax)
    requires (q, alive) == if fdR && input.Some? then AfterRead(c, p, input.value) else (p, true)
    requires q.sent + waiting == |RepliesTo(start, c, cfg, dbs, q.received)|
    ensures q.down == p.down && q.downMax == p.downMax
    ensures WhenReady(start, c, cfg, dbs, p, fdR, fdW, input, output) ==
            if alive && fdW && output.Some? then AfterWrite(q, output.value, waiting) else (q, alive)
  {
    hide Serves, RepliesTo, AfterWrite;
  }

  /** All turns, until the process ends. */
  ghost function AfterAll(start: Sess, c: Client, cfg: Config, dbs: Databases, own: Own, p: Progress, ws: seq<Wake>): (r: (Progress, bool))
    requires Serves(start, c, cfg, dbs) && p.received <= |c.stream|
    ensures r.0.received <= |c.stream|
    decreases |ws|
  {
    if ws == [] then (p, true)
    else
      var (q, alive) := Next(start, c, cfg, dbs, own, p, ws[0]);
      if alive then AfterAll(start, c, cfg, dbs, own, q, ws[1..]) else (q, false)
  }

  /** i of the turns that lead from p0 on have led to p. */
  ghost predicate Turned(start: Sess, c: Client, cfg: Config, dbs: Databases, own: Own, p0: Progress, ws: seq<Wake>, i: nat, p: Progress, alive: bool) {
    && Serves(start, c, cfg, dbs) && p0.received <= |c.stream| && p.received <= |c.stream| && i <= |ws|
    && AfterAll(start, c, cfg, dbs, own, p0, ws) ==
       if alive then AfterAll(start, c, cfg, dbs, own, p, ws[i..]) else (p, false)
  }

  lemma TurnedOnce(start: Sess, c: Client, cfg: Config, dbs: Databases, own: Own, p0: Progress, ws: seq<Wake>, i: nat, p: Progress)
    requires Turned(start, c, cfg, dbs, own, p0, ws, i, p, true) && i < |ws|
    ensures Serves(start, c, cfg, dbs) && p.received <= |c.stream|
    ensures var (q, alive) := Next(start, c, cfg, dbs, own, p, ws[i]);
            Turned(start, c, cfg, dbs, own, p0, ws, i + 1, q, alive)
  {
    hide Serves, Next;
    assert ws[i..][0] == ws[i] && ws[i..][1..] == ws[i + 1..];
  }

  lemma TurnedAll(start: Sess, c: Client, cfg: Config, dbs: Databases, own: Own, p0: Progress, ws: seq<Wake>, i: nat, p: Progress, alive: bool)
    requires Turned(start, c, cfg, dbs, own, p0, ws, i, p, alive) && (alive ==> i == |ws|)
    ensures Serves(start, c, cfg, dbs) && p0.received <= |c.stream|
    ensures AfterAll(start, c, cfg, dbs, own, p0, ws) == (p, alive)
  {
    hide Serves, Next;
  }

  /**
    A turn whose input is watched and ready takes exactly as much as there is, as one packet holds, as the quota
    leaves, and as is left of the stream; one that takes nothing is the last.
   */
  lemma TurnReads(start: Sess, c: Client, cfg: Config, dbs: Databases, own: Own, p: Progress, n: nat, output: Option<int>)
    requires Serves(start, c, cfg, dbs) && p.received <= |c.stream| && (p.upMax == 0 || p.up < p.upMax)
    ensures var (q, alive) := Next(start, c, cfg, dbs, own, p, Ready(Some(n), output));
            var k := q.received - p.received;
            && 0 <= k <= n && k <= 131072 && k <= |c.stream| - p.received && (p.upMax > 0 ==> k <= p.upMax - p.up)
            && (k == n || k == 131072 || k == |c.stream| - p.received || (p.upMax > 0 && k == p.upMax - p.up))
            && q.up == (p.up + k) % 0x1_0000_0000
            && (k == 0 ==> !alive)
            && (k > 0 && output.None? ==> (alive <==> Parse(c.stream[..q.received]).why.Wait?))
  {
    hide Parse, Serves, RepliesTo;
  }

  /** So does a turn whose output is watched and ready; nothing is watched when nothing waits. */
  lemma TurnWrites(start: Sess, c: Client, cfg: Config, dbs: Databases, own: Own, p: Progress, m: nat)
    requires Serves(start, c, cfg, dbs) && p.received <= |c.stream| && (p.downMax == 0 || p.down < p.downMax)
    requires p.sent <= |RepliesTo(start, c, cfg, dbs, p.received)|
    ensures var (q, alive) := Next(start, c, cfg, dbs, own, p, Ready(None, Some(m)));
            var k, waiting := q.sent - p.sent, |RepliesTo(start, c, cfg, dbs, p.received)| - p.sent;
            && alive && q.received == p.received
            && 0 <= k <= m && k <= waiting && (p.downMax > 0 ==> k <= p.downMax - p.down)
            && (k == m || k == waiting || (p.downMax > 0 && k == p.downMax - p.down))
            && q.down == (p.down + k) % 0x1_0000_0000
  {
    hide Parse, Serves, RepliesTo;
  }

  /** What is over its quota is not watched; a time-out, and nothing else, starts the counters again. */
  lemma TurnWaits(start: Sess, c: Client, cfg: Config, dbs: Databases, own: Own, p: Progress, w: Wake)
    requires Serves(start, c, cfg, dbs) && p.received <= |c.stream|
    ensures var (q, alive) := Next(start, c, cfg, dbs, own, p, w);
            && (p.upMax > 0 && p.up >= p.upMax ==> q.received == p.received)
            && (p.downMax > 0 && p.down >= p.downMax ==> q.sent == p.sent)
            && (w.TimedOut? ==> alive && q.up == q.down == 0 && q.received == p.received && q.sent == p.sent)
            && (w.Interrupted? ==> alive && q == p)
            && (w.Stopped? ==> !alive && q == p)
            && (!w.TimedOut? ==> q.upMax == p.upMax && q.downMax == p.downMax)
  {
    hide Parse, Serves, RepliesTo, Effective;
  }

  // ----- a session without limits ends what it was asked for -----

  /** No shutdown, no error, no limit, and input only where there is some. */
  predicate Feeds(own: Own, w: Wake) {
    match w
    case Stopped => false
    case Interrupted => true
    case TimedOut(downShare, upShare) =>
      Effective(own.up, upShare, own.bypassUp) == 0 && Effective(own.down, downShare, own.bypassDown) == 0
    case Ready(input, output) => (input.Some? ==> input.value > 0) && (output.Some? ==> output.value >= 0)
  }

  function InputOf(w: Wake): nat {
    if w.Ready? && w.input.Some? then Min(w.input.value, SSH2_MAX_PACKET) else 0
  }

  function InputOfAll(ws: seq<Wake>): nat {
    if ws == [] then 0 else InputOf(ws[0]) + InputOfAll(ws[1..])
  }

  /** The input is never read at its end. */
  predicate NeverDry(received: nat, ws: seq<Wake>, total: nat)
    decreases |ws|
  {
    ws == [] || ((InputOf(ws[0]) > 0 ==> received < total) && NeverDry(Min(total, received + InputOf(ws[0])), ws[1..], total))
  }

  /** A prefix of a stream in which no message is too long has none either. */
  lemma FinePrefix(c: Client, n: nat)
    requires n <= |c.stream| && Parse(c.stream).why.Wait?
    ensures Parse(c.stream[..n]).why.Wait?
  {
    hide Parse;
    ParsePrefix(c, c.stream[..n]);
  }

  lemma TurnArrives(start: Sess, c: Client, cfg: Config, dbs: Databases, own: Own, p: Progress, w: Wake)
    requires Serves(start, c, cfg, dbs) && p.received <= |c.stream| && p.upMax == p.downMax == 0 && Feeds(own, w)
    requires Parse(c.stream).why.Wait?
    ensures var (q, alive) := Next(start, c, cfg, dbs, own, p, w);
            && q.upMax == q.downMax == 0
            && q.received == Min(|c.stream|, p.received + InputOf(w))
            && (alive <==> (InputOf(w) > 0 ==> p.received < |c.stream|))
  {
    hide Parse, Serves, RepliesTo, Effective;
    if w.Ready? && w.input.Some? {
      FinePrefix(c, Min(|c.stream|, p.received + InputOf(w)));
    }
  }

  /**
    Without limits, whatever the wake-ups bring is read: all of the stream, as soon as they have brought as much.
    The process lives on exactly if it is never woken at the end of the input.
   */
  lemma {:induction false} StreamArrives(start: Sess, c: Client, cfg: Config, dbs: Databases, own: Own, p: Progress, ws: seq<Wake>)
    requires Serves(start, c, cfg, dbs) && p.received <= |c.stream| && p.upMax == p.downMax == 0
    requires Parse(c.stream).why.Wait? && forall w <- ws :: Feeds(own, w)
    ensures var (q, alive) := AfterAll(start, c, cfg, dbs, own, p, ws);
            && q.upMax == q.downMax == 0
            && q.received == Min(|c.stream|, p.received + InputOfAll(ws))
            && (alive <==> NeverDry(p.received, ws, |c.stream|))
    decreases |ws|
  {
    hide Parse, Serves, Next, Feeds, InputOf;
    if ws != [] {
      var (q, alive) := Next(start, c, cfg, dbs, own, p, ws[0]);
      TurnArrives(start, c, cfg, dbs, own, p, ws[0]);
      if alive {
        StreamArrives(start, c, cfg, dbs, own, q, ws[1..]);
      }
    }
  }

  predicate Drains(own: Own, w: Wake) {
    Feeds(own, w) && InputOf(w) == 0
  }

  function OutputOf(w: Wake): nat {
    if w.Ready? && w.output.Some? && w.output.value >= 0 then w.output.value else 0
  }

  function OutputOfAll(ws: seq<Wake>): nat {
    if ws == [] then 0 else OutputOf(ws[0]) + OutputOfAll(ws[1..])
  }

  lemma TurnSends(start: Sess, c: Client, cfg: Config, dbs: Databases, own: Own, p: Progress, w: Wake)
    requires Serves(start, c, cfg, dbs) && p.received <= |c.stream| && p.upMax == p.downMax == 0 && Drains(own, w)
    requires p.sent <= |RepliesTo(start, c, cfg, dbs, p.received)|
    ensures var (q, alive) := Next(start, c, cfg, dbs, own, p, w);
            && alive && q.upMax == q.downMax == 0 && q.received == p.received
            && q.sent == Min(|RepliesTo(start, c, cfg, dbs, p.received)|, p.sent + OutputOf(w))
  {
    hide Parse, Serves, RepliesTo, Effective;
  }

  /** Without limits, all replies are written as soon as the wake-ups have let as much be written. */
  lemma {:induction false} RepliesAreSent(start: Sess, c: Client, cfg: Config, dbs: Databases, own: Own, p: Progress, ws: seq<Wake>)
    requires Serves(start, c, cfg, dbs) && p.received <= |c.stream| && p.upMax == p.downMax == 0
    requires p.sent <= |RepliesTo(start, c, cfg, dbs, p.received)| && forall w <- ws :: Drains(own, w)
    ensures var (q, alive) := AfterAll(start, c, cfg, dbs, own, p, ws);
            && alive && q.received == p.received
            && q.sent == Min(|RepliesTo(start, c, cfg, dbs, p.received)|, p.sent + OutputOfAll(ws))
    decreases |ws|
  {
    hide Parse, Serves, Next, Drains, OutputOf, RepliesTo;
    if ws != [] {
      var (q, alive) := Next(start, c, cfg, dbs, own, p, ws[0]);
      TurnSends(start, c, cfg, dbs, own, p, ws[0]);
      RepliesAreSent(start, c, cfg, dbs, own, q, ws[1..]);
    }
  }

  lemma {:induction false} AfterBoth(start: Sess, c: Client, cfg: Config, dbs: Databases, own: Own, p: Progress, ws: seq<Wake>, vs: seq<Wake>)
    requires Serves(start, c, cfg, dbs) && p.received <= |c.stream|
    ensures AfterAll(start, c, cfg, dbs, own, p, ws + vs) ==
            var (q, alive) := AfterAll(start, c, cfg, dbs, own, p, ws);
            if alive then AfterAll(start, c, cfg, dbs, own, q, vs) else (q, false)
    decreases |ws|
  {
    hide Serves, Next;
    if ws == [] {
      assert ws + vs == vs;
    } else {
      assert (ws + vs)[1..] == ws[1..] + vs;
      var (q, alive) := Next(start, c, cfg, dbs, own, p, ws[0]);
      if alive {
        AfterBoth(start, c, cfg, dbs, own, q, ws[1..], vs);
      }
    }
  }

  /** More bytes, more replies. */
  lemma RepliesGrow(start: Sess, c: Client, cfg: Config, dbs: Databases, n: nat, m: nat)
    requires Serves(start, c, cfg, dbs) && n <= m <= |c.stream|
    ensures RepliesTo(start, c, cfg, dbs, n) <= RepliesTo(start, c, cfg, dbs, m)
  {
    hide Parse, Legal, Run, FrameAll, Serves;
    var a, b := c.stream[..n], c.stream[n..m];
    assert a + b == c.stream[..m];
    ParseAppend(a, b);
    ParsePrefix(c, a);
    ParsePrefix(c, c.stream[..m]);
    var ins, k, l := Inputs(start, c, cfg, dbs), |Parse(a).msgs|, |Parse(c.stream[..m]).msgs|;
    LegalPrefix(start, ins, cfg, dbs, l);
    RunSplit(start, ins[..l], cfg, dbs, k);
    assert ins[..l][..k] == ins[..k];
    FrameAllAppend(Run(start, ins[..k], cfg, dbs).1, Run(Run(start, ins[..k], cfg, dbs).0, ins[..l][k..], cfg, dbs).1);
  }

  lemma TurnOwes(start: Sess, c: Client, cfg: Config, dbs: Databases, own: Own, p: Progress, w: Wake)
    requires Serves(start, c, cfg, dbs) && p.received <= |c.stream| && p.sent <= |RepliesTo(start, c, cfg, dbs, p.received)|
    ensures var q := Next(start, c, cfg, dbs, own, p, w).0;
            p.received <= q.received && q.sent <= |RepliesTo(start, c, cfg, dbs, q.received)|
  {
    hide Parse, Serves, RepliesTo, Effective;
    var q := Next(start, c, cfg, dbs, own, p, w).0;
    RepliesGrow(start, c, cfg, dbs, p.received, q.received);
  }

  /** No more is ever sent than there are replies. */
  lemma {:induction false} NeverSendsMore(start: Sess, c: Client, cfg: Config, dbs: Databases, own: Own, p: Progress, ws: seq<Wake>)
    requires Serves(start, c, cfg, dbs) && p.received <= |c.stream| && p.sent <= |RepliesTo(start, c, cfg, dbs, p.received)|
    ensures var q := AfterAll(start, c, cfg, dbs, own, p, ws).0; q.sent <= |RepliesTo(start, c, cfg, dbs, q.received)|
    decreases |ws|
  {
    hide Serves, Next, RepliesTo;
    if ws != [] {
      var (q, alive) := Next(start, c, cfg, dbs, own, p, ws[0]);
      TurnOwes(start, c, cfg, dbs, own, p, ws[0]);
      if alive {
        NeverSendsMore(start, c, cfg, dbs, own, q, ws[1..]);
      }
    }
  }

  /**
    Without limits a session is served to its end: once the wake-ups have brought the stream, and then let as
    much be written as there are replies, everything has been received and every reply sent.
   */
  lemma ServedToTheEnd(start: Sess, c: Client, cfg: Config, dbs: Databases, own: Own, p: Progress, ws: seq<Wake>, vs: seq<Wake>)
    requires Serves(start, c, cfg, dbs) && Parse(c.stream).why.Wait? && p.upMax == p.downMax == 0
    requires p.received <= |c.stream| && p.sent <= |RepliesTo(start, c, cfg, dbs, p.received)|
    requires (forall w <- ws :: Feeds(own, w)) && (forall w <- vs :: Drains(own, w))
    requires NeverDry(p.received, ws, |c.stream|) && p.received + InputOfAll(ws) >= |c.stream|
    requires OutputOfAll(vs) >= |RepliesTo(start, c, cfg, dbs, |c.stream|)|
    ensures var (q, alive) := AfterAll(start, c, cfg, dbs, own, p, ws + vs);
            alive && q.received == |c.stream| && q.sent == |RepliesTo(start, c, cfg, dbs, |c.stream|)|
  {
    hide Parse, Serves, AfterAll, Feeds, Drains, OutputOfAll, InputOfAll, NeverDry, RepliesTo;
    var q := AfterAll(start, c, cfg, dbs, own, p, ws).0;
    StreamArrives(start, c, cfg, dbs, own, p, ws);
    NeverSendsMore(start, c, cfg, dbs, own, p, ws);
    AfterBoth(start, c, cfg, dbs, own, p, ws, vs);
    RepliesAreSent(start, c, cfg, dbs, own, q, vs);
  }

  /** The rate limiting in the session's global variables. */
  class Global {
    const ownDown: u32
    const ownUp: u32
    const bypassDown: bool
    const bypassUp: bool
    var uploadMax: u32
    var uploadCurrent: u32
    var downloadMax: u32
    var downloadCurrent: u32
    /** Bytes moved since the counters were last reset. */
    ghost var ups: nat
    ghost var downs: nat

    ghost predicate Quotas()
      reads this
    {
      WithinQuota(uploadMax, uploadCurrent, ups) && WithinQuota(downloadMax, downloadCurrent, downs)
    }

    /** The session's own limits, which are 0 when there are none, hold from the start; shares come with a time-out. */
    constructor (ownDown: u32, ownUp: u32, bypassDown: bool, bypassUp: bool)
      ensures Quotas() && ups == downs == 0 && downloadMax == ownDown && uploadMax == ownUp
      ensures uploadCurrent == downloadCurrent == 0
      ensures this.ownDown == ownDown && this.ownUp == ownUp && this.bypassDown == bypassDown && this.bypassUp == bypassUp
    {
      this.ownDown, this.ownUp, this.bypassDown, this.bypassUp := ownDown, ownUp, bypassDown, bypassUp;
      uploadMax, downloadMax, uploadCurrent, downloadCurrent, ups, downs := ownUp, ownDown, 0, 0, 0, 0;
    }

    predicate MayRead()
      reads this
    {
      uploadMax == 0 || uploadCurrent < uploadMax
    }

    predicate MayWrite()
      reads this
    {
      downloadMax == 0 || downloadCurrent < downloadMax
    }

    /** How much may be read: never more than the quota leaves. */
    method ReadSize() returns (todo: nat)
      requires MayRead()
      ensures 0 < todo <= SSH2_MAX_PACKET && (uploadMax > 0 ==> todo <= uploadMax - uploadCurrent)
      ensures todo == ReadLimit(uploadMax, uploadCurrent)
    {
      todo := SSH2_MAX_PACKET;
      if uploadMax > 0 {
        todo := Min(SSH2_MAX_PACKET, uploadMax - uploadCurrent);
      }
    }

    method CountRead(n: nat)
      requires Quotas() && (uploadMax > 0 ==> n <= uploadMax - uploadCurrent)
      modifies this`uploadCurrent, this`ups
      ensures Quotas() && Moved(n, 0) && MayWrite() == old(MayWrite())
      ensures uploadCurrent == (old(uploadCurrent) + n) % 0x1_0000_0000
    {
      uploadCurrent, ups := (uploadCurrent + n) % 0x1_0000_0000, ups + n;
    }

    method WriteSize(waiting: nat) returns (todo: nat)
      requires MayWrite()
      ensures todo <= waiting && (downloadMax > 0 ==> todo <= downloadMax - downloadCurrent)
      ensures todo == 0 <==> waiting == 0
      ensures todo == if downloadMax > 0 then Min(waiting, downloadMax - downloadCurrent) else waiting
    {
      todo := waiting;
      if downloadMax > 0 {
        todo := Min(todo, downloadMax - downloadCurrent);
      }
    }

    method CountWritten(n: nat)
      requires Quotas() && (downloadMax > 0 ==> n <= downloadMax - downloadCurrent)
      modifies this`downloadCurrent, this`downs
      ensures Quotas() && Moved(0, n) && MayRead() == old(MayRead())
      ensures downloadCurrent == (old(downloadCurrent) + n) % 0x1_0000_0000
    {
      downloadCurrent, downs := (downloadCurrent + n) % 0x1_0000_0000, downs + n;
    }

    /** A time-out ends the period: the counters start again, and only then the limits change. */
    method NewPeriod(downShare: u32, upShare: u32)
      modifies this
      ensures Quotas() && ups == downs == 0 && uploadCurrent == downloadCurrent == 0
      ensures downloadMax == Effective(ownDown, downShare, bypassDown) && uploadMax == Effective(ownUp, upShare, bypassUp)
    {
      uploadCurrent, downloadCurrent, ups, downs := 0, 0, 0, 0;
      downloadMax := ownDown;
      if downShare > 0 && !bypassDown && (downShare < downloadMax || downloadMax == 0) {
        downloadMax := downShare;
      }
      uploadMax := ownUp;
      if upShare > 0 && !bypassUp && (upShare < uploadMax || uploadMax == 0) {
        uploadMax := upShare;
      }
    }

    /** The limits are as they were, and so many more bytes have been moved. */
    twostate predicate Moved(up: int, down: int)
      reads this
    {
      uploadMax == old(uploadMax) && downloadMax == old(downloadMax) && ups == old(ups) + up && downs == old(downs) + down
    }
  }

  class Server {
    const session: Session
    const client: Client
    const gl: Global
    ghost const start: Sess
    /** What the client has still to send. */
    var pending: bytes
    var handled: nat
    ghost var received: bytes
    ghost var sent: bytes
    ghost var replies: seq<text>

    /** The output is what has been written, then what is waiting; it is the replies to the messages handled. */
    ghost predicate Output(sent: bytes, handled: nat, replies: seq<text>)
      reads session, session.bIn, session.bOut, session.table
    {
      && session.bOut.read == 0
      && sent + session.bOut.content == FrameAll(replies)
      && Serves(start, client, session.cfg, session.dbs)
      && Done(start, client, session.cfg, session.dbs, handled, session.State(), replies)
    }

    /** What holds at all times, even when the process is about to end. */
    ghost predicate Kept()
      reads this, gl, session, session.bIn, session.bIn.data, session.bOut, session.bOut.data
      reads session.table, session.table.slots, session.users, session.users.tb, session.groups, session.groups.tb
    {
      && session.Valid() && gl.Quotas() && Output(sent, handled, replies)
      && received + pending == client.stream && handled == |Parse(received).msgs|
    }

    ghost predicate Valid()
      reads this, gl, session, session.bIn, session.bIn.data, session.bOut, session.bOut.data
      reads session.table, session.table.slots, session.users, session.users.tb, session.groups, session.groups.tb
    {
      Kept() && CutAt(client, received, handled, session.bIn.Unread())
    }

    ghost function Now(): Progress
      reads this, gl
    {
      Progress(|received|, |sent|, gl.uploadCurrent, gl.uploadMax, gl.downloadCurrent, gl.downloadMax)
    }

    ghost function OwnLimits(): Own {
      Own(gl.ownDown, gl.ownUp, gl.bypassDown, gl.bypassUp)
    }

    ghost function Footprint(): set<object>
      reads this, session, session.bIn, session.bOut, session.users, session.groups
    {
      {this, gl} + session.Footprint()
    }

    constructor (session: Session, client: Client, gl: Global)
      requires session.Valid() && session.bIn.content == [] && session.bOut.content == [] && gl.Quotas()
      requires Serves(session.State(), client, session.cfg, session.dbs)
      ensures Valid() && this.session == session && this.client == client && this.gl == gl && start == session.State()
      ensures received == [] && sent == []
    {
      hide Parse, Legal, Done, Serves;
      this.session, this.client, this.gl, this.start := session, client, gl, session.State();
      pending, handled, received, sent, replies := client.stream, 0, [], [], [];
      new;
      NothingYet(start, client, session.cfg, session.dbs);
      assert [] + [] == FrameAll([]);
    }

    /** read(): the bytes go behind the unread input. */
    method Fill(chunk: bytes, todo: nat)
      requires session.Valid() && |chunk| <= todo && Output(sent, handled, replies)
      modifies session.Footprint()
      ensures session.Valid() && Output(sent, handled, replies) && unchanged(this) && unchanged(gl)
      ensures fresh(session.Footprint() - old(session.Footprint()))
      ensures session.bIn.Unread() == old(session.bIn.Unread()) + chunk
    {
      hide Caches, Sound, Serves, Done, FrameAll;
      var b := session.bIn;
      ghost var was := b.content;
      b.BufferEnsureFreeCapacity(todo);
      b.ReadInto(chunk);
      b.BufferIncrCurrentWritePosition(|chunk|);
      assert b.content == was + chunk && b.content[b.read..] == was[b.read..] + chunk;
    }

    /** DoSFTPProtocol on the input as it is now, `chunk` being new. */
    method Process(ghost rest: bytes, ghost chunk: bytes) returns (alive: bool, k: nat, ghost more: seq<text>)
      requires session.Valid() && Output(sent, handled, replies)
      requires CutAt(client, received, handled, rest) && session.bIn.Unread() == rest + chunk
      requires received + chunk <= client.stream
      modifies session.Footprint()
      ensures session.Valid() && fresh(session.Footprint() - old(session.Footprint())) && unchanged(this) && unchanged(gl)
      ensures Output(sent, handled + k, replies + more)
      ensures handled + k == |Parse(received + chunk).msgs|
      ensures alive ==> CutAt(client, received + chunk, handled + k, session.bIn.Unread())
      ensures alive <==> Parse(received + chunk).why.Wait?
    {
      hide Session.Valid, Parse, Legal, Serves, Done, CutAt, FrameAll, Run;
      ghost var s, out := session.State(), replies;
      ghost var q := Parse(rest + chunk);
      Arrival(start, client, session.cfg, session.dbs, received, handled, rest, chunk);
      ZipPart(Parse(client.stream).msgs, client.envs, handled, |q.msgs|);
      Continue(start, client, session.cfg, session.dbs, handled, |q.msgs|, s, out);
      more := Run(s, Zip(q.msgs, client.envs[handled..]), session.cfg, session.dbs).1;
      alive, k := session.DoSFTPProtocol(client.envs[handled..]);
      FrameAllAppend(out, more);
    }

    /** The two together. */
    method FillAndProcess(chunk: bytes, todo: nat) returns (alive: bool, k: nat, ghost more: seq<text>)
      requires session.Valid() && Output(sent, handled, replies) && |chunk| <= todo && received + chunk <= client.stream
      requires CutAt(client, received, handled, session.bIn.Unread())
      modifies session.Footprint()
      ensures session.Valid() && fresh(session.Footprint() - old(session.Footprint())) && unchanged(this) && unchanged(gl)
      ensures Output(sent, handled + k, replies + more)
      ensures handled + k == |Parse(received + chunk).msgs|
      ensures alive ==> CutAt(client, received + chunk, handled + k, session.bIn.Unread())
      ensures alive <==> Parse(received + chunk).why.Wait?
    {
      hide Session.Valid, Parse, CutAt, Output, Buffer.Unread;
      ghost var rest := session.bIn.Unread();
      Fill(chunk, todo);
      alive, k, more := Process(rest, chunk);
    }

    method NoteRead(chunk: bytes, k: nat, ghost more: seq<text>)
      requires chunk <= pending && received + pending == client.stream
      modifies this
      ensures handled == old(handled) + k && replies == old(replies) + more && sent == old(sent)
      ensures received == old(received) + chunk && received + pending == client.stream
    {
      handled, replies, received, pending := handled + k, replies + more, received + chunk, pending[|chunk|..];
    }

    method Take(chunk: bytes, todo: nat) returns (alive: bool)
      requires Valid() && chunk <= pending && |chunk| <= todo
      modifies {this} + session.Footprint()
      ensures Kept() && (alive ==> Valid()) && fresh(session.Footprint() - old(session.Footprint()))
      ensures received == old(received) + chunk && sent == old(sent) && unchanged(gl)
      ensures alive <==> Parse(received).why.Wait?
    {
      hide Session.Valid, Parse, CutAt, Output, Global.Quotas, Buffer.Unread, Serves;
      var k;
      ghost var more;
      alive, k, more := FillAndProcess(chunk, todo);
      NoteRead(chunk, k, more);
    }

    method TakeCounted(len: nat, todo: nat) returns (alive: bool)
      requires Valid() && len <= |pending| && len <= todo && (gl.uploadMax > 0 ==> gl.MayRead() && len <= gl.uploadMax - gl.uploadCurrent)
      modifies Footprint()
      ensures Kept() && (alive ==> Valid()) && fresh(session.Footprint() - old(session.Footprint()))
      ensures received == old(received) + old(pending)[..len] && sent == old(sent) && gl.Moved(len, 0)
      ensures gl.MayWrite() == old(gl.MayWrite())
      ensures Now() == old(Now()).(received := |old(received)| + len, up := (old(gl.uploadCurrent) + len) % 0x1_0000_0000)
      ensures alive <==> Parse(client.stream[..|received|]).why.Wait?
    {
      hide Session.Valid, Parse, CutAt, Output, Global.Quotas, Buffer.Unread, Serves, Global.MayWrite;
      gl.CountRead(len);
      alive := Take(pending[..len], todo);
      assert received == client.stream[..|received|];
    }

    /** A readable input: what the quota allows of it is read, counted and handled. */
    method Receive(input: nat) returns (alive: bool)
      requires Valid() && gl.MayRead()
      modifies Footprint()
      ensures Kept() && (alive ==> Valid()) && fresh(session.Footprint() - old(session.Footprint()))
      ensures old(received) <= received && sent == old(sent) && gl.Moved(|received| - |old(received)|, 0)
      ensures gl.MayWrite() == old(gl.MayWrite())
      ensures (Now(), alive) == AfterRead(client, old(Now()), input)
    {
      hide Session.Valid, Parse, CutAt, Output, Global.Quotas, Buffer.Unread, Serves, Global.MayWrite;
      var todo := gl.ReadSize();
      var len := Min(Min(input, todo), |pending|);
      assert |pending| == |client.stream| - |received|;
      if len == 0 {
        return false;
      }
      alive := TakeCounted(len, todo);
    }

    /** write() has taken len bytes, and the output is cleaned. */
    method Flush(len: nat)
      requires session.Valid() && Output(sent, handled, replies) && len <= |session.bOut.content|
      modifies session.Footprint()
      ensures session.Valid() && fresh(session.Footprint() - old(session.Footprint())) && unchanged(this) && unchanged(gl)
      ensures Output(sent + old(session.bOut.content)[..len], handled, replies)
      ensures session.bIn.Unread() == old(session.bIn.Unread())
    {
      hide Caches, Sound, Serves, Done, FrameAll;
      ghost var was := session.bOut.content;
      session.bOut.BufferIncrCurrentReadPosition(len);
      session.bOut.BufferClean();
      assert session.bOut.content == was[len..];
      assert sent + was[..len] + was[len..] == sent + was;
    }

    method NoteWritten(ghost chunk: bytes)
      modifies this`sent
      ensures sent == old(sent) + chunk
    {
      sent := sent + chunk;
    }

    method Give(len: nat)
      requires Valid() && len <= |session.bOut.content|
      modifies {this} + session.Footprint()
      ensures Valid() && fresh(session.Footprint() - old(session.Footprint())) && unchanged(gl)
      ensures received == old(received) && sent == old(sent) + old(session.bOut.content)[..len]
    {
      hide Session.Valid, Parse, CutAt, Global.Quotas, Buffer.Unread, Output;
      ghost var was := session.bOut.content;
      Flush(len);
      NoteWritten(was[..len]);
    }

    /** A writable output: what the quota allows of it is written and counted. */
    method Deliver(output: int) returns (alive: bool)
      requires Valid() && gl.MayWrite()
      modifies Footprint()
      ensures Kept() && (alive ==> Valid()) && fresh(session.Footprint() - old(session.Footprint()))
      ensures alive <==> output >= 0
      ensures received == old(received) && old(sent) <= sent && gl.Moved(0, |sent| - |old(sent)|)
      ensures (Now(), alive) == AfterWrite(old(Now()), output, |old(session.bOut.content)|)
      ensures sent == old(sent) + old(session.bOut.content)[..|sent| - |old(sent)|]
    {
      hide Session.Valid, Parse, CutAt, Global.Quotas, Buffer.Unread, Serves, Done, FrameAll;
      if output < 0 {
        return false;
      }
      alive := true;
      var todo := gl.WriteSize(Waiting());
      var len := Min(output, todo);
      GiveCounted(len);
    }

    method GiveCounted(len: nat)
      requires Valid() && len <= |session.bOut.content| && (gl.downloadMax > 0 ==> gl.MayWrite() && len <= gl.downloadMax - gl.downloadCurrent)
      modifies Footprint()
      ensures Valid() && fresh(session.Footprint() - old(session.Footprint()))
      ensures received == old(received) && sent == old(sent) + old(session.bOut.content)[..len] && gl.Moved(0, len)
      ensures Now() == old(Now()).(sent := |old(sent)| + len, down := (old(gl.downloadCurrent) + len) % 0x1_0000_0000)
    {
      hide Session.Valid, Parse, CutAt, Global.Quotas, Buffer.Unread, Serves, Done, FrameAll, Output;
      Give(len);
      gl.CountWritten(len);
    }

    function Waiting(): (n: nat)
      requires session.Valid() && session.bOut.read == 0
      reads session, session.bIn, session.bIn.data, session.bOut, session.bOut.data
      reads session.table, session.table.slots, session.users, session.users.tb, session.groups, session.groups.tb
      ensures n == |session.bOut.content|
    {
      session.bOut.length - session.bOut.read
    }

    /** One turn of the main loop; which descriptors select() watches is decided before it waits. */
    method Turn(w: Wake) returns (alive: bool)
      requires Valid()
      modifies Footprint()
      ensures Kept() && (alive ==> Valid()) && fresh(session.Footprint() - old(session.Footprint()))
      ensures old(received) <= received && old(sent) <= sent
      ensures w.TimedOut? ==> alive && gl.ups == gl.downs == 0
      ensures w.Stopped? ==> !alive
      ensures !w.TimedOut? ==> gl.Moved(|received| - |old(received)|, |sent| - |old(sent)|)
      ensures (Now(), alive) == Next(start, client, session.cfg, session.dbs, OwnLimits(), old(Now()), w)
    {
      hide Session.Valid, Parse, CutAt, Global.Quotas, Buffer.Unread, Serves, Output, Effective, RepliesTo, WhenReady;
      alive := true;
      KeptWaits();
      var fdR, fdW := gl.MayRead(), HasOutput() && gl.MayWrite();
      match w {
        case Stopped => alive := false;
        case Interrupted =>
        case TimedOut(downShare, upShare) => gl.NewPeriod(downShare, upShare);
        case Ready(input, output) =>
          alive := Attend(input, output, fdR, fdW);
      }
    }

    /** The descriptors that select() has found ready, of those that it watches. */
    method Attend(input: Option<nat>, output: Option<int>, fdR: bool, fdW: bool) returns (alive: bool)
      requires Valid() && fdR == gl.MayRead() && (fdW ==> gl.MayWrite())
      modifies Footprint()
      ensures Kept() && (alive ==> Valid()) && fresh(session.Footprint() - old(session.Footprint()))
      ensures old(received) <= received && old(sent) <= sent
      ensures gl.Moved(|received| - |old(received)|, |sent| - |old(sent)|)
      ensures Serves(start, client, session.cfg, session.dbs) && |old(received)| <= |client.stream|
      ensures (Now(), alive) == WhenReady(start, client, session.cfg, session.dbs, old(Now()), fdR, fdW, input, output)
    {
      hide Session.Valid, Parse, CutAt, Global.Quotas, Buffer.Unread, Serves, Output, RepliesTo, AfterRead, AfterWrite, WhenReady, Valid, Kept;
      alive := true;
      ValidIsKept();
      KeptWaits();
      ghost var p := Now();
      if fdR && input.Some? {
        alive := Receive(input.value);
        KeptWaits();
      }
      ReadFirst(start, client, session.cfg, session.dbs, p, fdR, fdW, input, output, Now(), alive, |session.bOut.content|);
      if alive && fdW && output.Some? {
        alive := Deliver(output.value);
      }
    }

    /** What waits to be written is what is left of the replies. */
    lemma KeptWaits()
      requires Kept()
      ensures Serves(start, client, session.cfg, session.dbs) && |received| <= |client.stream|
      ensures session.bOut.Valid() && session.bOut.read == 0
      ensures |sent| + |session.bOut.content| == |RepliesTo(start, client, session.cfg, session.dbs, |received|)|
    {
      hide Parse, FrameAll, Run, Legal, Session.State, Serves;
      assert received == client.stream[..|received|];
    }

    predicate HasOutput()
      reads session, session.bOut
    {
      session.bOut.length > 0
    }

    /**
      The main loop, for every sequence of wake-ups: however the client's bytes arrive, the
      session has handled exactly the complete messages received so far, in order, each once;
      what has been written, and what waits to be, are their replies; and no limit was exceeded.
     */
    method SftpMain(wakes: seq<Wake>) returns (alive: bool)
      requires Valid()
      modifies Footprint()
      ensures Kept() && (alive ==> Valid())
      ensures (Now(), alive) == AfterAll(start, client, session.cfg, session.dbs, OwnLimits(), old(Now()), wakes)
    {
      hide Valid, Kept, Serves, Next, AfterAll, Turned, Now, OwnLimits;
      assert Kept() by { ValidIsKept(); }
      ghost var p0 := Now();
      alive := true;
      StartsTurning(wakes);
      var i := 0;
      while alive && i < |wakes|
        invariant i <= |wakes| && Kept() && (alive ==> Valid()) && fresh(session.Footprint() - old(session.Footprint()))
        invariant Turned(start, client, session.cfg, session.dbs, OwnLimits(), p0, wakes, i, Now(), alive)
      {
        TurnedOnce(start, client, session.cfg, session.dbs, OwnLimits(), p0, wakes, i, Now());
        alive := Turn(wakes[i]);
        i := i + 1;
      }
      TurnedAll(start, client, session.cfg, session.dbs, OwnLimits(), p0, wakes, i, Now(), alive);
    }

    lemma StartsTurning(wakes: seq<Wake>)
      requires Kept()
      ensures Turned(start, client, session.cfg, session.dbs, OwnLimits(), Now(), wakes, 0, Now(), true)
    {
      hide Kept, Serves, AfterAll;
      KeptWaits();
      assert wakes[0..] == wakes;
    }

    /** When the client has sent everything, how it arrived no longer shows. */
    lemma AllServed()
      requires Kept() && pending == []
      ensures var ins := Inputs(start, client, session.cfg, session.dbs);
              && session.State() == Run(start, ins, session.cfg, session.dbs).0
              && sent + session.bOut.content == FrameAll(Run(start, ins, session.cfg, session.dbs).1)
    {
      hide Session.Valid, Parse, FrameAll, Run, Legal, Session.State;
      var ins := Inputs(start, client, session.cfg, session.dbs);
      assert received + [] == received;
      assert ins[..|ins|] == ins;
    }

    /** The client's packets answer its messages one for one, in order, at every moment. */
    lemma ClientSees()
      requires Kept()
      ensures var ps, ms := Packets(sent), Parse(client.stream).msgs;
              && |ps| <= handled <= |ms| && (session.bOut.content == [] ==> |ps| == handled)
              && forall j :: 0 <= j < |ps| ==> Answers(PhaseAfter(PhaseOf(start), ms[..j]), ms[j], ps[j])
    {
      hide Session.Valid, Parse, FrameAll, Serves, Done, Session.State, Answers, PhaseAfter, Packets;
      assert FrameAll(replies)[..|sent|] == sent;
      ClientView(start, client, session.cfg, session.dbs, handled, session.State(), replies, |sent|);
    }

    lemma ValidIsKept()
      requires Valid()
      ensures Kept()
    {
      hide Session.Valid, Parse, CutAt, Global.Quotas, Buffer.Unread, Serves, Output;
    }
  }

  /** Empty caches, one for the users and one for the groups. */
  method NewTables(dbs: Databases) returns (users: InfoTable, groups: InfoTable)
    ensures Caches(users, groups, dbs) && fresh({users, groups, users.tb, groups.tb})
  {
    users := new InfoTable(dbs.users);
    groups := new InfoTable(dbs.groups);
  }

  method NewBuffers() returns (bIn: Buffer, bOut: Buffer)
    ensures bIn != bOut && bIn.data != bOut.data && bIn.Valid() && bOut.Valid() && fresh({bIn, bOut, bIn.data, bOut.data})
    ensures bIn.content == bOut.content == [] && !bIn.fastClean && !bOut.fastClean
  {
    bIn := new Buffer();
    bOut := new Buffer();
  }

  /** What SftpMain sets up before its loop. */
  method NewSession(cfg: Config, dbs: Databases, version: u32, who: Who) returns (session: Session)
    requires Sound(dbs)
    ensures session.Valid() && fresh(session.Footprint()) && fresh(session)
    ensures session.cfg == cfg && session.dbs == dbs && session.bIn.content == session.bOut.content == []
    ensures session.State() == Sess(CONN_INIT, version, NoHandles(), who, false, [])
  {
    hide Caches, Sound, NoHandles, Buffer.Valid, HandleTable.Valid;
    var bIn, bOut := NewBuffers();
    var table := new HandleTable();
    var users, groups := NewTables(dbs);
    session := new Session(cfg, dbs, bIn, bOut, table, users, groups, version, who);
  }

  /** A whole session: SftpMain from its first line, on the wake-ups that come. */
  method Serve(cfg: Config, dbs: Databases, version: u32, who: Who, client: Client, wakes: seq<Wake>,
               ownDown: u32, ownUp: u32, bypassDown: bool, bypassUp: bool)
    returns (server: Server)
    requires Sound(dbs)
    requires Serves(Sess(CONN_INIT, version, NoHandles(), who, false, []), client, cfg, dbs)
    ensures server.Kept() && server.client == client && server.session.cfg == cfg && server.session.dbs == dbs
    ensures server.start == Sess(CONN_INIT, version, NoHandles(), who, false, [])
    ensures server.Now() == AfterAll(server.start, client, cfg, dbs, Own(ownDown, ownUp, bypassDown, bypassUp),
                                     Progress(0, 0, 0, ownUp, 0, ownDown), wakes).0
  {
    hide AfterAll, Serves, Sound, Global.Quotas, NoHandles, Session.Valid, Server.Valid, Server.Kept;
    var session := NewSession(cfg, dbs, version, who);
    var gl := new Global(ownDown, ownUp, bypassDown, bypassUp);
    server := new Server(session, client, gl);
    var _ := server.SftpMain(wakes);
  }
}
