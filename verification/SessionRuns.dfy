/** What holds in every run of the session's state machine. */
module SessionRuns {
  import opened Bytes
  import opened Attributes
  import opened Handles
  import opened Replies
  import opened Framing
  import opened Protocol

  // ----- one step -----

  /** Slots know their numbers, the status reflects the open files, and nothing is open before INIT. */
  ghost predicate Inv(s: Sess) {
    && Numbered(s.hs)
    && Reflects(s.who, s.hs)
    && (s.conn == CONN_INIT ==> forall i :: 0 <= i < |s.hs| ==> s.hs[i].state == UNUSED)
  }

  /** The request names this slot. */
  predicate Names(r: Request, i: int) {
    (r.Close? || r.Read? || r.Write?) && r.h == i
  }

  /** What one step may do to the slots: open an unused one, close or move the one that is named. */
  ghost predicate SlotsChange(s: Sess, r: Request, s': Sess) {
    && Numbered(s'.hs) && |s'.hs| == |s.hs|
    && (forall i :: 0 <= i < |s.hs| && s.hs[i].state != UNUSED && !Names(r, i) ==> s'.hs[i] == s.hs[i])
    && (forall i :: 0 <= i < |s.hs| && s.hs[i].state != UNUSED && !(r.Close? && r.h == i) ==>
          s'.hs[i].(filePos := 0) == s.hs[i].(filePos := 0))
    && (r.Close? && InTable(s.hs, r.h) ==> s'.hs[r.h].state == UNUSED)
  }

  lemma MovedKeeps(s: Sess, h: int, pos: u64)
    requires Inv(s) && InTable(s.hs, h) && s.hs[h].state == FILE
    ensures Inv(Moved(s, h, pos)) && Moved(s, h, pos).who.status / 0x100 == s.who.status / 0x100
  {
    UpdateReflects(s.hs[h := s.hs[h].(filePos := pos)], s.who);
  }

  lemma OpenKeeps(s: Sess, r: Request, e: Env, cfg: Config)
    requires Inv(s) && r.Open? && s.conn == CONN_SFTP
    ensures var s' := StepOpen(s, r, e, cfg).0;
            Inv(s') && s'.who.status / 0x100 == s.who.status / 0x100 && SlotsChange(s, r, s')
  {
    hide UpdateInfo, Reflects, OpenFlags, TextFlag, IsAppend, IsUpload;
    var s' := StepOpen(s, r, e, cfg).0;
    UpdateReflects(s'.hs, s.who);
  }

  lemma CloseKeeps(s: Sess, r: Request)
    requires Inv(s) && r.Close? && s.conn == CONN_SFTP
    ensures var s' := StepClose(s, r).0;
            Inv(s') && s'.who.status / 0x100 == s.who.status / 0x100 && SlotsChange(s, r, s')
  {
    hide UpdateInfo, Reflects, IsUpload;
    var s' := StepClose(s, r).0;
    UpdateReflects(s'.hs, s.who);
    if InTable(s.hs, r.h) && s.hs[r.h].state != FILE {
      SameFilesSameStatus(s.hs, s'.hs);
    }
  }

  lemma OpenDirKeeps(s: Sess, r: Request, e: Env)
    requires Inv(s) && r.OpenDir? && s.conn == CONN_SFTP
    ensures var s' := StepOpenDir(s, r, e).0;
            Inv(s') && s'.who == s.who && SlotsChange(s, r, s')
  {
    hide Reflects;
    SameFilesSameStatus(s.hs, StepOpenDir(s, r, e).0.hs);
  }

  /**
    Every step keeps the invariant and the option bits; it touches no slot in use but the
    one its request names, and only a CLOSE takes a slot out of use.
   */
  lemma StepKeeps(s: Sess, r: Request, e: Env, cfg: Config)
    requires Inv(s) && (r.Write? ==> r.data.Some?)
    requires s.conn == CONN_SFTP || r.Init? || r.Unsupported?
    ensures var s' := Step(s, r, e, cfg).0;
            Inv(s') && s'.who.status / 0x100 == s.who.status / 0x100 && SlotsChange(s, r, s')
  {
    hide Reflects, Moved, UpdateInfo, StepOpen, StepClose, StepOpenDir, Delivered;
    match r {
      case Open(_, _, _, _) => OpenKeeps(s, r, e, cfg);
      case Close(_, _) => CloseKeeps(s, r);
      case OpenDir(_, _) => OpenDirKeeps(s, r, e);
      case Read(_, h, off, _) =>
        if IsFile(s.hs, h) {
          ReadKeeps(s, r, e, cfg);
        }
      case Write(_, h, _, _) =>
        if IsFile(s.hs, h) {
          var pos := (r.off + e.written) % 0x1_0000_0000_0000_0000;
          MovedKeeps(s, h, pos);
          MovedSlots(s, r, pos);
        }
      case _ =>
    }
  }

  lemma MovedSlots(s: Sess, r: Request, pos: u64)
    requires Inv(s) && (r.Read? || r.Write?) && InTable(s.hs, r.h)
    ensures SlotsChange(s, r, Moved(s, r.h, pos))
  {
    hide UpdateInfo;
  }

  lemma ReadKeeps(s: Sess, r: Request, e: Env, cfg: Config)
    requires Inv(s) && r.Read? && IsFile(s.hs, r.h)
    ensures var s' := StepRead(s, r, e, cfg).0;
            Inv(s') && s'.who.status / 0x100 == s.who.status / 0x100 && SlotsChange(s, r, s')
  {
    hide Reflects, Moved, UpdateInfo, Delivered;
    if e.got.ReadBytes? {
      var pos := (r.off + |Delivered(e.got.data, s.hs[r.h].fileIsText)|) % 0x1_0000_0000_0000_0000;
      MovedKeeps(s, r.h, pos);
      MovedSlots(s, r, pos);
    }
  }

  /** What the handler hands over is added to what was. */
  lemma StepRecords(s: Sess, r: Request, e: Env, cfg: Config)
    requires r.Write? ==> r.data.Some?
    ensures React(s, r, e, cfg).0.accesses == s.accesses
    ensures Step(s, r, e, cfg).0.accesses == s.accesses + AccessesOf(s, r, e, cfg)
  {
    hide OpenFlags, TextFlag, IsAppend, IsUpload, UpdateInfo, Delivered, ToWrite, AccessesOf;
  }

  /** A handle that is issued was unused, and is in use from then on; CLOSE alone succeeds on any slot. */
  lemma IssuedHandleIsFresh(s: Sess, r: Request, e: Env, cfg: Config)
    requires Numbered(s.hs) && (r.Write? ==> r.data.Some?)
    requires Step(s, r, e, cfg).1.HandleReply?
    ensures var (s', p) := Step(s, r, e, cfg);
            && InTable(s.hs, p.h) && s.hs[p.h].state == UNUSED
            && s'.hs[p.h].state != UNUSED
            && (forall i :: 0 <= i < p.h ==> s.hs[i].state != UNUSED)
  {
    hide UpdateInfo, OpenFlags, TextFlag, IsAppend, IsUpload, Delivered, Moved;
  }

  function IdOf(r: Request): u32
    requires !r.Init?
  {
    r.id
  }

  function ReplyId(p: Reply): u32
    requires !p.VersionReply?
  {
    p.id
  }

  /** A reply carries its request's id; INIT, and nothing else, is answered by the version. */
  lemma ReplyCarriesId(s: Sess, r: Request, e: Env, cfg: Config)
    requires r.Write? ==> r.data.Some?
    ensures var p := Step(s, r, e, cfg).1;
            && (p.VersionReply? <==> r.Init?)
            && (!r.Init? ==> ReplyId(p) == IdOf(r))
  {
    hide UpdateInfo, OpenFlags, TextFlag, IsAppend, IsUpload, Delivered, Moved, ToWrite;
  }

  /** Before INIT every other request is refused and changes nothing. */
  lemma NothingBeforeInit(s: Sess, m: Msg, e: Env, cfg: Config)
    requires s.conn == CONN_INIT && m.kind != FXP_INIT
    ensures Step(s, RequestOf(PhaseOf(s), m), e, cfg) ==
            (s, StatusReply(Next32(true, m.body).0, FX_OP_UNSUPPORTED))
  {
    hide Next32;
  }

  /** A failed seek before a WRITE changes nothing: its position is unsigned, and never found negative. */
  lemma WriteIgnoresSeek(s: Sess, r: Request, e: Env, seekStatus: u32, cfg: Config)
    requires r.Write? && r.data.Some?
    ensures Step(s, r, e.(seekStatus := seekStatus), cfg) == Step(s, r, e, cfg)
  {
    hide UpdateInfo, Delivered;
  }

  /** A failed seek ends a READ of a binary file with its status; of a text file nothing is sought. */
  lemma ReadHeedsSeek(s: Sess, r: Request, e: Env, seekStatus: u32, cfg: Config)
    requires r.Read? && !cfg.noRead && IsFile(s.hs, r.h)
    ensures var e' := e.(seekStatus := seekStatus);
            if s.hs[r.h].fileIsText then Step(s, r, e', cfg) == Step(s, r, e, cfg)
            else seekStatus != FX_OK ==> Step(s, r, e', cfg) == (s, StatusReply(r.id, seekStatus))
  {
    hide UpdateInfo, Delivered;
  }

  // ----- runs -----

  datatype Input = Input(msg: Msg, env: Env)

  ghost predicate Legal(s0: Sess, ins: seq<Input>, cfg: Config, dbs: Databases)
    decreases |ins|, 0
  {
    ins == [] ||
    var n := |ins| - 1;
    && Legal(s0, ins[..n], cfg, dbs)
    && LegalStep(Run(s0, ins[..n], cfg, dbs).0, ins[n], cfg, dbs)
  }

  ghost predicate LegalStep(s: Sess, i: Input, cfg: Config, dbs: Databases) {
    && WellFormed(PhaseOf(s), i.msg.kind, i.msg.body)
    && Possible(s, RequestOf(PhaseOf(s), i.msg), i.env, cfg, dbs)
  }

  /** One message: the next state, and the bytes of the reply. */
  ghost function Act(s: Sess, i: Input, cfg: Config, dbs: Databases): (Sess, text)
    requires LegalStep(s, i, cfg, dbs)
  {
    var (s', p) := Step(s, RequestOf(PhaseOf(s), i.msg), i.env, cfg);
    (s', Payload(p, s'.version, dbs))
  }

  /** A legal message is a request that the machine has a step for. */
  lemma LegalData(s: Sess, i: Input, cfg: Config, dbs: Databases)
    requires LegalStep(s, i, cfg, dbs)
    ensures var r := RequestOf(PhaseOf(s), i.msg);
            (r.Write? ==> r.data.Some?) && Act(s, i, cfg, dbs).0 == Step(s, r, i.env, cfg).0
  {
    hide ReadRequest, Possible, Step, Payload;
  }

  ghost function Run(s0: Sess, ins: seq<Input>, cfg: Config, dbs: Databases): (r: (Sess, seq<text>))
    requires Legal(s0, ins, cfg, dbs)
    ensures |r.1| == |ins|
    decreases |ins|, 1
  {
    if ins == [] then (s0, [])
    else
      var n := |ins| - 1;
      var (s, out) := Run(s0, ins[..n], cfg, dbs);
      var (s', p) := Act(s, ins[n], cfg, dbs);
      (s', out + [p])
  }

  lemma RunSnoc(s0: Sess, ins: seq<Input>, cfg: Config, dbs: Databases)
    requires Legal(s0, ins, cfg, dbs) && ins != []
    ensures var t, i := ins[..|ins| - 1], ins[|ins| - 1];
            && Legal(s0, t, cfg, dbs)
            && var (s, out) := Run(s0, t, cfg, dbs);
               && LegalStep(s, i, cfg, dbs)
               && Run(s0, ins, cfg, dbs) == (Act(s, i, cfg, dbs).0, out + [Act(s, i, cfg, dbs).1])
  {
    hide LegalStep, Act;
  }

  lemma RunEmpty(s0: Sess, cfg: Config, dbs: Databases)
    ensures Legal(s0, [], cfg, dbs) && Run(s0, [], cfg, dbs) == (s0, [])
  {
  }

  /** The bytes of a reply show its id behind the type byte. */
  lemma PayloadShowsId(p: Reply, v: u32, dbs: Databases)
    requires Sendable(p, v, dbs)
    ensures var b := Payload(p, v, dbs);
            if p.VersionReply? then |b| >= 5 && b[0] == FXP_VERSION && Dec32(b[1..]) == v
            else |b| >= 5 && b[0] != FXP_VERSION && Dec32(b[1..]) == ReplyId(p)
  {
    hide Enc32, Dec32, EncEntries, EncAttributes, EncString, StatusMessage, SupportedBody, Ascii;
    var b := Payload(p, v, dbs);
    var n := if p.VersionReply? then v else ReplyId(p);
    assert b[1..] == Enc32(n) + b[5..];
    Dec32OfEnc(n, b[5..]);
  }

  /** The reply to message m: a VERSION packet for the first INIT, else a packet with the message's id. */
  ghost predicate Answers(p: Phase, m: Msg, b: bytes) {
    && |b| >= 5
    && if p.conn == CONN_INIT && m.kind == FXP_INIT then
         b[0] == FXP_VERSION && Dec32(b[1..]) == Negotiated(Next32(true, m.body).0, p.version)
       else b[0] != FXP_VERSION && Dec32(b[1..]) == Next32(true, m.body).0
  }

  /** Every request starts with its id. */
  lemma RequestHasId(p: Phase, m: Msg)
    ensures var r := RequestOf(p, m);
            if p.conn == CONN_INIT && m.kind == FXP_INIT then r == Init(Next32(true, m.body).0)
            else !r.Init? && IdOf(r) == Next32(true, m.body).0
  {
    hide Next32, NextText, Next64, NextHandle, NextAttrs;
  }

  lemma ActAnswers(s: Sess, i: Input, cfg: Config, dbs: Databases)
    requires LegalStep(s, i, cfg, dbs)
    ensures Answers(PhaseOf(s), i.msg, Act(s, i, cfg, dbs).1)
    ensures PhaseOf(Act(s, i, cfg, dbs).0) == NextPhase(PhaseOf(s), i.msg)
  {
    hide Payload, Next32, ReadRequest;
    var r := RequestOf(PhaseOf(s), i.msg);
    RequestHasId(PhaseOf(s), i.msg);
    ReplyCarriesId(s, r, i.env, cfg);
    StepPhase(s, r, i.env, cfg);
    PayloadShowsId(Step(s, r, i.env, cfg).1, Step(s, r, i.env, cfg).0.version, dbs);
  }

  lemma StepPhase(s: Sess, r: Request, e: Env, cfg: Config)
    requires r.Write? ==> r.data.Some?
    ensures PhaseOf(Step(s, r, e, cfg).0) == if r.Init? then Phase(CONN_SFTP, Negotiated(r.clientVersion, s.version)) else PhaseOf(s)
  {
    hide UpdateInfo, OpenFlags, TextFlag, IsAppend, IsUpload, Delivered, ToWrite;
  }

  ghost function PhaseAfter(p: Phase, ms: seq<Msg>): Phase
    decreases |ms|
  {
    if ms == [] then p else NextPhase(PhaseAfter(p, ms[..|ms| - 1]), ms[|ms| - 1])
  }

  function Msgs(ins: seq<Input>): (ms: seq<Msg>)
    ensures |ms| == |ins|
    ensures forall k :: 0 <= k < |ins| ==> ms[k] == ins[k].msg
  {
    seq(|ins|, k requires 0 <= k < |ins| => ins[k].msg)
  }

  /**
    In every run: as many replies as requests, in their order, each answering its request;
    and the phase is the one the messages alone determine.
   */
  lemma {:induction false} OneReplyEach(s0: Sess, ins: seq<Input>, cfg: Config, dbs: Databases)
    requires Legal(s0, ins, cfg, dbs)
    ensures var (s, out) := Run(s0, ins, cfg, dbs);
            && |out| == |ins|
            && PhaseOf(s) == PhaseAfter(PhaseOf(s0), Msgs(ins))
            && forall k :: 0 <= k < |ins| ==> Answers(PhaseAfter(PhaseOf(s0), Msgs(ins)[..k]), ins[k].msg, out[k])
    decreases |ins|
  {
    hide LegalStep, Act, Answers, NextPhase, Run, Legal;
    if ins == [] {
      RunEmpty(s0, cfg, dbs);
    } else {
      var n := |ins| - 1;
      var t := ins[..n];
      RunSnoc(s0, ins, cfg, dbs);
      OneReplyEach(s0, t, cfg, dbs);
      ActAnswers(Run(s0, t, cfg, dbs).0, ins[n], cfg, dbs);
      assert Msgs(ins)[..n] == Msgs(t);
      assert forall k :: 0 <= k < n ==> Msgs(ins)[..k] == Msgs(t)[..k];
    }
  }

  lemma ActKeeps(s: Sess, i: Input, cfg: Config, dbs: Databases)
    requires Inv(s) && LegalStep(s, i, cfg, dbs)
    ensures var s' := Act(s, i, cfg, dbs).0;
            Inv(s') && s'.who.status / 0x100 == s.who.status / 0x100
            && SlotsChange(s, RequestOf(PhaseOf(s), i.msg), s')
  {
    hide Payload, Reflects, Step, SlotsChange;
    RequestKind(PhaseOf(s), i.msg);
    StepKeeps(s, RequestOf(PhaseOf(s), i.msg), i.env, cfg);
  }

  lemma RequestKind(p: Phase, m: Msg)
    ensures p.conn == CONN_SFTP || RequestOf(p, m).Init? || RequestOf(p, m).Unsupported?
  {
  }

  /** In every run the session's status is the one the handle table determines, option bits aside. */
  lemma {:induction false} StatusFollowsTable(s0: Sess, ins: seq<Input>, cfg: Config, dbs: Databases)
    requires Inv(s0) && Legal(s0, ins, cfg, dbs)
    ensures var s := Run(s0, ins, cfg, dbs).0;
            Inv(s) && s.who.status / 0x100 == s0.who.status / 0x100
    decreases |ins|
  {
    hide LegalStep, Act, Inv, Run, Legal;
    if ins == [] {
      RunEmpty(s0, cfg, dbs);
    } else {
      var n := |ins| - 1;
      RunSnoc(s0, ins, cfg, dbs);
      StatusFollowsTable(s0, ins[..n], cfg, dbs);
      ActKeeps(Run(s0, ins[..n], cfg, dbs).0, ins[n], cfg, dbs);
    }
  }

  /** As long as no INIT has come, the session stays as it was and refuses everything. */
  lemma {:induction false} SilentUntilInit(s0: Sess, ins: seq<Input>, cfg: Config, dbs: Databases)
    requires s0.conn == CONN_INIT && Legal(s0, ins, cfg, dbs)
    requires forall k :: 0 <= k < |ins| ==> ins[k].msg.kind != FXP_INIT
    ensures Run(s0, ins, cfg, dbs).0 == s0
    ensures forall k :: 0 <= k < |ins| ==>
              Run(s0, ins, cfg, dbs).1[k] == StatusBody(Next32(true, ins[k].msg.body).0, FX_OP_UNSUPPORTED, s0.version)
    decreases |ins|
  {
    hide LegalStep, Act, StatusBody, Next32, Run, Legal;
    if ins == [] {
      RunEmpty(s0, cfg, dbs);
    } else {
      var n := |ins| - 1;
      RunSnoc(s0, ins, cfg, dbs);
      SilentUntilInit(s0, ins[..n], cfg, dbs);
      ActBeforeInit(s0, ins[n], cfg, dbs);
    }
  }

  lemma ActBeforeInit(s: Sess, i: Input, cfg: Config, dbs: Databases)
    requires s.conn == CONN_INIT && i.msg.kind != FXP_INIT && LegalStep(s, i, cfg, dbs)
    ensures Act(s, i, cfg, dbs) == (s, StatusBody(Next32(true, i.msg.body).0, FX_OP_UNSUPPORTED, s.version))
  {
    hide Next32, Step, StatusBody, ReadRequest;
    NothingBeforeInit(s, i.msg, i.env, cfg);
  }

  /** The request closes slot h, in the phase it is read in. */
  ghost predicate Closes(p: Phase, m: Msg, h: int) {
    var r := RequestOf(p, m);
    r.Close? && r.h == h
  }

  /**
    A slot in use stays in use for the same file until it is closed, and its number is
    not issued again meanwhile.
   */
  lemma {:induction false} HandleLivesUntilClosed(s0: Sess, ins: seq<Input>, cfg: Config, dbs: Databases, h: nat)
    requires Inv(s0) && Legal(s0, ins, cfg, dbs)
    requires h < |s0.hs| && s0.hs[h].state != UNUSED
    requires forall k :: 0 <= k < |ins| ==> !Closes(PhaseAfter(PhaseOf(s0), Msgs(ins)[..k]), ins[k].msg, h)
    ensures var (s, out) := Run(s0, ins, cfg, dbs);
            && |s.hs| == |s0.hs| && s.hs[h].(filePos := 0) == s0.hs[h].(filePos := 0)
            && forall k, id: u32 :: 0 <= k < |out| && h < 0x100 - 48 ==> out[k] != HandleBody(id, h)
    decreases |ins|
  {
    hide LegalStep, Act, Reflects, HandleBody, RequestOf, Run, Legal;
    if ins == [] {
      RunEmpty(s0, cfg, dbs);
    } else {
      var n := |ins| - 1;
      var t := ins[..n];
      RunSnoc(s0, ins, cfg, dbs);
      assert forall k :: 0 <= k <= n ==> Msgs(ins)[..k] == Msgs(t)[..k];
      assert Msgs(t)[..n] == Msgs(t);
      HandleLivesUntilClosed(s0, t, cfg, dbs, h);
      StatusFollowsTable(s0, t, cfg, dbs);
      OneReplyEach(s0, t, cfg, dbs);
      var s := Run(s0, t, cfg, dbs).0;
      ActKeeps(s, ins[n], cfg, dbs);
      ActDoesNotReissue(s, ins[n], cfg, dbs, h);
    }
  }

  lemma ActDoesNotReissue(s: Sess, i: Input, cfg: Config, dbs: Databases, h: nat)
    requires Inv(s) && LegalStep(s, i, cfg, dbs)
    requires h < |s.hs| && s.hs[h].state != UNUSED && h < 0x100 - 48
    ensures forall id: u32 :: Act(s, i, cfg, dbs).1 != HandleBody(id, h)
  {
    hide Step, Reflects, ReadRequest;
    var r := RequestOf(PhaseOf(s), i.msg);
    var (s', p) := Step(s, r, i.env, cfg);
    if p.HandleReply? {
      IssuedHandleIsFresh(s, r, i.env, cfg);
    }
    forall id: u32 ensures Payload(p, s'.version, dbs) != HandleBody(id, h) {
      HandleBodyTells(p, s'.version, dbs, id, h);
    }
  }

  /** Only the reply with handle h has the bytes of a handle reply for h. */
  lemma HandleBodyTells(p: Reply, v: u32, dbs: Databases, id: u32, h: nat)
    requires Sendable(p, v, dbs) && h < 0x100 - 48
    ensures Payload(p, v, dbs) == HandleBody(id, h) ==> p.HandleReply? && p.h == h
  {
    hide Enc32, EncEntries, EncAttributes, EncString, StatusMessage, SupportedBody, Ascii;
    var b := Payload(p, v, dbs);
    assert HandleBody(id, h)[0] == FXP_HANDLE;
    assert HandleBody(id, h)[9] == h + 48;
    assert p.HandleReply? ==> b[9] == p.h + 48;
  }

  // ----- prefixes of runs -----

  lemma {:induction false} LegalPrefix(s0: Sess, ins: seq<Input>, cfg: Config, dbs: Databases, k: nat)
    requires Legal(s0, ins, cfg, dbs) && k <= |ins|
    ensures Legal(s0, ins[..k], cfg, dbs)
    ensures k < |ins| ==> LegalStep(Run(s0, ins[..k], cfg, dbs).0, ins[k], cfg, dbs)
    decreases |ins|
  {
    hide LegalStep, Act, Run, Legal;
    if k == |ins| {
      assert ins[..k] == ins;
    } else {
      var t := ins[..|ins| - 1];
      RunSnoc(s0, ins, cfg, dbs);
      LegalPrefix(s0, t, cfg, dbs, k);
      assert t[..k] == ins[..k];
    }
  }

  /** One more message. */
  lemma RunNext(s0: Sess, ins: seq<Input>, cfg: Config, dbs: Databases, k: nat)
    requires Legal(s0, ins, cfg, dbs) && k < |ins|
    ensures Legal(s0, ins[..k], cfg, dbs) && Legal(s0, ins[..k + 1], cfg, dbs)
    ensures var (s, out) := Run(s0, ins[..k], cfg, dbs);
            && LegalStep(s, ins[k], cfg, dbs)
            && Run(s0, ins[..k + 1], cfg, dbs) == (Act(s, ins[k], cfg, dbs).0, out + [Act(s, ins[k], cfg, dbs).1])
  {
    hide LegalStep, Act, Run, Legal;
    LegalPrefix(s0, ins, cfg, dbs, k);
    LegalPrefix(s0, ins, cfg, dbs, k + 1);
    assert ins[..k + 1][..k] == ins[..k];
    RunSnoc(s0, ins[..k + 1], cfg, dbs);
  }

  /** Messages and the system's answers to them. */
  function Zip(ms: seq<Msg>, envs: seq<Env>): (ins: seq<Input>)
    requires |ms| <= |envs|
    ensures |ins| == |ms|
    ensures forall k :: 0 <= k < |ms| ==> ins[k] == Input(ms[k], envs[k])
  {
    seq(|ms|, k requires 0 <= k < |ms| => Input(ms[k], envs[k]))
  }

  lemma ReadOnFits(body: bytes, more: bytes)
    requires HandleFits(body)
    ensures HandleFits(body + more)
  {
    var u, w := body[4..], (body + more)[4..];
    assert w[0] == u[0] && w[1] == u[1] && w[2] == u[2] && w[3] == u[3];
  }

  lemma LegalExtend(s0: Sess, t: seq<Input>, i: Input, cfg: Config, dbs: Databases)
    requires Legal(s0, t, cfg, dbs) && LegalStep(Run(s0, t, cfg, dbs).0, i, cfg, dbs)
    ensures Legal(s0, t + [i], cfg, dbs)
    ensures var (s, out) := Run(s0, t, cfg, dbs);
            Run(s0, t + [i], cfg, dbs) == (Act(s, i, cfg, dbs).0, out + [Act(s, i, cfg, dbs).1])
  {
    hide LegalStep, Act;
    var ins := t + [i];
    assert ins[..|ins| - 1] == t;
  }

  /** A run can be cut anywhere: the rest is a run from where the first part ended. */
  lemma {:induction false} RunSplit(s0: Sess, ins: seq<Input>, cfg: Config, dbs: Databases, k: nat)
    requires Legal(s0, ins, cfg, dbs) && k <= |ins|
    ensures Legal(s0, ins[..k], cfg, dbs)
    ensures var (s, out) := Run(s0, ins[..k], cfg, dbs);
            && Legal(s, ins[k..], cfg, dbs)
            && Run(s0, ins, cfg, dbs) == (Run(s, ins[k..], cfg, dbs).0, out + Run(s, ins[k..], cfg, dbs).1)
    decreases |ins|
  {
    hide LegalStep, Act, Run, Legal;
    LegalPrefix(s0, ins, cfg, dbs, k);
    var s := Run(s0, ins[..k], cfg, dbs).0;
    if k == |ins| {
      assert ins[..k] == ins && ins[k..] == [];
      RunEmpty(s, cfg, dbs);
      var out := Run(s0, ins, cfg, dbs).1;
      assert out + [] == out;
    } else {
      var n := |ins| - 1;
      var t := ins[..n];
      RunSnoc(s0, ins, cfg, dbs);
      RunSplit(s0, t, cfg, dbs, k);
      assert t[..k] == ins[..k];
      LegalExtend(s, t[k..], ins[n], cfg, dbs);
      assert t[k..] + [ins[n]] == ins[k..];
      var out, more := Run(s0, t[..k], cfg, dbs).1, Run(s, t[k..], cfg, dbs).1;
      var p := Act(Run(s0, t, cfg, dbs).0, ins[n], cfg, dbs).1;
      assert out + (more + [p]) == out + more + [p];
    }
  }

  lemma {:induction false} FrameAllAppend(a: seq<text>, b: seq<text>)
    ensures FrameAll(a + b) == FrameAll(a) + FrameAll(b)
    decreases |b|
  {
    hide EncString;
    if b == [] {
      assert a + b == a;
    } else {
      var n := |b| - 1;
      assert (a + b)[..|a + b| - 1] == a + b[..n];
      FrameAllAppend(a, b[..n]);
    }
  }
}
