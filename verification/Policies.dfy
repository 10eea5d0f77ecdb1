/** What the administrator's switches guarantee over a whole session, and that every conversation can be served. */
module Policies {
  import opened Wrappers
  import opened Bytes
  import opened Attributes
  import opened Handles
  import opened Replies
  import opened Framing
  import opened Protocol
  import opened Requests
  import opened SessionRuns
  import opened WhoTable
  import opened MainLoop

  // ----- a session that may not write -----

  /** No file is open for writing. */
  ghost predicate ReadOnly(hs: Handles) {
    forall i :: 0 <= i < |hs| && hs[i].state == FILE ==> !IsUpload(hs[i].flags)
  }

  lemma StepStaysReadOnly(s: Sess, r: Request, e: Env, cfg: Config)
    requires cfg.noWrite && ReadOnly(s.hs) && (r.Write? ==> r.data.Some?)
    ensures ReadOnly(Step(s, r, e, cfg).0.hs)
  {
    hide UpdateInfo, OpenFlags, TextFlag, IsAppend, IsUpload, Delivered, ToWrite;
  }

  /** Writing being disabled, no file is ever open for writing, and the session is never shown as an upload. */
  lemma {:induction false} StaysReadOnly(s0: Sess, ins: seq<Input>, cfg: Config, dbs: Databases)
    requires cfg.noWrite && Inv(s0) && ReadOnly(s0.hs) && Legal(s0, ins, cfg, dbs)
    ensures var s := Run(s0, ins, cfg, dbs).0;
            ReadOnly(s.hs) && s.who.status % 0x100 != SFTPWHO_PUT
    decreases |ins|
  {
    hide Step, Run, Legal, ReadRequest, Reflects, Payload;
    if ins == [] {
      RunEmpty(s0, cfg, dbs);
      NeverPut(s0);
    } else {
      var n := |ins| - 1;
      RunSnoc(s0, ins, cfg, dbs);
      StaysReadOnly(s0, ins[..n], cfg, dbs);
      var s := Run(s0, ins[..n], cfg, dbs).0;
      StepStaysReadOnly(s, RequestOf(PhaseOf(s), ins[n].msg), ins[n].env, cfg);
      StatusFollowsTable(s0, ins, cfg, dbs);
      NeverPut(Run(s0, ins, cfg, dbs).0);
    }
  }

  lemma NeverPut(s: Sess)
    requires Inv(s) && ReadOnly(s.hs)
    ensures s.who.status % 0x100 != SFTPWHO_PUT
  {
  }

  // ----- a session that may not read -----

  /** Reading being disabled, no reply ever carries data. */
  lemma {:induction false} NoDataLeaves(s0: Sess, ins: seq<Input>, cfg: Config, dbs: Databases)
    requires cfg.noRead && Legal(s0, ins, cfg, dbs)
    ensures forall k :: 0 <= k < |ins| ==> |Run(s0, ins, cfg, dbs).1[k]| > 0 && Run(s0, ins, cfg, dbs).1[k][0] != FXP_DATA
    decreases |ins|
  {
    hide Step, Run, Legal, ReadRequest, Payload;
    if ins == [] {
      RunEmpty(s0, cfg, dbs);
    } else {
      var n := |ins| - 1;
      RunSnoc(s0, ins, cfg, dbs);
      NoDataLeaves(s0, ins[..n], cfg, dbs);
      var s := Run(s0, ins[..n], cfg, dbs).0;
      var r := RequestOf(PhaseOf(s), ins[n].msg);
      NoDataReply(s, r, ins[n].env, cfg);
      DataTells(Step(s, r, ins[n].env, cfg).1, Step(s, r, ins[n].env, cfg).0.version, dbs);
    }
  }

  lemma NoDataReply(s: Sess, r: Request, e: Env, cfg: Config)
    requires cfg.noRead && (r.Write? ==> r.data.Some?)
    ensures !Step(s, r, e, cfg).1.DataReply?
  {
    hide UpdateInfo, OpenFlags, TextFlag, IsAppend, IsUpload, Delivered, ToWrite, Moved;
  }

  lemma DataTells(p: Reply, v: u32, dbs: Databases)
    requires Sendable(p, v, dbs)
    ensures |Payload(p, v, dbs)| > 0 && (Payload(p, v, dbs)[0] == FXP_DATA <==> p.DataReply?)
  {
    hide Enc32, EncEntries, EncAttributes, EncString, StatusMessage, SupportedBody, Ascii;
  }

  // ----- every conversation can be served -----

  /** A system that refuses everything. */
  const REFUSAL: Env := Env(FX_FAILURE, FX_FAILURE, -1, 0, FX_OK, ReadBytes([]), 0, FX_FAILURE, [], NO_ATTRS, [], None, [])

  lemma NothingDelivered(t: bool)
    ensures Delivered([], t) == []
  {
  }

  /** The replies to refused requests are short. */
  lemma ShortReplies(p: Reply, v: u32, dbs: Databases)
    requires p.VersionReply? || p.StatusReply? || (p.NameReply? && p.entries == [Entry([], [], NO_ATTRS)])
    ensures Sendable(p, v, dbs)
  {
    hide Enc32, Enc64, StatusMessage, SupportedBody, Ascii, VersionBody, DbOwner;
    if p.NameReply? {
      var e := p.entries[0];
      assert p.entries[..0] == [];
      assert |EncEntries([], v, dbs)| == 0;
      NoAttributesShort(v, DbOwner(dbs, NO_ATTRS));
      assert |EncEntry(e, v, dbs)| <= 13;
    }
  }

  lemma NoAttributesShort(v: u32, o: Owner)
    ensures |EncAttributes(NO_ATTRS, v, o)| <= 5
  {
    hide Enc32;
    assert forall m | m > 0 :: !HasBit(0, m);
  }

  lemma RefusalReply(s: Sess, r: Request, cfg: Config)
    requires r.Write? ==> r.data.Some?
    ensures var p := Step(s, r, REFUSAL, cfg).1;
            p.VersionReply? || p.StatusReply? || (p.NameReply? && p.entries == [Entry([], [], NO_ATTRS)])
  {
    hide UpdateInfo, OpenFlags, TextFlag, IsAppend, IsUpload, Delivered, ToWrite, Moved;
    NothingDelivered(true);
    NothingDelivered(false);
  }

  lemma RefusalIsPossible(s: Sess, r: Request, cfg: Config, dbs: Databases)
    requires r.Write? ==> r.data.Some?
    ensures Possible(s, r, REFUSAL, cfg, dbs)
  {
    hide Step, Sendable, Delivered;
    RefusalReply(s, r, cfg);
    ShortReplies(Step(s, r, REFUSAL, cfg).1, Step(s, r, REFUSAL, cfg).0.version, dbs);
  }

  lemma {:induction false} WellFormedThere(p: Phase, ms: seq<Msg>, k: nat)
    requires WellFormedAll(p, ms) && k < |ms|
    ensures WellFormed(PhaseAfter(p, ms[..k]), ms[k].kind, ms[k].body)
    decreases k
  {
    hide WellFormed, NextPhase;
    if k == 0 {
      assert ms[..0] == [];
    } else {
      WellFormedThere(NextPhase(p, ms[0]), ms[1..], k - 1);
      AfterCons(p, ms, k);
    }
  }

  lemma {:induction false} AfterCons(p: Phase, ms: seq<Msg>, k: nat)
    requires 0 < k <= |ms|
    ensures PhaseAfter(p, ms[..k]) == PhaseAfter(NextPhase(p, ms[0]), ms[1..][..k - 1])
    decreases k
  {
    hide NextPhase;
    assert ms[..k][..k - 1] == ms[..k - 1];
    if k == 1 {
      assert ms[..0] == [] && ms[1..][..0] == [];
    } else {
      AfterCons(p, ms, k - 1);
      assert ms[1..][..k - 1][..k - 2] == ms[1..][..k - 2];
    }
  }

  function Refusals(n: nat): (es: seq<Env>)
    ensures |es| == n && forall k :: 0 <= k < n ==> es[k] == REFUSAL
  {
    seq(n, _ => REFUSAL)
  }

  /** The first k of well-formed messages make a legal run. */
  lemma {:induction false} RefusedRun(s0: Sess, ms: seq<Msg>, cfg: Config, dbs: Databases, k: nat)
    requires WellFormedAll(PhaseOf(s0), ms) && k <= |ms|
    ensures Legal(s0, Zip(ms, Refusals(|ms|))[..k], cfg, dbs)
    decreases k
  {
    hide WellFormedAll, WellFormed, Run, Possible, PhaseAfter, REFUSAL;
    var ins := Zip(ms, Refusals(|ms|));
    if k == 0 {
      assert ins[..0] == [];
      RunEmpty(s0, cfg, dbs);
    } else {
      var t := ins[..k - 1];
      RefusedRun(s0, ms, cfg, dbs, k - 1);
      OneReplyEach(s0, t, cfg, dbs);
      assert Msgs(t) == ms[..k - 1];
      WellFormedThere(PhaseOf(s0), ms, k - 1);
      var s := Run(s0, t, cfg, dbs).0;
      assert ins[k - 1] == Input(ms[k - 1], REFUSAL);
      RefusedStep(s, ms[k - 1], cfg, dbs);
      assert ins[..k] == t + [ins[k - 1]];
      LegalExtend(s0, t, ins[k - 1], cfg, dbs);
    }
  }

  lemma RefusedStep(s: Sess, m: Msg, cfg: Config, dbs: Databases)
    requires WellFormed(PhaseOf(s), m.kind, m.body)
    ensures LegalStep(s, Input(m, REFUSAL), cfg, dbs)
  {
    hide ReadRequest, Possible, OwnBytes, HandleFits;
    RefusalIsPossible(s, RequestOf(PhaseOf(s), m), cfg, dbs);
  }

  /** Whatever requests a client writes, the main loop can serve it: the system has answers for all of them. */
  lemma EveryConversationCanBeServed(s0: Sess, ss: seq<Said>, cfg: Config, dbs: Databases)
    requires Speakable(PhaseOf(s0), ss)
    requires |Unparse(Talk(PhaseOf(s0), ss))| < 0x8000_0000
    ensures exists envs :: Serves(s0, Client(Unparse(Talk(PhaseOf(s0), ss)), envs), cfg, dbs)
  {
    hide Parse, Unparse, Talk, Heard, Requested, WellFormedAll, Speakable, Legal, Run;
    var u := Unparse(Talk(PhaseOf(s0), ss));
    SpokenIsHeard(PhaseOf(s0), ss);
    var ms := Parse(u).msgs;
    RefusedRun(s0, ms, cfg, dbs, |ms|);
    var ins := Zip(ms, Refusals(|ms|));
    assert ins[..|ms|] == ins;
    assert Serves(s0, Client(u, Refusals(|ms|)), cfg, dbs);
  }
}
