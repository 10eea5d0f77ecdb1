/** What a client may rely on, request by request and over runs, told by the requests' own fields. */
module Operations {
  import opened Wrappers
  import opened Bytes
  import opened TextMode
  import opened Handles
  import opened Replies
  import opened Accesses
  import opened Protocol
  import opened SessionRuns
  import opened WireFormat

  // ----- OPEN -----

  /** READ, WRITE and the three ways to ask for appending: in the flags, and from version 5 on in the access mask. */
  predicate AsksRead(v: u32, r: Request)
    requires r.Open?
  {
    (if v >= 5 then r.access else r.pflags) % 2 == 1
  }

  predicate AsksWrite(v: u32, r: Request)
    requires r.Open?
  {
    (if v >= 5 then r.access else r.pflags) / 2 % 2 == 1
  }

  predicate AsksAppend(v: u32, r: Request)
    requires r.Open?
  {
    v >= 5 && (r.access / 4 % 2 == 1 || r.pflags / 8 % 2 == 1 || r.pflags / 16 % 2 == 1)
  }

  predicate AsksText(v: u32, r: Request)
    requires r.Open?
  {
    if v >= 5 then r.pflags / 32 % 2 == 1 else r.pflags / 64 % 2 == 1
  }

  /** What the administrator has forbidden of it. */
  predicate OpenForbidden(v: u32, r: Request, cfg: Config)
    requires r.Open?
  {
    (cfg.noWrite && AsksWrite(v, r)) || (cfg.noOverwrite && AsksAppend(v, r))
  }

  lemma FlagsByBits(v: u32, r: Request)
    requires r.Open?
    ensures var flags := OpenFlags(v, r.access, r.pflags);
            && (IsUpload(flags) <==> AsksWrite(v, r))
            && (WriteOnly(flags) <==> AsksWrite(v, r) && !AsksRead(v, r))
            && (IsAppend(flags) <==> AsksAppend(v, r))
    ensures TextFlag(v, r.pflags) <==> AsksText(v, r)
  {
  }

  /** A forbidden OPEN is denied, and nothing is handed over for it; no other is denied on that ground. */
  lemma OpenIsRefused(s: Sess, r: Request, e: Env, cfg: Config)
    requires r.Open?
    ensures OpenForbidden(s.version, r, cfg) ==> Step(s, r, e, cfg) == (s, StatusReply(r.id, 3))
    ensures !OpenForbidden(s.version, r, cfg) && e.rules != 0 ==> Step(s, r, e, cfg) == (s, StatusReply(r.id, e.rules))
    ensures !OpenForbidden(s.version, r, cfg) && e.rules == 0 ==>
              var (s', p) := Step(s, r, e, cfg);
              && s'.accesses == s.accesses + (if r.path.Some? then [PathAccess(r.path.value)] else [])
              && (e.status != 0 ==> p == StatusReply(r.id, e.status) && s' == s.(accesses := s'.accesses))
  {
    hide OpenFlags, IsUpload, IsAppend, AsksWrite, AsksAppend, UpdateInfo, TextFlag;
    FlagsByBits(s.version, r);
  }

  /** A handle is given exactly if the request is not forbidden, the system opens the file, and a slot is free. */
  lemma OpenIsGranted(s: Sess, r: Request, e: Env, cfg: Config)
    requires r.Open?
    ensures var (s', p) := Step(s, r, e, cfg);
            && (p.HandleReply? <==>
                 && !OpenForbidden(s.version, r, cfg) && e.rules == 0 && e.status == 0
                 && exists i :: 0 <= i < |s.hs| && s.hs[i].state == UNUSED)
            && (p.HandleReply? ==>
                 && InTable(s'.hs, p.h) && OpenedFor(s'.hs[p.h], s.version, r) && s'.hs[p.h].fd == e.fd
                 && s'.hs[p.h].filePos == 0 && s'.hs[p.h].fileSize == e.fileSize
                 && (s'.fast <==> s.fast || !AsksWrite(s.version, r)))
  {
    hide OpenFlags, IsUpload, IsAppend, WriteOnly, AsksWrite, AsksRead, AsksAppend, AsksText, UpdateInfo, TextFlag;
    FlagsByBits(s.version, r);
    var k := FirstUnused(s.hs);
    assert k < |s.hs| ==> s.hs[k].state == UNUSED;
  }

  /** The slot holds the file that r asked for, in the way r asked for it. */
  predicate OpenedFor(h: Handle, v: u32, r: Request)
    requires r.Open?
  {
    && h.state == FILE && h.path == r.path
    && (IsUpload(h.flags) <==> AsksWrite(v, r))
    && (WriteOnly(h.flags) <==> AsksWrite(v, r) && !AsksRead(v, r))
    && (h.fileIsText <==> AsksText(v, r))
  }

  // ----- the other requests -----

  /** What a request is told that names no handle of its kind. */
  function UnknownHandle(id: u32, v: u32): Reply {
    StatusReply(id, if v <= 3 then 4 else 9)
  }

  /** INIT settles on the older of the two versions, but on none below 3. */
  lemma InitNegotiates(s: Sess, r: Request, e: Env, cfg: Config)
    requires r.Init?
    ensures var (s', p) := Step(s, r, e, cfg);
            && p == VersionReply && s' == s.(conn := CONN_SFTP, version := s'.version)
            && (r.clientVersion <= 3 <= s.version ==> s'.version == 3)
            && (3 <= r.clientVersion <= s.version ==> s'.version == r.clientVersion)
            && (3 <= s.version <= r.clientVersion ==> s'.version == s.version)
  {
  }

  /** CLOSE frees the slot that it names, and no other; the fast cleaning ends with a download. */
  lemma CloseFrees(s: Sess, r: Request, e: Env, cfg: Config)
    requires r.Close? && |s.hs| == 100
    ensures var (s', p) := Step(s, r, e, cfg);
            if !(0 <= r.h < 100) then s' == s && p == UnknownHandle(r.id, s.version)
            else
              && p == StatusReply(r.id, 0) && s'.hs[r.h].state == UNUSED && s'.accesses == s.accesses
              && |s'.hs| == 100 && (forall i :: 0 <= i < 100 && i != r.h ==> s'.hs[i] == s.hs[i])
              && (s'.fast <==> s.fast && (s.hs[r.h].state != FILE || IsUpload(s.hs[r.h].flags)))
  {
    hide UpdateInfo, IsUpload;
  }

  /** The bytes that go through a handle opened as text: without the carriage returns that stood before a line feed. */
  ghost predicate PassedOn(data: bytes, d: bytes, isText: bool) {
    if !isText then d == data
    else
      && Without(d, 13) == Without(data, 13) && (HasCrLf(d) <==> HasCrCrLf(data))
      && (!HasCrLf(data) ==> d == data) && |d| <= |data| && (data != [] ==> d != [])
  }

  lemma DeliveredIsPassedOn(data: bytes, isText: bool)
    ensures PassedOn(data, Delivered(data, isText), isText)
  {
    hide CrLfToLf, HasCrLf, HasCrCrLf, Without;
    KeepsAllButCr(data);
    CompleteUnlessCrCrLf(data);
    SecondPassIdle(data);
    NeverLonger(data);
  }

  lemma NeverLonger(data: bytes)
    ensures |CrLfToLf(data)| <= |data| && (data != [] ==> CrLfToLf(data) != [])
  {
  }

  /** Nothing but the position in one file, and the status with it, is changed. */
  ghost predicate OnlyMoved(s: Sess, s': Sess, h: int, pos: int) {
    && InTable(s.hs, h) && |s'.hs| == |s.hs| && s'.hs[h].filePos == pos
    && s'.hs[h].(filePos := 0) == s.hs[h].(filePos := 0)
    && (forall i :: 0 <= i < |s.hs| && i != h ==> s'.hs[i] == s.hs[i])
    && s' == s.(hs := s'.hs, who := s'.who)
  }

  /** READ of an open file hands on what read() gave; an empty read is the end of the file. */
  lemma ReadDelivers(s: Sess, r: Request, e: Env, cfg: Config)
    requires r.Read? && !cfg.noRead && IsFile(s.hs, r.h) && (s.hs[r.h].fileIsText || e.seekStatus == 0)
    ensures var (s', p) := Step(s, r, e, cfg);
            match e.got
            case ReadError(code) => s' == s && p == StatusReply(r.id, code)
            case ReadBytes(data) =>
              if data == [] then s' == s && p == StatusReply(r.id, 1)
              else
                && p.DataReply? && p.id == r.id && PassedOn(data, p.data, s.hs[r.h].fileIsText)
                && OnlyMoved(s, s', r.h, (r.off + |p.data|) % 0x1_0000_0000_0000_0000)
  {
    hide UpdateInfo, PassedOn;
    if e.got.ReadBytes? {
      DeliveredIsPassedOn(e.got.data, s.hs[r.h].fileIsText);
      NeverLonger(e.got.data);
    }
  }

  lemma ReadIsRefused(s: Sess, r: Request, e: Env, cfg: Config)
    requires r.Read?
    ensures cfg.noRead ==> Step(s, r, e, cfg) == (s, StatusReply(r.id, 4))
    ensures !cfg.noRead && !IsFile(s.hs, r.h) ==> Step(s, r, e, cfg) == (s, UnknownHandle(r.id, s.version))
  {
    hide UpdateInfo, Delivered;
  }

  /** WRITE succeeds exactly if write() took all that was passed on; `written` is what it took, or -1. */
  lemma WriteReports(s: Sess, r: Request, e: Env, cfg: Config)
    requires r.Write? && r.data.Some?
    ensures !IsFile(s.hs, r.h) ==> Step(s, r, e, cfg) == (s, UnknownHandle(r.id, s.version))
    ensures IsFile(s.hs, r.h) ==>
              var (s', p) := Step(s, r, e, cfg);
              && PassedOn(r.data.value, ToWrite(s, r), s.hs[r.h].fileIsText)
              && OnlyMoved(s, s', r.h, (r.off + e.written) % 0x1_0000_0000_0000_0000)
              && p == StatusReply(r.id, if e.written == -1 then e.errStatus else if e.written == |ToWrite(s, r)| then 0 else 4)
  {
    hide UpdateInfo, PassedOn, Delivered;
    if IsFile(s.hs, r.h) {
      DeliveredIsPassedOn(r.data.value, s.hs[r.h].fileIsText);
    }
  }

  /** OPENDIR is given a handle exactly if the system opens the directory and a slot is free. */
  lemma OpenDirIsGranted(s: Sess, r: Request, e: Env, cfg: Config)
    requires r.OpenDir?
    ensures var (s', p) := Step(s, r, e, cfg);
            && (p.HandleReply? <==> e.status == 0 && exists i :: 0 <= i < |s.hs| && s.hs[i].state == UNUSED)
            && (p.HandleReply? ==> InTable(s'.hs, p.h) && s'.hs[p.h].state == DIR && s'.hs[p.h].path == e.dir)
            && (!p.HandleReply? ==> s'.hs == s.hs && p == StatusReply(r.id, if e.status != 0 then e.status else 4))
  {
    hide UpdateInfo;
    var k := FirstUnused(s.hs);
    assert k < |s.hs| ==> s.hs[k].state == UNUSED;
  }

  /** READDIR lists what the system gives, a hundred entries at a time, and then the end. */
  lemma ReadDirLists(s: Sess, r: Request, e: Env, cfg: Config)
    requires r.ReadDir?
    ensures var p := Step(s, r, e, cfg).1;
            if cfg.noReadDir then p == StatusReply(r.id, 3)
            else if !IsDir(s.hs, r.h) then p == UnknownHandle(r.id, s.version)
            else if e.entries == [] then p == StatusReply(r.id, 1)
            else
              && p.NameReply? && p.id == r.id && p.entries <= e.entries
              && (|p.entries| == 100 || (|p.entries| < 100 && p.entries == e.entries))
  {
  }

  /** STAT and FSTAT give all fields of the attributes; from version 4 on the client's mask says which are sent. */
  lemma StatTells(s: Sess, r: Request, e: Env, cfg: Config)
    requires r.Stat? || r.FStat?
    ensures var p := Step(s, r, e, cfg).1;
            if r.FStat? && !IsFile(s.hs, r.h) then p == UnknownHandle(r.id, s.version)
            else if e.status != 0 then p == StatusReply(r.id, e.status)
            else
              && p.AttrsReply? && p.id == r.id && p.attrs.(flags := 0) == e.attrs.(flags := 0)
              && p.attrs.flags == if s.version >= 4 then r.mask else e.attrs.flags
  {
  }

  /** REALPATH and READLINK name one path, the system's; an unknown request is told that it is not supported. */
  lemma OnePathIsNamed(s: Sess, r: Request, e: Env, cfg: Config)
    requires r.RealPath? || r.ReadLink? || r.Unsupported?
    ensures var (s', p) := Step(s, r, e, cfg);
            && s' == s.(accesses := s'.accesses)
            && (r.Unsupported? ==> p == StatusReply(r.id, 8))
            && (r.ReadLink? && e.status != 0 ==> p == StatusReply(r.id, e.status))
            && (r.RealPath? || (r.ReadLink? && e.status == 0) ==>
                  && p.NameReply? && p.id == r.id && |p.entries| == 1
                  && p.entries[0].name == p.entries[0].longName == e.name && p.entries[0].attrs.flags == 0)
  {
    hide PathResolve.ScanPath;
  }

  /** The switch that forbids a request, and the requests that no switch forbids. */
  predicate SwitchedOff(r: Request, cfg: Config) {
    match r
    case SetStat(_, _) => cfg.noSetStat
    case FSetStat(_, _) => cfg.noSetStat
    case PathOp(_, op, _, _) =>
      (op == Remove && cfg.noRemove) || (op == MkDir && cfg.noMkDir) || (op == RmDir && cfg.noRmDir)
      || (op == Rename && cfg.noRename) || (op == SymLink && cfg.noSymLink)
    case Extended(_, _, _, _) => cfg.noSymLink
    case _ => false
  }

  /** The requests that are answered by a status: denied if switched off, and else the system's own. */
  lemma SwitchesDeny(s: Sess, r: Request, e: Env, cfg: Config)
    requires r.SetStat? || r.FSetStat? || r.PathOp? || r.Extended?
    ensures var (s', p) := Step(s, r, e, cfg);
            && s' == s.(accesses := s'.accesses)
            && p == (if r.FSetStat? && !InTable(s.hs, r.h) then UnknownHandle(r.id, s.version)
                     else if r.Extended? && r.name != Some(HARDLINK) then StatusReply(r.id, 8)
                     else StatusReply(r.id, if SwitchedOff(r, cfg) then 3 else e.status))
            && ((r.PathOp? || r.Extended?) && SwitchedOff(r, cfg) ==> s' == s)
  {
    hide UpdateInfo;
  }

  /** What is handed over for a request that is not refused: its paths, a handle's, a listing's entries, a shown path. */
  lemma HandsOver(s: Sess, r: Request, e: Env, cfg: Config)
    requires r.Write? ==> r.data.Some?
    ensures s.accesses <= Step(s, r, e, cfg).0.accesses
    ensures var more := Step(s, r, e, cfg).0.accesses[|s.accesses|..];
            && (r.Stat? || r.SetStat? || r.ReadLink? || (r.PathOp? && !SwitchedOff(r, cfg)) ==>
                  forall p :: PathAccess(p) in more <==> r.path == Some(p) || (r.PathOp? && r.other == Some(p)))
            && ((r.FStat? && IsFile(s.hs, r.h)) || (r.FSetStat? && InTable(s.hs, r.h)) ==>
                  forall p :: PathAccess(p) in more <==> s.hs[r.h].path == Some(p))
            && (r.Extended? && r.name == Some(HARDLINK) && !SwitchedOff(r, cfg) ==>
                  forall p :: PathAccess(p) in more <==> r.path == Some(p) || r.other == Some(p))
            && (r.OpenDir? ==> forall p :: PathAccess(p) in more <==> e.dir == Some(p))
            && (r.Init? || r.Close? || r.Read? || r.Write? || r.Unsupported? ==> more == [])
  {
    hide UpdateInfo, OpenFlags, TextFlag, IsAppend, IsUpload, Delivered, Moved, ToWrite, OfEntries, OfShown;
    StepRecords(s, r, e, cfg);
  }

  /** READDIR resolves every listed name behind the handle's path, and REALPATH shows its path. */
  lemma EntriesHandedOver(s: Sess, r: Request, e: Env, cfg: Config)
    requires r.ReadDir? || r.RealPath?
    ensures s.accesses <= Step(s, r, e, cfg).0.accesses
    ensures var more := Step(s, r, e, cfg).0.accesses[|s.accesses|..];
            && (r.ReadDir? && !cfg.noReadDir && IsDir(s.hs, r.h) && s.hs[r.h].path.Some? ==>
                  |more| == |e.met| && forall i :: 0 <= i < |e.met| ==> more[i] == EntryAccess(s.hs[r.h].path.value, e.met[i]))
            && (r.ReadDir? && (cfg.noReadDir || !IsDir(s.hs, r.h)) ==> more == [])
            && (r.RealPath? ==> more == [] || (r.path.Some? && more == [ShownAccess(r.path.value)]))
  {
    hide PathResolve.ScanPath;
    StepRecords(s, r, e, cfg);
  }

  /** From the bytes sent for a message, a client reads what the machine replied. */
  lemma ReplyReachesClient(s: Sess, i: Input, cfg: Config, dbs: Databases)
    requires LegalStep(s, i, cfg, dbs)
    requires var r := RequestOf(PhaseOf(s), i.msg);
             (r.Write? ==> r.data.Some?) ==> PlainReply(Step(s, r, i.env, cfg).1, Step(s, r, i.env, cfg).0.version)
    ensures var r := RequestOf(PhaseOf(s), i.msg);
            && (r.Write? ==> r.data.Some?)
            && var (s', p) := Step(s, r, i.env, cfg);
               Tells(Understood(Act(s, i, cfg, dbs).1, s'.version), p, s'.version, dbs)
  {
    hide ReadRequest, Step, PlainReply, Tells, Understood, Payload, Sendable;
    LegalData(s, i, cfg, dbs);
    var r := RequestOf(PhaseOf(s), i.msg);
    var (s', p) := Step(s, r, i.env, cfg);
    ReplyIsRead(p, s'.version, dbs);
  }

  // ----- runs: why a file is open -----

  ghost predicate OpenedBy(s0: Sess, ins: seq<Input>, k: nat, h: Handle)
    requires k < |ins|
  {
    var ph := PhaseAfter(PhaseOf(s0), Msgs(ins)[..k]);
    var r := RequestOf(ph, ins[k].msg);
    r.Open? && OpenedFor(h, ph.version, r)
  }

  /** Some OPEN of the run asked for this file, in this way. */
  ghost predicate WasAsked(s0: Sess, ins: seq<Input>, h: Handle) {
    exists k :: 0 <= k < |ins| && OpenedBy(s0, ins, k, h)
  }

  predicate SameFile(h: Handle, h': Handle) {
    h.state == h'.state && h.path == h'.path && h.flags == h'.flags && h.fileIsText == h'.fileIsText
  }

  lemma StepOpens(s: Sess, r: Request, e: Env, cfg: Config, i: nat)
    requires (r.Write? ==> r.data.Some?) && i < |Step(s, r, e, cfg).0.hs| && Step(s, r, e, cfg).0.hs[i].state == FILE
    ensures || (r.Open? && OpenedFor(Step(s, r, e, cfg).0.hs[i], s.version, r))
            || (i < |s.hs| && SameFile(s.hs[i], Step(s, r, e, cfg).0.hs[i]))
  {
    hide OpenFlags, IsUpload, IsAppend, WriteOnly, AsksWrite, AsksRead, AsksText, UpdateInfo, TextFlag, Delivered, ToWrite;
    if r.Open? {
      FlagsByBits(s.version, r);
    }
  }

  /** In every run, each file that is open was asked for by an OPEN of the run, with the access that it now has. */
  lemma {:induction false} OpenFilesWereAsked(s0: Sess, ins: seq<Input>, cfg: Config, dbs: Databases)
    requires Legal(s0, ins, cfg, dbs) && forall i :: 0 <= i < |s0.hs| ==> s0.hs[i].state != FILE
    ensures var hs := Run(s0, ins, cfg, dbs).0.hs;
            forall i :: 0 <= i < |hs| && hs[i].state == FILE ==> WasAsked(s0, ins, hs[i])
    decreases |ins|
  {
    hide Run, Legal, LegalStep, Act, RequestOf, OpenedFor, PhaseAfter, WasAsked;
    if ins == [] {
      RunEmpty(s0, cfg, dbs);
    } else {
      var n := |ins| - 1;
      var t := ins[..n];
      RunSnoc(s0, ins, cfg, dbs);
      OpenFilesWereAsked(s0, t, cfg, dbs);
      var s := Run(s0, t, cfg, dbs).0;
      var hs := Run(s0, ins, cfg, dbs).0.hs;
      forall i | 0 <= i < |hs| && hs[i].state == FILE ensures WasAsked(s0, ins, hs[i]) {
        LastMessageOpens(s0, ins, cfg, dbs, i);
        if i < |s.hs| && SameFile(s.hs[i], hs[i]) {
          AskedBefore(s0, ins, s.hs[i], hs[i]);
        }
      }
    }
  }

  lemma AskedBefore(s0: Sess, ins: seq<Input>, h: Handle, h': Handle)
    requires ins != [] && WasAsked(s0, ins[..|ins| - 1], h) && SameFile(h, h')
    ensures WasAsked(s0, ins, h')
  {
    hide RequestOf, PhaseAfter;
    var t := ins[..|ins| - 1];
    var k: nat :| k < |t| && OpenedBy(s0, t, k, h);
    assert Msgs(ins)[..k] == Msgs(t)[..k];
    assert OpenedBy(s0, ins, k, h');
  }

  lemma LastMessageOpens(s0: Sess, ins: seq<Input>, cfg: Config, dbs: Databases, i: nat)
    requires ins != [] && Legal(s0, ins, cfg, dbs) && Legal(s0, ins[..|ins| - 1], cfg, dbs)
    requires i < |Run(s0, ins, cfg, dbs).0.hs| && Run(s0, ins, cfg, dbs).0.hs[i].state == FILE
    ensures var s, h := Run(s0, ins[..|ins| - 1], cfg, dbs).0, Run(s0, ins, cfg, dbs).0.hs[i];
            WasAsked(s0, ins, h) || (i < |s.hs| && SameFile(s.hs[i], h))
  {
    hide Run, Legal, RequestOf, OpenedFor, PhaseAfter, Step, LegalStep, Act, SameFile;
    var n := |ins| - 1;
    var t := ins[..n];
    RunSnoc(s0, ins, cfg, dbs);
    OneReplyEach(s0, t, cfg, dbs);
    var s := Run(s0, t, cfg, dbs).0;
    assert Msgs(ins)[..n] == Msgs(t);
    var r := RequestOf(PhaseOf(s), ins[n].msg);
    LegalData(s, ins[n], cfg, dbs);
    StepOpens(s, r, ins[n].env, cfg, i);
    var h := Run(s0, ins, cfg, dbs).0.hs[i];
    if r.Open? && OpenedFor(h, s.version, r) {
      assert OpenedBy(s0, ins, n, h);
    }
  }

  /** h is the highest slot with an open file. */
  ghost predicate IsHighestFile(hs: Handles, h: nat) {
    h < |hs| && hs[h].state == FILE && forall j :: h < j < |hs| ==> hs[j].state != FILE
  }

  /**
    In every run the session is shown as idle exactly if no file is open, and else as an upload or a download
    by whether the highest open file was asked for to be written only, with that file's name.
   */
  lemma StatusTellsTheOpen(s0: Sess, ins: seq<Input>, cfg: Config, dbs: Databases)
    requires Inv(s0) && Legal(s0, ins, cfg, dbs) && forall i :: 0 <= i < |s0.hs| ==> s0.hs[i].state != FILE
    ensures var s := Run(s0, ins, cfg, dbs).0;
            && (s.who.status % 0x100 == 1 <==> forall i :: 0 <= i < |s.hs| ==> s.hs[i].state != FILE)
            && (s.who.status % 0x100 == 1 ==> s.who.file == [])
            && forall h: nat :: IsHighestFile(s.hs, h) ==>
                 && WasAsked(s0, ins, s.hs[h])
                 && s.who.status % 0x100 == (if s.hs[h].flags % 2 == 1 then 3 else 2)
                 && s.who.downloadPos == Percent(s.hs[h])
                 && (s.hs[h].path.Some? && |s.hs[h].path.value| <= 199 ==> s.who.file == s.hs[h].path.value)
  {
    hide Run, Legal, WasAsked, PhaseAfter, Numbered;
    StatusFollowsTable(s0, ins, cfg, dbs);
    OpenFilesWereAsked(s0, ins, cfg, dbs);
    var s := Run(s0, ins, cfg, dbs).0;
    var i := LastOpen(s.hs, FILE);
    forall h: nat | IsHighestFile(s.hs, h) ensures h == i {
    }
  }

  /** The percentage, while position and size are such that it does not overflow. */
  lemma PercentIsShare(h: Handle)
    requires h.fileSize > 0 && h.filePos <= h.fileSize && h.filePos * 100 < 0x1_0000_0000_0000_0000
    ensures Percent(h) <= 100 && Percent(h) * h.fileSize <= h.filePos * 100 < (Percent(h) + 1) * h.fileSize
  {
    Quotient(h.filePos * 100, h.fileSize);
  }

  lemma Quotient(a: nat, b: nat)
    requires b > 0 && a <= 100 * b
    ensures 0 <= a / b <= 100 && a / b * b <= a < (a / b + 1) * b
  {
    var q := a / b;
    assert a == q * b + a % b;
    assert (q + 1) * b == q * b + b;
    AtMostHundred(q, b);
  }

  lemma AtMostHundred(q: int, b: nat)
    requires b > 0 && q * b <= 100 * b
    ensures q <= 100
  {
    assert (100 - q) * b >= 0;
  }
}
