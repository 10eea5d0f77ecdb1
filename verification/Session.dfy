/** The handlers and the dispatcher of Sftp.c on the real buffers and tables; they refine the state machine. */
module Session {
  import opened Wrappers
  import opened Bytes
  import opened Buffers
  import opened UserTable
  import opened Attributes
  import opened TextMode
  import opened Handles
  import opened Replies
  import opened Framing
  import opened Accesses
  import opened Protocol
  import opened SessionRuns

  lemma HandleBytesThere(u: bytes)
    requires HandleFits(u)
    ensures var u1 := Next32(true, u).1; TakeHandle(u1).1 <= |u1|
  {
    assert Next32(true, u).1 == u[4..];
    var w := u[4..];
    assert TakeInt32(w) == (Dec32(w), 4);
  }

  lemma DataBodyLength(id: u32, data: text)
    ensures |DataBody(id, data)| == 9 + |data|
  {
    hide Enc32;
  }

  class Session {
    const cfg: Config
    ghost const dbs: Databases
    const bIn: Buffer
    const bOut: Buffer
    const table: HandleTable
    const users: InfoTable
    const groups: InfoTable
    var connectionStatus: Conn
    var cVersion: u32
    var who: Who
    /** Everything that the handlers have handed to FileSystem.c, in order. */
    ghost var accesses: seq<Access>

    ghost predicate Valid()
      reads this, bIn, bIn.data, bOut, bOut.data, table, table.slots, users, users.tb, groups, groups.tb
    {
      && bIn != bOut && bIn.data != bOut.data && bIn.Valid() && bOut.Valid()
      && bIn.fastClean == bOut.fastClean
      && table.Valid()
      && Caches(users, groups, dbs) && Sound(dbs)
    }

    ghost function Footprint(): set<object>
      reads this, bIn, bOut, users, groups
    {
      {this, bIn, bIn.data, bOut, bOut.data, table, table.slots, users, users.tb, groups, groups.tb}
    }

    ghost function State(): Sess
      reads this, bIn, table
    {
      Sess(connectionStatus, cVersion, table.hs, who, bIn.fastClean, accesses)
    }

    ghost function Now(): Phase
      reads this
    {
      Phase(connectionStatus, cVersion)
    }

    /** The call kept everything in order and added the packet of this reply to the output. */
    twostate predicate Sent(p: Reply)
      reads this, bIn, bIn.data, bOut, bOut.data, table, table.slots, users, users.tb, groups, groups.tb
    {
      && Valid() && fresh(Footprint() - old(Footprint()))
      && Sendable(p, cVersion, dbs)
      && bOut.content == old(bOut.content) + EncString(Payload(p, cVersion, dbs))
      && bOut.read == old(bOut.read)
    }

    /** The call handled request r: the machine's state and reply, and `rest` still unread. */
    twostate predicate Handled(r: Request, e: Env, rest: bytes)
      requires r.Write? ==> r.data.Some?
      reads this, bIn, bIn.data, bOut, bOut.data, table, table.slots, users, users.tb, groups, groups.tb
    {
      && State() == Step(old(State()), r, e, cfg).0
      && Sent(Step(old(State()), r, e, cfg).1)
      && bIn.Unread() == rest && bIn.length == old(bIn.length) && old(bIn.read) <= bIn.read
    }

    constructor (cfg: Config, dbs: Databases, bIn: Buffer, bOut: Buffer, table: HandleTable,
                 users: InfoTable, groups: InfoTable, version: u32, who: Who)
      requires bIn != bOut && bIn.data != bOut.data && bIn.Valid() && bOut.Valid() && bIn.fastClean == bOut.fastClean
      requires table.Valid() && Caches(users, groups, dbs) && Sound(dbs)
      ensures Valid() && this.cfg == cfg && this.dbs == dbs
      ensures this.bIn == bIn && this.bOut == bOut && this.table == table && this.users == users && this.groups == groups
      ensures State() == Sess(CONN_INIT, version, table.hs, who, bIn.fastClean, [])
    {
      hide Caches, Sound;
      this.cfg, this.dbs, this.bIn, this.bOut, this.table, this.users, this.groups := cfg, dbs, bIn, bOut, table, users, groups;
      connectionStatus, cVersion, this.who, accesses := CONN_INIT, version, who, [];
    }

    // ----- reading a message -----

    method GetId() returns (id: u32)
      requires Valid()
      modifies bIn`read
      ensures Valid() && State() == old(State()) && old(bIn.read) <= bIn.read
      ensures (id, bIn.Unread()) == Next32(true, old(bIn.Unread())) && bIn.ReadTo(bIn.Unread())
    {
      hide Next32, Caches, Sound;
      id := Get32(bIn, true);
    }

    method GetIdHandle() returns (id: u32, h: int)
      requires Valid() && HandleFits(bIn.Unread())
      modifies bIn`read
      ensures Valid() && State() == old(State()) && old(bIn.read) <= bIn.read
      ensures id == Next32(true, old(bIn.Unread())).0
      ensures (h, bIn.Unread()) == NextHandle(Next32(true, old(bIn.Unread())).1) && bIn.ReadTo(bIn.Unread())
    {
      hide Next32, Caches, Sound, TakeHandle, HandleFits;
      HandleBytesThere(bIn.Unread());
      id := Get32(bIn, true);
      h := bIn.BufferGetHandle();
    }

    method GetIdText() returns (id: u32, s: Option<text>)
      requires Valid()
      modifies bIn`read
      ensures Valid() && State() == old(State()) && old(bIn.read) <= bIn.read
      ensures id == Next32(true, old(bIn.Unread())).0
      ensures (s, bIn.Unread()) == NextText(true, Next32(true, old(bIn.Unread())).1) && bIn.ReadTo(bIn.Unread())
    {
      hide Next32, NextText, Caches, Sound;
      id := Get32(bIn, true);
      s := GetText(bIn, true);
    }

    /** A call into FileSystem.c. */
    ghost method HandOver(as': seq<Access>)
      requires Valid()
      modifies this`accesses
      ensures Valid() && State() == Record(old(State()), as')
    {
      hide Caches, Sound;
      accesses := accesses + as';
      assert as' == [] ==> accesses == old(accesses);
    }

    // ----- replies -----

    method ReplyStatus(id: u32, code: u32)
      requires Valid()
      modifies bOut, bOut.data
      ensures Sent(StatusReply(id, code)) && State() == old(State())
    {
      hide StatusBody, EncString, Caches, Sound;
      SendStatus(bOut, id, code, cVersion);
    }

    /** A call into FileSystem.c whose outcome is a status. */
    method ReplyOutcome(ghost as': seq<Access>, id: u32, code: u32)
      requires Valid()
      modifies this`accesses, bOut, bOut.data
      ensures Sent(StatusReply(id, code)) && State() == Record(old(State()), as')
      ensures bIn.Unread() == old(bIn.Unread()) && bIn.length == old(bIn.length) && bIn.read == old(bIn.read)
    {
      hide Record, Payload, Sendable, EncString, Caches, Sound;
      HandOver(as');
      ReplyStatus(id, code);
    }

    method ReplyHandle(id: u32, h: int)
      requires Valid() && 0 <= h < HANDLE_NUMBER
      modifies bOut, bOut.data
      ensures Sent(HandleReply(id, h)) && State() == old(State())
    {
      hide EncString, Caches, Sound;
      SendHandle(bOut, id, h);
    }

    method ReplyAttrs(id: u32, a: Attrs)
      requires Valid() && Sendable(AttrsReply(id, a), cVersion, dbs)
      modifies bOut, bOut.data, users, users.tb, groups, groups.tb
      ensures Sent(AttrsReply(id, a)) && State() == old(State())
    {
      hide EncString, Sound, AttrsBody;
      SendAttributes(bOut, id, a, cVersion, users, groups, dbs);
    }

    method ReplyNames(id: u32, es: seq<Entry>)
      requires Valid() && Sendable(NameReply(id, es), cVersion, dbs)
      modifies bOut, bOut.data, users, users.tb, groups, groups.tb
      ensures Sent(NameReply(id, es)) && State() == old(State())
    {
      hide EncString, Sound, NameBody;
      SendStats(bOut, id, es, cVersion, users, groups, dbs);
    }

    method SetFastClean(on: bool)
      requires Valid()
      modifies bIn`fastClean, bOut`fastClean
      ensures Valid() && State() == old(State()).(fast := on)
    {
      bIn.fastClean := on;
      bOut.fastClean := on;
    }

    // ----- handlers -----

    method DoInit(ghost e: Env)
      requires Valid()
      modifies Footprint()
      ensures Handled(ReadInit(old(bIn.Unread())).0, e, ReadInit(old(bIn.Unread())).1)
    {
      hide Next32, Caches, Sound, EncString, VersionBody;
      var clientVersion := GetId();
      connectionStatus := CONN_SFTP;
      if clientVersion < 3 {
        cVersion := 3;
      } else if clientVersion < cVersion {
        cVersion := clientVersion;
      }
      SendVersion(bOut, cVersion);
    }

    method DoUnsupported(ghost e: Env)
      requires Valid()
      modifies Footprint()
      ensures Handled(ReadUnsupported(old(bIn.Unread())).0, e, ReadUnsupported(old(bIn.Unread())).1)
    {
      hide Next32, Caches, Sound, Payload, Sendable;
      var id := GetId();
      ReplyStatus(id, FX_OP_UNSUPPORTED);
    }

    method DoClose(ghost e: Env)
      requires Valid() && HandleFits(bIn.Unread())
      modifies Footprint()
      ensures Handled(ReadClose(old(bIn.Unread())).0, e, ReadClose(old(bIn.Unread())).1)
    {
      hide Next32, NextHandle, Caches, Sound, Payload, Sendable, UpdateInfo, IsUpload, HandleFits;
      var id, h := GetIdHandle();
      var status := BadHandle(cVersion);
      if 0 <= h < HANDLE_NUMBER {
        status := FX_OK;
        CloseSlotOf(h);
      }
      ReplyStatus(id, status);
    }

    /** Closes a slot; for a file the status follows, and a download ends the fast cleaning. */
    method CloseSlotOf(h: nat)
      requires Valid() && h < HANDLE_NUMBER
      modifies this`who, bIn`fastClean, bOut`fastClean, table, table.slots
      ensures Valid() && State() == StepClose(old(State()), Request.Close(0, h)).0
    {
      hide Caches, Sound, UpdateInfo, IsUpload;
      if table.slots[h].state == FILE {
        if !IsUpload(table.slots[h].flags) {
          SetFastClean(false);
        }
        table.HandleClose(h);
        who := table.UpdateInfoForOpenFiles(who);
      } else {
        table.HandleClose(h);
      }
    }

    /** GetAttributes: the answer is used for file modes only, which the machine does not see. */
    method SkipAttrs() returns (a: Attrs)
      requires Valid()
      modifies bIn`read, users, users.tb, groups, groups.tb
      ensures Valid() && State() == old(State()) && old(bIn.read) <= bIn.read && fresh(Footprint() - old(Footprint()))
      ensures bIn.ReadTo(NextAttrs(old(bIn.Unread()), cVersion))
    {
      hide DecAttributes, Faithful, OneToOne, Ask, Resolve;
      ghost var d := DecAttributes(bIn.Unread(), cVersion);
      if d.user.Some? {
        AskStaysFaithful(users.entries, dbs.users, ByName(d.user.value));
      }
      if d.group.Some? {
        AskStaysFaithful(groups.entries, dbs.groups, ByName(d.group.value));
      }
      a := GetAttributes(bIn, cVersion, users, groups);
    }

    /** The fields of an OPEN request. */
    method GetOpen() returns (id: u32, path: Option<text>, access: u32, pflags: u32)
      requires Valid()
      modifies bIn`read, users, users.tb, groups, groups.tb
      ensures Valid() && State() == old(State()) && old(bIn.read) <= bIn.read && fresh(Footprint() - old(Footprint()))
      ensures (Request.Open(id, path, access, pflags), bIn.Unread()) == ReadOpen(old(bIn.Unread()), cVersion)
    {
      hide Next32, NextText, NextAttrs, Caches, Sound;
      id, path := GetIdText();
      access := Get32(bIn, cVersion >= 5);
      pflags := Get32(bIn, true);
      var a := SkipAttrs();
    }

    method DoOpen(e: Env)
      requires Valid()
      requires Possible(State(), ReadOpen(bIn.Unread(), cVersion).0, e, cfg, dbs)
      modifies Footprint()
      ensures Handled(ReadOpen(old(bIn.Unread()), old(cVersion)).0, e, ReadOpen(old(bIn.Unread()), old(cVersion)).1)
    {
      hide ReadOpen, Caches, Sound, Payload, Sendable, StepOpen;
      var id, path, access, pflags := GetOpen();
      ActOpen(id, path, access, pflags, e);
    }

    method ActOpen(id: u32, path: Option<text>, access: u32, pflags: u32, e: Env)
      requires Valid()
      modifies Footprint()
      ensures var r, s0 := Request.Open(id, path, access, pflags), old(State());
              State() == Record(StepOpen(s0, r, e, cfg).0, AccessesOf(s0, r, e, cfg)) && Sent(StepOpen(s0, r, e, cfg).1)
      ensures bIn.Unread() == old(bIn.Unread()) && bIn.length == old(bIn.length) && bIn.read == old(bIn.read)
    {
      hide Caches, Sound, Payload, Sendable, UpdateInfo, IsUpload, IsAppend, OpenFlags, TextFlag, OfPath, FirstUnused, Opened;
      var flags := OpenFlags(cVersion, access, pflags);
      if (cfg.noOverwrite && IsAppend(flags)) || (cfg.noWrite && IsUpload(flags)) {
        ReplyStatus(id, FX_PERMISSION_DENIED);
      } else if e.rules != FX_OK {
        ReplyStatus(id, e.rules);
      } else {
        HandOver(OfPath(path));
        OpenPermitted(id, path, flags, TextFlag(cVersion, pflags), e);
      }
    }

    method OpenPermitted(id: u32, path: Option<text>, flags: u32, textMode: bool, e: Env)
      requires Valid()
      modifies this`who, bIn`fastClean, bOut, bOut.data, table, table.slots
      ensures var s, k := old(State()), FirstUnused(old(table.hs));
              if e.status != FX_OK then State() == s && Sent(StatusReply(id, e.status))
              else if k >= HANDLE_NUMBER then State() == s && Sent(StatusReply(id, EMFILE_STATUS))
              else
                var hs := s.hs[k := Opened(s.hs[k], FILE, path, e.fd, textMode, flags).(filePos := 0, fileSize := e.fileSize)];
                State() == s.(hs := hs, who := UpdateInfo(hs, s.who), fast := s.fast || !IsUpload(flags)) && Sent(HandleReply(id, k))
    {
      hide Caches, Sound, Payload, Sendable, UpdateInfo, IsUpload, FirstUnused, Opened;
      if e.status != FX_OK {
        ReplyStatus(id, e.status);
      } else {
        OpenFile(id, path, flags, textMode, e);
      }
    }

    /** A slot for the opened file, and its number to the client; or a failure when all are taken. */
    method OpenFile(id: u32, path: Option<text>, flags: u32, textMode: bool, e: Env)
      requires Valid()
      modifies this`who, bIn`fastClean, bOut, bOut.data, table, table.slots
      ensures var s, k := old(State()), FirstUnused(old(table.hs));
              if k >= HANDLE_NUMBER then State() == s && Sent(StatusReply(id, EMFILE_STATUS))
              else
                var hs := s.hs[k := Opened(s.hs[k], FILE, path, e.fd, textMode, flags).(filePos := 0, fileSize := e.fileSize)];
                State() == s.(hs := hs, who := UpdateInfo(hs, s.who), fast := s.fast || !IsUpload(flags)) && Sent(HandleReply(id, k))
    {
      hide Caches, Sound, Payload, Sendable, UpdateInfo, IsUpload, FirstUnused;
      var hdl := table.HandleNew(FILE, path, e.fd, textMode, flags);
      if hdl < 0 {
        ReplyStatus(id, EMFILE_STATUS);
      } else {
        ghost var h := table.hs[hdl];
        StartTransfer(hdl, e.fileSize);
        assert table.hs == old(table.hs)[hdl := h.(filePos := 0, fileSize := e.fileSize)];
        ReplyHandle(id, hdl);
      }
    }

    /** The new file starts at position 0; a download switches to fast cleaning. */
    method StartTransfer(hdl: nat, fileSize: u64)
      requires Valid() && hdl < HANDLE_NUMBER
      modifies this`who, bIn`fastClean, bOut`fastClean, table, table.slots
      ensures Valid()
      ensures var h := old(table.hs)[hdl].(filePos := 0, fileSize := fileSize);
              var hs := old(table.hs)[hdl := h];
              State() == old(State()).(hs := hs, who := UpdateInfo(hs, old(who)), fast := old(bIn.fastClean) || !IsUpload(h.flags))
    {
      hide Caches, Sound, UpdateInfo, IsUpload;
      var h := table.slots[hdl];
      if !IsUpload(h.flags) {
        SetFastClean(true);
      }
      table.Set(hdl, h.(filePos := 0, fileSize := fileSize));
      who := table.UpdateInfoForOpenFiles(who);
    }

    method DoOpenDir(e: Env)
      requires Valid()
      modifies Footprint()
      ensures Handled(ReadOpenDir(old(bIn.Unread())).0, e, ReadOpenDir(old(bIn.Unread())).1)
    {
      hide Next32, NextText, Caches, Sound, Payload, Sendable, StepOpenDir;
      var id, path := GetIdText();
      ActOpenDir(id, path, e);
    }

    method ActOpenDir(id: u32, path: Option<text>, e: Env)
      requires Valid()
      modifies Footprint()
      ensures var (s, p) := StepOpenDir(old(State()), Request.OpenDir(id, path), e);
              State() == Record(s, OfPath(e.dir)) && Sent(p)
      ensures bIn.Unread() == old(bIn.Unread()) && bIn.length == old(bIn.length) && bIn.read == old(bIn.read)
    {
      hide Caches, Sound, Payload, Sendable, OfPath;
      HandOver(OfPath(e.dir));
      var status := e.status;
      if status == FX_OK {
        var hdl := table.HandleNew(DIR, e.dir, -1, false, 0);
        if hdl < 0 {
          status := EMFILE_STATUS;
        } else {
          ReplyHandle(id, hdl);
        }
      }
      if status != FX_OK {
        ReplyStatus(id, status);
      }
    }

    // ----- transfers -----

    /** hdl->filePos = pos, and the status with it. */
    method MoveTo(h: nat, pos: u64)
      requires Valid() && h < HANDLE_NUMBER
      modifies this`who, table, table.slots
      ensures Valid() && State() == Moved(old(State()), h, pos)
    {
      hide Caches, Sound, UpdateInfo;
      table.Set(h, table.slots[h].(filePos := pos));
      who := table.UpdateInfoForOpenFiles(who);
    }

    method GetRead() returns (id: u32, h: int, off: u64, len: u32)
      requires Valid() && HandleFits(bIn.Unread())
      modifies bIn`read
      ensures Valid() && State() == old(State()) && old(bIn.read) <= bIn.read
      ensures (Request.Read(id, h, off, len), bIn.Unread()) == ReadRead(old(bIn.Unread()))
    {
      hide Next32, Next64, NextHandle, Caches, Sound, HandleFits;
      id, h := GetIdHandle();
      off := Get64(bIn, true);
      len := Get32(bIn, true);
    }

    method DoRead(e: Env)
      requires Valid() && HandleFits(bIn.Unread())
      requires Possible(State(), ReadRead(bIn.Unread()).0, e, cfg, dbs)
      modifies Footprint()
      ensures Handled(ReadRead(old(bIn.Unread())).0, e, ReadRead(old(bIn.Unread())).1)
    {
      hide ReadRead, Caches, Sound, Payload, Sendable, StepRead, HandleFits, Delivered;
      var id, h, off, len := GetRead();
      ActRead(id, h, off, len, e);
    }

    method ActRead(id: u32, h: int, off: u64, len: u32, e: Env)
      requires Valid()
      requires Possible(State(), Request.Read(id, h, off, len), e, cfg, dbs)
      modifies Footprint()
      ensures var (s, p) := StepRead(old(State()), Request.Read(id, h, off, len), e, cfg);
              State() == s && Sent(p) && bIn.Unread() == old(bIn.Unread()) && bIn.length == old(bIn.length) && bIn.read == old(bIn.read)
    {
      hide Caches, Sound, Payload, Sendable, Delivered, Moved;
      if cfg.noRead {
        ReplyStatus(id, FX_FAILURE);
      } else if 0 <= h < HANDLE_NUMBER && table.slots[h].state == FILE {
        if !table.slots[h].fileIsText && e.seekStatus != FX_OK {
          ReplyStatus(id, e.seekStatus);
        } else {
          Transfer(id, h, off, ReadLength(len), e.got);
        }
      } else {
        ReplyStatus(id, BadHandle(cVersion));
      }
    }

    /** The read itself: a data packet, or a status once that packet is taken back. */
    method Transfer(id: u32, h: nat, off: u64, len: nat, got: ReadResult)
      requires Valid() && h < HANDLE_NUMBER && len <= MAX_READ
      requires got.ReadBytes? ==> |got.data| <= len
      requires got.ReadError? ==> !table.hs[h].fileIsText
      modifies this`who, bOut, bOut.data, table, table.slots
      ensures var s, text := old(State()), old(table.hs[h].fileIsText);
              match got
              case ReadError(code) => State() == s && Sent(StatusReply(id, code))
              case ReadBytes(data) =>
                if Delivered(data, text) == [] then State() == s && Sent(StatusReply(id, FX_EOF))
                else State() == Moved(s, h, (off + |Delivered(data, text)|) % 0x1_0000_0000_0000_0000)
                     && Sent(DataReply(id, Delivered(data, text)))
    {
      hide Caches, Sound, Delivered, Moved, EncString, DataBody, StatusBody;
      ghost var before := bOut.content;
      var ret := ReadReply(bOut, id, len, got, table.slots[h].fileIsText);
      if ret <= 0 {
        assert bOut.content == before;
        var status := if got.ReadBytes? then FX_EOF else got.code;
        SendStatus(bOut, id, status, cVersion);
      } else {
        DataBodyLength(id, Delivered(got.data, table.slots[h].fileIsText));
        MoveTo(h, (off + ret) % 0x1_0000_0000_0000_0000);
      }
    }

    method GetWrite() returns (id: u32, h: int, off: u64, start: Option<nat>, len: u32)
      requires Valid() && HandleFits(bIn.Unread())
      modifies bIn`read
      ensures Valid() && State() == old(State()) && old(bIn.read) <= bIn.read
      ensures var (r, rest) := ReadWrite(old(bIn.Unread()));
              && r.Write? && id == r.id && h == r.h && off == r.off && bIn.Unread() == rest
              && (start.Some? <==> r.data.Some?)
              && (start.Some? ==> start.value + len == bIn.read && bIn.content[start.value..bIn.read] == r.data.value)
    {
      hide Next32, Next64, NextHandle, Caches, Sound, HandleFits, TakeString;
      id, h := GetIdHandle();
      off := Get64(bIn, true);
      start, len := bIn.BufferGetData();
    }

    method DoWrite(e: Env)
      requires Valid() && HandleFits(bIn.Unread())
      requires ReadWrite(bIn.Unread()).0.data.Some?
      requires Possible(State(), ReadWrite(bIn.Unread()).0, e, cfg, dbs)
      modifies Footprint()
      ensures Handled(ReadWrite(old(bIn.Unread())).0, e, ReadWrite(old(bIn.Unread())).1)
    {
      hide ReadWrite, Caches, Sound, Payload, Sendable, StepWrite, HandleFits, Delivered;
      ghost var r := ReadWrite(bIn.Unread()).0;
      var id, h, off, start, len := GetWrite();
      ActWrite(r, id, h, off, start.value, len, e);
    }

    method ActWrite(ghost r: Request, id: u32, h: int, off: u64, start: nat, len: u32, e: Env)
      requires Valid()
      requires r.Write? && r.data.Some? && r.id == id && r.h == h && r.off == off
      requires start + len == bIn.read && bIn.content[start..bIn.read] == r.data.value
      requires Possible(State(), r, e, cfg, dbs)
      modifies Footprint()
      ensures var (s, p) := StepWrite(old(State()), r, e);
              State() == s && Sent(p) && bIn.Unread() == old(bIn.Unread()) && bIn.length == old(bIn.length) && bIn.read == old(bIn.read)
    {
      hide Caches, Sound, Payload, Sendable, Delivered, Moved, Possible;
      if 0 <= h < HANDLE_NUMBER && table.slots[h].state == FILE {
        var pos := Sought(off, e.seekStatus);
        if !table.slots[h].fileIsText && pos < 0 {
          // the failed seek's status would be sent from here
          assert false;
        }
        var n := StripMessage(start, len, table.slots[h].fileIsText);
        var status := if e.written == -1 then e.errStatus else if e.written == n then FX_OK else FX_FAILURE;
        MoveTo(h, (off + e.written) % 0x1_0000_0000_0000_0000);
        ReplyStatus(id, status);
      } else {
        ReplyStatus(id, BadHandle(cVersion));
      }
    }

    /** The text-mode loop inside the input buffer: the messages behind are not touched. */
    method StripMessage(start: nat, len: u32, isText: bool) returns (n: nat)
      requires Valid() && start + len == bIn.read
      modifies bIn`content, bIn.data
      ensures Valid() && State() == old(State()) && bIn.Unread() == old(bIn.Unread()) && bIn.length == old(bIn.length) && bIn.read == old(bIn.read)
      ensures n == |Delivered(old(bIn.content[start..bIn.read]), isText)|
      ensures start + n <= bIn.read && bIn.content[start..start + n] == Delivered(old(bIn.content[start..bIn.read]), isText)
    {
      hide CrLfToLf, Caches, Sound;
      n := len;
      if isText {
        assert bIn.data[start..start + len] == bIn.content[start..bIn.read];
        n := StripCr(bIn.data, start, len);
        bIn.content := bIn.data[..bIn.length];
        assert bIn.content[start..start + n] == bIn.data[start..start + n];
        assert bIn.Unread() == old(bIn.Unread());
      }
    }

    // ----- requests that change no handle -----

    method SendAttrsOrStatus(id: u32, mask: u32, e: Env)
      requires Valid() && Sendable(AttrsOrStatus(cVersion, id, mask, e), cVersion, dbs)
      modifies bOut, bOut.data, users, users.tb, groups, groups.tb
      ensures Sent(AttrsOrStatus(cVersion, id, mask, e)) && State() == old(State())
    {
      hide Valid, Sent, Sendable;
      if e.status != FX_OK {
        ReplyStatus(id, e.status);
      } else {
        ReplyAttrs(id, if cVersion >= 4 then e.attrs.(flags := mask) else e.attrs);
      }
    }

    method DoStat(e: Env)
      requires Valid()
      requires Possible(State(), ReadStat(bIn.Unread(), cVersion).0, e, cfg, dbs)
      modifies Footprint()
      ensures Handled(ReadStat(old(bIn.Unread()), old(cVersion)).0, e, ReadStat(old(bIn.Unread()), old(cVersion)).1)
    {
      hide Next32, NextText, Caches, Sound, Sendable, Payload, AttrsOrStatus, OfPath, Record;
      var id, path := GetIdText();
      var flags := Get32(bIn, cVersion >= 4);
      HandOver(OfPath(path));
      SendAttrsOrStatus(id, flags, e);
    }

    method GetFStat() returns (id: u32, h: int, flags: u32)
      requires Valid() && HandleFits(bIn.Unread())
      modifies bIn`read
      ensures Valid() && State() == old(State()) && old(bIn.read) <= bIn.read && bIn.ReadTo(bIn.Unread())
      ensures (FStat(id, h, flags), bIn.Unread()) == ReadFStat(old(bIn.Unread()), cVersion)
    {
      hide Next32, NextHandle, Caches, Sound, HandleFits;
      id, h := GetIdHandle();
      flags := Get32(bIn, cVersion >= 4);
    }

    method DoFStat(e: Env)
      requires Valid() && HandleFits(bIn.Unread())
      requires Possible(State(), ReadFStat(bIn.Unread(), cVersion).0, e, cfg, dbs)
      modifies Footprint()
      ensures Handled(ReadFStat(old(bIn.Unread()), old(cVersion)).0, e, ReadFStat(old(bIn.Unread()), old(cVersion)).1)
    {
      hide ReadFStat, Caches, Sound, Sendable, Payload, AttrsOrStatus, HandleFits, OfPath, Record;
      var id, h, flags := GetFStat();
      ghost var as' := if IsFile(table.hs, h) then OfPath(table.hs[h].path) else [];
      HandOver(as');
      if 0 <= h < HANDLE_NUMBER && table.slots[h].state == FILE {
        SendAttrsOrStatus(id, flags, e);
      } else {
        ReplyStatus(id, BadHandle(cVersion));
      }
    }

    method GetSetStat() returns (id: u32, path: Option<text>)
      requires Valid()
      modifies bIn`read, users, users.tb, groups, groups.tb
      ensures Valid() && State() == old(State()) && old(bIn.read) <= bIn.read && fresh(Footprint() - old(Footprint()))
      ensures (SetStat(id, path), bIn.Unread()) == ReadSetStat(old(bIn.Unread()), cVersion) && bOut.read == old(bOut.read)
    {
      hide Next32, NextText, NextAttrs, Caches, Sound;
      id, path := GetIdText();
      var a := SkipAttrs();
    }

    method DoSetStat(e: Env)
      requires Valid()
      modifies Footprint()
      ensures Handled(ReadSetStat(old(bIn.Unread()), old(cVersion)).0, e, ReadSetStat(old(bIn.Unread()), old(cVersion)).1)
    {
      hide ReadSetStat, Valid, Sendable, Payload, OfPath, Record;
      var id, path := GetSetStat();
      ReplyOutcome(OfPath(path), id, if cfg.noSetStat then FX_PERMISSION_DENIED else e.status);
    }

    method GetFSetStat() returns (id: u32, h: int)
      requires Valid() && HandleFits(bIn.Unread())
      modifies bIn`read, users, users.tb, groups, groups.tb
      ensures Valid() && State() == old(State()) && old(bIn.read) <= bIn.read && fresh(Footprint() - old(Footprint()))
      ensures (FSetStat(id, h), bIn.Unread()) == ReadFSetStat(old(bIn.Unread()), cVersion)
    {
      hide Next32, NextHandle, NextAttrs, Caches, Sound, HandleFits;
      id, h := GetIdHandle();
      var a := SkipAttrs();
    }

    method DoFSetStat(e: Env)
      requires Valid() && HandleFits(bIn.Unread())
      modifies Footprint()
      ensures Handled(ReadFSetStat(old(bIn.Unread()), old(cVersion)).0, e, ReadFSetStat(old(bIn.Unread()), old(cVersion)).1)
    {
      hide ReadFSetStat, Caches, Sound, Sendable, Payload, HandleFits, OfPath, Record;
      var id, h := GetFSetStat();
      var status := if !(0 <= h < HANDLE_NUMBER) then BadHandle(cVersion)
                    else if cfg.noSetStat then FX_PERMISSION_DENIED else e.status;
      ReplyOutcome(if 0 <= h < HANDLE_NUMBER then OfPath(table.slots[h].path) else [], id, status);
    }

    /** The listing loop: at most 100 entries. */
    method DoReadDir(e: Env)
      requires Valid() && HandleFits(bIn.Unread())
      requires Possible(State(), ReadReadDir(bIn.Unread()).0, e, cfg, dbs)
      modifies Footprint()
      ensures Handled(ReadReadDir(old(bIn.Unread())).0, e, ReadReadDir(old(bIn.Unread())).1)
    {
      hide Next32, NextHandle, Caches, Sound, Sendable, Payload, HandleFits, ReplyReadDir, AccessesOf;
      var id, h := GetIdHandle();
      ActReadDir(id, h, e);
    }

    method ActReadDir(id: u32, h: int, e: Env)
      requires Valid() && Sendable(ReplyReadDir(State(), Request.ReadDir(id, h), e, cfg), cVersion, dbs)
      modifies this`accesses, bOut, bOut.data, users, users.tb, groups, groups.tb
      ensures Sent(ReplyReadDir(old(State()), Request.ReadDir(id, h), e, cfg))
      ensures State() == Record(old(State()), AccessesOf(old(State()), Request.ReadDir(id, h), e, cfg))
      ensures bIn.Unread() == old(bIn.Unread())
    {
      hide Caches, Sound, Sendable, Payload, OfEntries;
      if cfg.noReadDir {
        ReplyStatus(id, FX_PERMISSION_DENIED);
      } else if !(0 <= h < HANDLE_NUMBER && table.slots[h].state == DIR) {
        ReplyStatus(id, BadHandle(cVersion));
      } else {
        HandOver(OfEntries(table.slots[h].path, e.met));
        var s := Listing(e.entries);
        if |s| > 0 {
          ReplyNames(id, s);
        } else {
          ReplyStatus(id, FX_EOF);
        }
      }
    }

    static method Listing(entries: seq<Entry>) returns (s: seq<Entry>)
      ensures s == entries[..if |entries| < LISTING then |entries| else LISTING]
    {
      s := [];
      while |s| < |entries|
        invariant |s| <= LISTING && s <= entries
        decreases |entries| - |s|
      {
        if |s| == LISTING {
          break;
        }
        s := s + [entries[|s|]];
      }
    }

    method GetPathOp(op: PathKind) returns (id: u32, path: Option<text>, other: Option<text>)
      requires Valid()
      modifies bIn`read, users, users.tb, groups, groups.tb
      ensures Valid() && State() == old(State()) && old(bIn.read) <= bIn.read && fresh(Footprint() - old(Footprint()))
      ensures (PathOp(id, op, path, other), bIn.Unread()) == ReadPathOp(op, old(bIn.Unread()), cVersion) && bOut.read == old(bOut.read)
    {
      hide Next32, NextText, NextAttrs, Caches, Sound;
      id, path := GetIdText();
      other := GetText(bIn, op.Rename? || op.SymLink?);
      if op.MkDir? {
        var a := SkipAttrs();
      }
      var flags := Get32(bIn, op.Rename? && cVersion >= 5);
    }

    /** DoRemove, DoMkDir, DoRmDir, DoRename and DoSymLink. */
    method DoPathOp(op: PathKind, e: Env)
      requires Valid()
      modifies Footprint()
      ensures Handled(ReadPathOp(op, old(bIn.Unread()), old(cVersion)).0, e, ReadPathOp(op, old(bIn.Unread()), old(cVersion)).1)
    {
      hide ReadPathOp, Valid, Sendable, Payload, OfPath, Record, Forbidden;
      var id, path, other := GetPathOp(op);
      var disabled := Forbidden(op, cfg);
      ReplyOutcome(if disabled then [] else OfPath(path) + OfPath(other), id, if disabled then FX_PERMISSION_DENIED else e.status);
    }

    method DoRealPath(e: Env)
      requires Valid()
      requires Possible(State(), ReadRealPath(bIn.Unread()).0, e, cfg, dbs)
      modifies Footprint()
      ensures Handled(ReadRealPath(old(bIn.Unread())).0, e, ReadRealPath(old(bIn.Unread())).1)
    {
      hide Next32, NextText, Caches, Sound, Sendable, Payload, OfShown, Record;
      var id, path := GetIdText();
      HandOver(OfShown(cfg.home, path));
      ReplyNames(id, [Entry(e.name, e.name, NO_ATTRS)]);
    }

    method DoReadLink(e: Env)
      requires Valid()
      requires Possible(State(), ReadReadLink(bIn.Unread()).0, e, cfg, dbs)
      modifies Footprint()
      ensures Handled(ReadReadLink(old(bIn.Unread())).0, e, ReadReadLink(old(bIn.Unread())).1)
    {
      hide Next32, NextText, Caches, Sound, Sendable, Payload, OfPath, Record;
      var id, path := GetIdText();
      HandOver(OfPath(path));
      ActReadLink(id, e);
    }

    method ActReadLink(id: u32, e: Env)
      requires Valid()
      requires e.status == FX_OK ==> Sendable(NameReply(id, [Entry(e.name, e.name, NO_ATTRS)]), cVersion, dbs)
      modifies bOut, bOut.data, users, users.tb, groups, groups.tb
      ensures State() == old(State()) && bIn.Unread() == old(bIn.Unread())
      ensures Sent(if e.status == FX_OK then NameReply(id, [Entry(e.name, e.name, NO_ATTRS)]) else StatusReply(id, e.status))
    {
      hide Caches, Sound, Sendable, Payload;
      if e.status == FX_OK {
        ReplyNames(id, [Entry(e.name, e.name, NO_ATTRS)]);
      } else {
        ReplyStatus(id, e.status);
      }
    }

    method GetExtended() returns (id: u32, name: Option<text>, path: Option<text>, other: Option<text>)
      requires Valid()
      modifies bIn`read
      ensures Valid() && State() == old(State()) && old(bIn.read) <= bIn.read
      ensures (Extended(id, name, path, other), bIn.Unread()) == ReadExtended(old(bIn.Unread()))
    {
      hide Next32, NextText, Caches, Sound, Ascii;
      id, name := GetIdText();
      var hard := name == Some(HARDLINK);
      path := GetText(bIn, hard);
      other := GetText(bIn, hard);
    }

    method DoExtended(e: Env)
      requires Valid()
      modifies Footprint()
      ensures Handled(ReadExtended(old(bIn.Unread())).0, e, ReadExtended(old(bIn.Unread())).1)
    {
      hide ReadExtended, Caches, Sound, Sendable, Payload, Ascii, OfPath, Record;
      var id, name, path, other := GetExtended();
      var status := if name != Some(HARDLINK) then FX_OP_UNSUPPORTED
                    else if cfg.noSymLink then FX_PERMISSION_DENIED else e.status;
      ReplyOutcome(if name != Some(HARDLINK) || cfg.noSymLink then [] else OfPath(path) + OfPath(other), id, status);
    }

    // ----- the dispatcher -----

    /** What a handler may rely on when it is called for the unread bytes. */
    ghost predicate Callable(kind: byte, e: Env)
      reads this, bIn, table
    {
      && (TakesHandle(Now(), kind) ==> HandleFits(bIn.Unread()))
      && var r := ReadRequest(Now(), kind, bIn.Unread()).0;
         && (r.Write? ==> r.data.Some?)
         && Possible(State(), r, e, cfg, dbs)
    }

    /** The two switches of DoSFTPProtocol. */
    method Dispatch(kind: byte, e: Env)
      requires Valid() && Callable(kind, e)
      modifies Footprint()
      ensures var (r, rest) := ReadRequest(old(Now()), kind, old(bIn.Unread())); Handled(r, e, rest)
    {
      hide Valid, Handled, Possible, HandleFits, ReadOpen, ReadClose, ReadRead, ReadWrite, ReadStat, ReadFStat, ReadSetStat,
           ReadFSetStat, ReadOpenDir, ReadReadDir, ReadPathOp, ReadRealPath, ReadReadLink, ReadExtended, ReadUnsupported, ReadInit;
      if connectionStatus == CONN_INIT {
        if kind == FXP_INIT { DoInit(e); } else { DoUnsupported(e); }
      } else if kind == FXP_OPEN { DoOpen(e);
      } else if kind == FXP_CLOSE { DoClose(e);
      } else if kind == FXP_READ { DoRead(e);
      } else if kind == FXP_WRITE { DoWrite(e);
      } else if kind == FXP_LSTAT || kind == FXP_STAT { DoStat(e);
      } else if kind == FXP_FSTAT { DoFStat(e);
      } else if kind == FXP_SETSTAT { DoSetStat(e);
      } else if kind == FXP_FSETSTAT { DoFSetStat(e);
      } else if kind == FXP_OPENDIR { DoOpenDir(e);
      } else if kind == FXP_READDIR { DoReadDir(e);
      } else if kind == FXP_REMOVE { DoPathOp(Remove, e);
      } else if kind == FXP_MKDIR { DoPathOp(MkDir, e);
      } else if kind == FXP_RMDIR { DoPathOp(RmDir, e);
      } else if kind == FXP_RENAME { DoPathOp(Rename, e);
      } else if kind == FXP_SYMLINK { DoPathOp(SymLink, e);
      } else if kind == FXP_REALPATH { DoRealPath(e);
      } else if kind == FXP_READLINK { DoReadLink(e);
      } else if kind == FXP_EXTENDED { DoExtended(e);
      } else { DoUnsupported(e);
      }
    }

    // ----- the framing loop -----

    /** A well-formed message is read the same whatever follows it. */
    lemma MessageIsCallable(m: Msg, after: bytes, e: Env)
      requires LegalStep(State(), Input(m, e), cfg, dbs)
      requires bIn.Unread() == m.body + after
      ensures Callable(m.kind, e)
      ensures ReadRequest(Now(), m.kind, bIn.Unread()) == (RequestOf(Now(), m), ReadRequest(Now(), m.kind, m.body).1 + after)
    {
      hide Possible, ReadRequest, HandleFits;
      if TakesHandle(Now(), m.kind) {
        ReadOnFits(m.body, after);
      }
    }

    /** The handler of a message whose type byte has been read; it may leave some of the body. */
    method DispatchMessage(kind: byte, ghost m: Msg, ghost after: bytes, e: Env)
      requires Valid() && LegalStep(State(), Input(m, e), cfg, dbs)
      requires kind == m.kind && bIn.Unread() == m.body + after
      modifies Footprint()
      ensures Valid() && fresh(Footprint() - old(Footprint()))
      ensures var (s, b) := Act(old(State()), Input(m, e), cfg, dbs);
              State() == s && bOut.content == old(bOut.content) + EncString(b) && bOut.read == old(bOut.read)
      ensures |after| <= |bIn.Unread()| && bIn.Unread()[|bIn.Unread()| - |after|..] == after
      ensures bIn.length == old(bIn.length) && old(bIn.read) <= bIn.read
    {
      hide LegalStep, ReadRequest, Step, Caches, Sound, Payload, Sendable, EncString, Callable;
      MessageIsCallable(m, after, e);
      assert RequestOf(Now(), m).Write? ==> RequestOf(Now(), m).data.Some? by { LegalData(State(), Input(m, e), cfg, dbs); }
      Dispatch(kind, e);
    }

    /** A complete message: its type byte, its handler, and whatever the handler left of it. */
    method HandleMessage(msgLen: nat, ghost m: Msg, ghost after: bytes, e: Env)
      requires Valid() && LegalStep(State(), Input(m, e), cfg, dbs)
      requires msgLen == 1 + |m.body| && bIn.Unread() == [m.kind] + (m.body + after)
      modifies Footprint()
      ensures Valid() && fresh(Footprint() - old(Footprint()))
      ensures var (s, b) := Act(old(State()), Input(m, e), cfg, dbs);
              State() == s && bOut.content == old(bOut.content) + EncString(b) && bOut.read == old(bOut.read)
      ensures bIn.Unread() == after && bIn.length == old(bIn.length)
    {
      hide LegalStep, ReadRequest, Act, Valid, EncString;
      var oldRead := bIn.read;
      var msgType := GetType();
      assert bIn.Unread() == m.body + after;
      DispatchMessage(msgType, m, after, e);
      SkipRest(msgLen, oldRead, after);
    }

    method GetType() returns (msgType: byte)
      requires Valid() && bIn.Unread() != []
      modifies bIn`read
      ensures Valid() && State() == old(State()) && old(bIn.read) <= bIn.read
      ensures msgType == old(bIn.Unread())[0] && bIn.Unread() == old(bIn.Unread())[1..]
      ensures bIn.read == old(bIn.read) + 1 && bIn.length == |old(bIn.Unread())| + old(bIn.read)
      ensures bOut.read == old(bOut.read)
    {
      hide Caches, Sound;
      msgType := bIn.BufferGetInt8FAST();
    }

    /** Reads on to the end of the message, if its handler has not. */
    method SkipRest(msgLen: nat, oldRead: nat, ghost after: bytes)
      requires Valid() && oldRead + msgLen + |after| == bIn.length
      requires |after| <= |bIn.Unread()| && bIn.Unread()[|bIn.Unread()| - |after|..] == after
      requires oldRead <= bIn.read
      modifies bIn`read
      ensures Valid() && State() == old(State()) && bIn.Unread() == after && bOut.read == old(bOut.read)
    {
      hide Caches, Sound;
      if bIn.read - oldRead < msgLen {
        bIn.BufferReadData(msgLen - (bIn.read - oldRead));
      }
    }

    /** What of a stream has been handled: k messages, in this state, with these replies. */
    ghost predicate Progress(s0: Sess, out0: bytes, ins: seq<Input>, k: nat)
      requires Legal(s0, ins, cfg, dbs) && k <= |ins|
      reads this, bIn, bOut, table
    {
      Legal(s0, ins[..k], cfg, dbs) &&
      var (s, out) := Run(s0, ins[..k], cfg, dbs);
      State() == s && bOut.content == out0 + FrameAll(out)
    }

    lemma ProgressStarts(s0: Sess, out0: bytes, ins: seq<Input>)
      requires Legal(s0, ins, cfg, dbs) && State() == s0 && bOut.content == out0
      ensures Progress(s0, out0, ins, 0)
    {
      hide LegalStep;
      LegalPrefix(s0, ins, cfg, dbs, 0);
      RunEmpty(s0, cfg, dbs);
      assert ins[..0] == [];
      assert FrameAll([]) == [];
    }

    lemma ProgressEnds(s0: Sess, out0: bytes, ins: seq<Input>, k: nat)
      requires Legal(s0, ins, cfg, dbs) && k <= |ins| && Progress(s0, out0, ins, k)
      requires k == |ins|
      ensures State() == Run(s0, ins, cfg, dbs).0 && bOut.content == out0 + FrameAll(Run(s0, ins, cfg, dbs).1)
    {
      hide LegalStep, Legal, Run, FrameAll;
      assert ins[..k] == ins;
    }

    /** The next complete message of the input. */
    method NextMessage(ghost s0: Sess, ghost out0: bytes, ghost ins: seq<Input>, ghost k: nat, msgLen: nat, e: Env)
      requires Valid() && Legal(s0, ins, cfg, dbs) && k < |ins| && Progress(s0, out0, ins, k)
      requires msgLen == 1 + |ins[k].msg.body| && e == ins[k].env
      requires exists after :: bIn.Unread() == [ins[k].msg.kind] + (ins[k].msg.body + after)
      modifies Footprint()
      ensures Valid() && fresh(Footprint() - old(Footprint()))
      ensures Progress(s0, out0, ins, k + 1) && bOut.read == old(bOut.read)
      ensures old(bIn.Unread()) == [ins[k].msg.kind] + (ins[k].msg.body + bIn.Unread()) && bIn.length == old(bIn.length)
    {
      hide Legal, Run, LegalStep, Act, EncString, FrameAll, Caches, Sound;
      ghost var after :| bIn.Unread() == [ins[k].msg.kind] + (ins[k].msg.body + after);
      RunNext(s0, ins, cfg, dbs, k);
      ghost var out := Run(s0, ins[..k], cfg, dbs).1;
      ghost var b := Act(State(), ins[k], cfg, dbs).1;
      FrameAllSnoc(out, b);
      HandleMessage(msgLen, ins[k].msg, after, e);
    }

    /** The header of the next message: its length, or why there is none to handle. */
    method ReadHeader(ghost s0: Sess, ghost out0: bytes, ghost ins: seq<Input>, ghost k: nat) returns (h: Head)
      requires Valid() && |bIn.Unread()| < 0x8000_0000 && !HeadOf(bIn.Unread()).Empty?
      requires Legal(s0, ins, cfg, dbs) && k <= |ins| && Progress(s0, out0, ins, k)
      modifies Footprint()
      ensures Valid() && fresh(Footprint() - old(Footprint()))
      ensures Progress(s0, out0, ins, k) && bOut.read == old(bOut.read)
      ensures h == HeadOf(old(bIn.Unread()))
      ensures h.Wait? ==> bIn.Unread() == old(bIn.Unread())
      ensures h.Whole? ==> bIn.Unread() == old(bIn.Unread())[4..] && bIn.length == old(bIn.length)
    {
      hide Caches, Sound, Dec32, Legal, Run, FrameAll;
      if bIn.length - bIn.read < 5 {
        bIn.BufferClean();
        return Wait;
      }
      var oldRead := bIn.read;
      var msgLen := bIn.BufferGetInt32();
      if MAX_MESSAGE < msgLen < 0x8000_0000 {
        return Reject;
      }
      if bIn.length - bIn.read < msgLen {
        bIn.read := oldRead;
        return Wait;
      }
      return Whole(msgLen);
    }

    /** The loop's invariant after k messages of the stream u0. */
    ghost predicate Looping(u0: bytes, s0: Sess, out0: bytes, envs: seq<Env>, k: nat)
      requires |Parse(u0).msgs| <= |envs|
      reads this, bIn, bIn.data, bOut, bOut.data, table, table.slots, users, users.tb, groups, groups.tb
    {
      var ins := Zip(Parse(u0).msgs, envs);
      && Valid() && !Parse(u0).why.Empty? && |bIn.Unread()| < 0x8000_0000
      && k <= |ins| && Legal(s0, ins, cfg, dbs)
      && Progress(s0, out0, ins, k) && InStream(u0, bIn.Unread(), k)
    }

    lemma LoopingStarts(u0: bytes, s0: Sess, out0: bytes, envs: seq<Env>)
      requires Valid() && u0 == bIn.Unread() && s0 == State() && out0 == bOut.content
      requires |u0| < 0x8000_0000 && !Parse(u0).why.Empty?
      requires |Parse(u0).msgs| <= |envs| && Legal(s0, Zip(Parse(u0).msgs, envs), cfg, dbs)
      ensures Looping(u0, s0, out0, envs, 0)
    {
      hide Valid, Legal, Run, FrameAll, Parse, InStream;
      StreamStarts(u0);
      ProgressStarts(s0, out0, Zip(Parse(u0).msgs, envs));
    }

    /** One turn of the loop: a message handled, or the end of what is complete. */
    method Turn(ghost u0: bytes, ghost s0: Sess, ghost out0: bytes, envs: seq<Env>, k: nat) returns (h: Head)
      requires |Parse(u0).msgs| <= |envs| && Looping(u0, s0, out0, envs, k)
      modifies Footprint()
      ensures Valid() && fresh(Footprint() - old(Footprint())) && bOut.read == old(bOut.read)
      ensures h.Whole? ==> k < |Parse(u0).msgs| && Looping(u0, s0, out0, envs, k + 1)
      ensures !h.Whole? ==>
                var p := Parse(u0);
                var (s, out) := Run(s0, Zip(p.msgs, envs), cfg, dbs);
                h == p.why && k == |p.msgs| && State() == s && bOut.content == out0 + FrameAll(out) && (h.Wait? ==> bIn.Unread() == p.rest)
    {
      hide Legal, Run, FrameAll, HeadOf, Zip, Parse, InStream, Valid, Progress;
      ghost var u := bIn.Unread();
      ghost var ins := Zip(Parse(u0).msgs, envs);
      HeadIsNotEmpty(u0, u, k);
      h := ReadHeader(s0, out0, ins, k);
      if !h.Whole? {
        StreamEnds(u0, u, k);
        ProgressEnds(s0, out0, ins, k);
      } else {
        NextInStream(u0, u, envs, k);
        NextMessage(s0, out0, ins, k, h.size, envs[k]);
      }
    }

    /**
      DoSFTPProtocol: handles every complete message of the unread input, in order, with
      the machine's answers, and leaves the incomplete rest. `alive` is false when a message
      was too long. `envs` is what the system answers, message by message.
     */
    method DoSFTPProtocol(envs: seq<Env>) returns (alive: bool, k: nat)
      requires Valid() && |bIn.Unread()| < 0x8000_0000
      requires !Parse(bIn.Unread()).why.Empty?
      requires |Parse(bIn.Unread()).msgs| <= |envs|
      requires Legal(State(), Zip(Parse(bIn.Unread()).msgs, envs), cfg, dbs)
      modifies Footprint()
      ensures Valid() && fresh(Footprint() - old(Footprint()))
      ensures var p := Parse(old(bIn.Unread()));
              var (s, out) := Run(old(State()), Zip(p.msgs, envs), cfg, dbs);
              && alive == p.why.Wait? && k == |p.msgs|
              && State() == s
              && bOut.content == old(bOut.content) + FrameAll(out) && bOut.read == old(bOut.read)
              && (alive ==> bIn.Unread() == p.rest)
    {
      hide Legal, Run, FrameAll, Zip, Parse, Looping, Valid;
      ghost var u0, s0, out0 := bIn.Unread(), State(), bOut.content;
      ghost var ins := Zip(Parse(u0).msgs, envs);
      k := 0;
      LoopingStarts(u0, s0, out0, envs);
      while true
        invariant Legal(s0, ins, cfg, dbs) && k <= |ins|
        invariant Looping(u0, s0, out0, envs, k)
        invariant fresh(Footprint() - old(Footprint())) && bOut.read == old(bOut.read)
        decreases |ins| - k
      {
        var h := Turn(u0, s0, out0, envs, k);
        if !h.Whole? {
          return h.Wait?, k;
        }
        k := k + 1;
      }
    }
  }

  lemma FrameAllSnoc(ps: seq<text>, p: text)
    ensures FrameAll(ps + [p]) == FrameAll(ps) + EncString(p)
  {
    assert (ps + [p])[..|ps + [p]| - 1] == ps;
  }

  /** u is what is left of the stream u0 after its first k messages. */
  ghost predicate InStream(u0: bytes, u: bytes, k: nat) {
    && k <= |Parse(u0).msgs|
    && Parse(u0) == Parsed(Parse(u0).msgs[..k] + Parse(u).msgs, Parse(u).rest, Parse(u).why)
  }

  lemma StreamStarts(u0: bytes)
    ensures InStream(u0, u0, 0)
  {
    assert Parse(u0).msgs[..0] + Parse(u0).msgs == Parse(u0).msgs;
  }

  lemma HeadIsNotEmpty(u0: bytes, u: bytes, k: nat)
    requires InStream(u0, u, k) && !Parse(u0).why.Empty?
    ensures !HeadOf(u).Empty?
  {
    hide HeadOf;
  }

  lemma StreamEnds(u0: bytes, u: bytes, k: nat)
    requires InStream(u0, u, k) && !HeadOf(u).Whole?
    ensures k == |Parse(u0).msgs| && u == Parse(u0).rest && HeadOf(u) == Parse(u0).why
  {
    hide HeadOf;
  }

  /** The next message of the stream is number k. */
  lemma NextInStream(u0: bytes, u: bytes, envs: seq<Env>, k: nat)
    requires HeadOf(u).Whole? && InStream(u0, u, k)
    requires |Parse(u0).msgs| <= |envs|
    ensures k < |Parse(u0).msgs| && k < |envs|
    ensures var i := Zip(Parse(u0).msgs, envs)[k];
            && i == Input(First(u), envs[k])
            && HeadOf(u).size == 1 + |i.msg.body|
            && u[4..] == [i.msg.kind] + (i.msg.body + After(u))
    ensures forall v :: u[4..] == [First(u).kind] + (First(u).body + v) ==> v == After(u)
    ensures InStream(u0, After(u), k + 1)
  {
    hide HeadOf, First, After, Parse;
    var ms, p := Parse(u0).msgs, Parse(After(u));
    ParseFirst(u);
    assert ms == ms[..k] + ([First(u)] + p.msgs);
    assert ms[k] == First(u);
    assert ms[..k + 1] == ms[..k] + [First(u)];
    assert ms == ms[..k + 1] + p.msgs;
    SuffixIsAfter(u);
  }

  lemma ParseFirst(u: bytes)
    requires HeadOf(u).Whole?
    ensures Parse(u) == Parsed([First(u)] + Parse(After(u)).msgs, Parse(After(u)).rest, Parse(After(u)).why)
    ensures HeadOf(u).size == 1 + |First(u).body|
  {
    hide Dec32;
  }

  lemma SuffixIsAfter(u: bytes)
    requires HeadOf(u).Whole?
    ensures u[4..] == [First(u).kind] + (First(u).body + After(u))
    ensures forall v :: u[4..] == [First(u).kind] + (First(u).body + v) ==> v == After(u)
  {
    hide Dec32;
    var m, n := First(u), HeadOf(u).size;
    forall v | u[4..] == [m.kind] + (m.body + v) ensures v == After(u) {
      assert u[4..][n..] == After(u);
      assert ([m.kind] + (m.body + v))[n..] == v;
    }
  }
}
