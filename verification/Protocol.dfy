/** The SFTP session of Sftp.c as a state machine: one request in, one reply out. */
module Protocol {
  import opened Wrappers
  import opened Bytes
  import opened Buffers
  import opened Attributes
  import opened Handles
  import opened Replies
  import opened Framing
  import opened Accesses
  import PathResolve

  const FXP_INIT: byte := 1
  const FXP_OPEN: byte := 3
  const FXP_CLOSE: byte := 4
  const FXP_READ: byte := 5
  const FXP_WRITE: byte := 6
  const FXP_LSTAT: byte := 7
  const FXP_FSTAT: byte := 8
  const FXP_SETSTAT: byte := 9
  const FXP_FSETSTAT: byte := 10
  const FXP_OPENDIR: byte := 11
  const FXP_READDIR: byte := 12
  const FXP_REMOVE: byte := 13
  const FXP_MKDIR: byte := 14
  const FXP_RMDIR: byte := 15
  const FXP_REALPATH: byte := 16
  const FXP_STAT: byte := 17
  const FXP_RENAME: byte := 18
  const FXP_READLINK: byte := 19
  const FXP_SYMLINK: byte := 20
  const FXP_EXTENDED: byte := 200

  const FX_OK: u32 := 0
  const FX_EOF: u32 := 1
  const FX_PERMISSION_DENIED: u32 := 3
  const FX_FAILURE: u32 := 4
  const FX_OP_UNSUPPORTED: u32 := 8
  const FX_INVALID_HANDLE: u32 := 9

  // ----- requests -----

  datatype PathKind = Remove | MkDir | RmDir | Rename | SymLink

  datatype Request =
    | Init(clientVersion: u32)
    | Open(id: u32, path: Option<text>, access: u32, pflags: u32)
    | Close(id: u32, h: int)
    | Read(id: u32, h: int, off: u64, len: u32)
    | Write(id: u32, h: int, off: u64, data: Option<text>)
    | Stat(id: u32, path: Option<text>, mask: u32)
    | FStat(id: u32, h: int, mask: u32)
    | SetStat(id: u32, path: Option<text>)
    | FSetStat(id: u32, h: int)
    | OpenDir(id: u32, path: Option<text>)
    | ReadDir(id: u32, h: int)
    | PathOp(id: u32, op: PathKind, path: Option<text>, other: Option<text>)
    | RealPath(id: u32, path: Option<text>)
    | ReadLink(id: u32, path: Option<text>)
    | Extended(id: u32, name: Option<text>, path: Option<text>, other: Option<text>)
    | Unsupported(id: u32)

  const HARDLINK: text := Ascii("hardlink@openssh.com")

  function NextHandle(u: bytes): (int, bytes) {
    var (h, k) := TakeHandle(u);
    (h, if k <= |u| then u[k..] else [])
  }

  function NextAttrs(u: bytes, v: nat): bytes {
    DecAttributes(u, v).rest
  }

  /** A path, and for some requests more, after the id. */
  function ReadOpen(u: bytes, v: nat): (Request, bytes) {
    var (id, u1) := Next32(true, u);
    var (path, u2) := NextText(true, u1);
    var (access, u3) := Next32(v >= 5, u2);
    var (pflags, u4) := Next32(true, u3);
    (Open(id, path, access, pflags), NextAttrs(u4, v))
  }

  function ReadClose(u: bytes): (Request, bytes) {
    var (id, u1) := Next32(true, u);
    var (h, u2) := NextHandle(u1);
    (Close(id, h), u2)
  }

  function ReadRead(u: bytes): (Request, bytes) {
    var (id, u1) := Next32(true, u);
    var (h, u2) := NextHandle(u1);
    var (off, u3) := Next64(true, u2);
    var (len, u4) := Next32(true, u3);
    (Read(id, h, off, len), u4)
  }

  function ReadWrite(u: bytes): (r: (Request, bytes))
    ensures r.0.Write?
  {
    var (id, u1) := Next32(true, u);
    var (h, u2) := NextHandle(u1);
    var (off, u3) := Next64(true, u2);
    var (data, u4) := NextText(true, u3);
    (Write(id, h, off, data), u4)
  }

  function ReadStat(u: bytes, v: nat): (Request, bytes) {
    var (id, u1) := Next32(true, u);
    var (path, u2) := NextText(true, u1);
    var (mask, u3) := Next32(v >= 4, u2);
    (Stat(id, path, mask), u3)
  }

  function ReadFStat(u: bytes, v: nat): (Request, bytes) {
    var (id, u1) := Next32(true, u);
    var (h, u2) := NextHandle(u1);
    var (mask, u3) := Next32(v >= 4, u2);
    (FStat(id, h, mask), u3)
  }

  function ReadSetStat(u: bytes, v: nat): (Request, bytes) {
    var (id, u1) := Next32(true, u);
    var (path, u2) := NextText(true, u1);
    (SetStat(id, path), NextAttrs(u2, v))
  }

  function ReadFSetStat(u: bytes, v: nat): (Request, bytes) {
    var (id, u1) := Next32(true, u);
    var (h, u2) := NextHandle(u1);
    (FSetStat(id, h), NextAttrs(u2, v))
  }

  function ReadOpenDir(u: bytes): (Request, bytes) {
    var (id, u1) := Next32(true, u);
    var (path, u2) := NextText(true, u1);
    (OpenDir(id, path), u2)
  }

  function ReadReadDir(u: bytes): (Request, bytes) {
    var (id, u1) := Next32(true, u);
    var (h, u2) := NextHandle(u1);
    (ReadDir(id, h), u2)
  }

  /** One path for a removal, attributes after it for a creation, two paths for a rename or a link. */
  function ReadPathOp(op: PathKind, u: bytes, v: nat): (Request, bytes) {
    var (id, u1) := Next32(true, u);
    var (path, u2) := NextText(true, u1);
    var (other, u3) := NextText(op.Rename? || op.SymLink?, u2);
    var u4 := if op.MkDir? then NextAttrs(u3, v) else u3;
    var (_, u5) := Next32(op.Rename? && v >= 5, u4);
    (PathOp(id, op, path, other), u5)
  }

  function ReadRealPath(u: bytes): (Request, bytes) {
    var (id, u1) := Next32(true, u);
    var (path, u2) := NextText(true, u1);
    (RealPath(id, path), u2)
  }

  function ReadReadLink(u: bytes): (Request, bytes) {
    var (id, u1) := Next32(true, u);
    var (path, u2) := NextText(true, u1);
    (ReadLink(id, path), u2)
  }

  function ReadExtended(u: bytes): (Request, bytes) {
    var (id, u1) := Next32(true, u);
    var (name, u2) := NextText(true, u1);
    var hard := name == Some(HARDLINK);
    var (path, u3) := NextText(hard, u2);
    var (other, u4) := NextText(hard, u3);
    (Extended(id, name, path, other), u4)
  }

  function ReadUnsupported(u: bytes): (Request, bytes) {
    var (id, u1) := Next32(true, u);
    (Unsupported(id), u1)
  }

  function ReadInit(u: bytes): (Request, bytes) {
    var (clientVersion, u1) := Next32(true, u);
    (Init(clientVersion), u1)
  }

  datatype Conn = CONN_INIT | CONN_SFTP

  /** What is still to be said about a message before it can be read: the dispatcher's two switches. */
  datatype Phase = Phase(conn: Conn, version: u32)

  function ReadRequest(p: Phase, kind: byte, u: bytes): (Request, bytes) {
    var v := p.version;
    if p.conn == CONN_INIT then (if kind == FXP_INIT then ReadInit(u) else ReadUnsupported(u))
    else if kind == FXP_OPEN then ReadOpen(u, v)
    else if kind == FXP_CLOSE then ReadClose(u)
    else if kind == FXP_READ then ReadRead(u)
    else if kind == FXP_WRITE then ReadWrite(u)
    else if kind == FXP_LSTAT || kind == FXP_STAT then ReadStat(u, v)
    else if kind == FXP_FSTAT then ReadFStat(u, v)
    else if kind == FXP_SETSTAT then ReadSetStat(u, v)
    else if kind == FXP_FSETSTAT then ReadFSetStat(u, v)
    else if kind == FXP_OPENDIR then ReadOpenDir(u)
    else if kind == FXP_READDIR then ReadReadDir(u)
    else if kind == FXP_REMOVE then ReadPathOp(Remove, u, v)
    else if kind == FXP_MKDIR then ReadPathOp(MkDir, u, v)
    else if kind == FXP_RMDIR then ReadPathOp(RmDir, u, v)
    else if kind == FXP_RENAME then ReadPathOp(Rename, u, v)
    else if kind == FXP_SYMLINK then ReadPathOp(SymLink, u, v)
    else if kind == FXP_REALPATH then ReadRealPath(u)
    else if kind == FXP_READLINK then ReadReadLink(u)
    else if kind == FXP_EXTENDED then ReadExtended(u)
    else ReadUnsupported(u)
  }

  function RequestOf(p: Phase, m: Msg): Request {
    ReadRequest(p, m.kind, m.body).0
  }

  // ----- messages that a handler reads no further than their end -----

  ghost predicate OwnBytes(p: Phase, kind: byte, body: bytes) {
    forall more: bytes {:trigger body + more} ::
      ReadRequest(p, kind, body + more) == (ReadRequest(p, kind, body).0, ReadRequest(p, kind, body).1 + more)
  }

  predicate TakesHandle(p: Phase, kind: byte) {
    p.conn == CONN_SFTP && kind in {FXP_CLOSE, FXP_READ, FXP_WRITE, FXP_FSTAT, FXP_FSETSTAT, FXP_READDIR}
  }

  /** The handle after the id has all its bytes. */
  predicate HandleFits(u: bytes) {
    |u| >= 8 && (Dec32(u[4..]) == 2 ==> |u| >= 10)
  }

  ghost predicate WellFormed(p: Phase, kind: byte, body: bytes) {
    && OwnBytes(p, kind, body)
    && (TakesHandle(p, kind) ==> HandleFits(body))
    && (var r := ReadRequest(p, kind, body).0; r.Write? ==> r.data.Some?)
  }

  function Negotiated(clientVersion: u32, version: u32): u32 {
    if clientVersion < 3 then 3 else if clientVersion < version then clientVersion else version
  }

  function NextPhase(p: Phase, m: Msg): Phase {
    if p.conn == CONN_INIT && m.kind == FXP_INIT then Phase(CONN_SFTP, Negotiated(Next32(true, m.body).0, p.version)) else p
  }

  // ----- the state machine -----

  datatype Sess = Sess(conn: Conn, version: u32, hs: Handles, who: Who, fast: bool, accesses: seq<Access>)

  /** The administrator's switches that forbid operations, and the home. */
  datatype Config = Config(noOverwrite: bool, noWrite: bool, noRead: bool, noReadDir: bool, noSetStat: bool,
                           noRemove: bool, noMkDir: bool, noRmDir: bool, noRename: bool, noSymLink: bool,
                           home: PathResolve.Home)

  /** What the system answers while one message is handled; `dir` is the path of an OPENDIR as FSOpenDir leaves it, `met` the names that readdir() lists for a READDIR. */
  datatype Env = Env(rules: u32, status: u32, fd: int, fileSize: u64, seekStatus: u32, got: ReadResult,
                     written: int, errStatus: u32, entries: seq<Entry>, attrs: Attrs, name: text,
                     dir: Option<text>, met: seq<text>)

  const LISTING: nat := 100
  const EMFILE_STATUS: u32 := FX_FAILURE

  function PhaseOf(s: Sess): Phase {
    Phase(s.conn, s.version)
  }

  function BadHandle(v: u32): u32 {
    if v <= 3 then FX_FAILURE else FX_INVALID_HANDLE
  }

  /** O_RDWR, O_WRONLY and O_APPEND of the flags that DoOpen computes; O_CREAT and the like are left out. */
  function OpenFlags(v: u32, access: u32, pflags: u32): u32 {
    var bits := if v >= 5 then access else pflags;
    var rw := if HasBit(bits, 1) && HasBit(bits, 2) then 2 else if HasBit(bits, 1) then 0 else if HasBit(bits, 2) then 1 else 0;
    var append := v >= 5 && (HasBit(access, 4) || HasBit(pflags, 8) || HasBit(pflags, 16));
    rw + if append then 0x400 else 0
  }

  predicate IsAppend(flags: u32) {
    HasBit(flags, 0x400)
  }

  predicate TextFlag(v: u32, pflags: u32) {
    HasBit(pflags, if v >= 5 then 0x20 else 0x40)
  }

  const NO_ATTRS: Attrs := Attrs(0, 0, 0, 0, 0, 0, 0, 0, 0, 0)

  function Moved(s: Sess, h: int, pos: u64): Sess
    requires InTable(s.hs, h)
  {
    var hs := s.hs[h := s.hs[h].(filePos := pos)];
    s.(hs := hs, who := UpdateInfo(hs, s.who))
  }

  function StepOpen(s: Sess, r: Request, e: Env, cfg: Config): (Sess, Reply)
    requires r.Open?
  {
    var flags := OpenFlags(s.version, r.access, r.pflags);
    var k := FirstUnused(s.hs);
    if (cfg.noOverwrite && IsAppend(flags)) || (cfg.noWrite && IsUpload(flags)) then (s, StatusReply(r.id, FX_PERMISSION_DENIED))
    else if e.rules != FX_OK then (s, StatusReply(r.id, e.rules))
    else if e.status != FX_OK then (s, StatusReply(r.id, e.status))
    else if k >= |s.hs| then (s, StatusReply(r.id, EMFILE_STATUS))
    else
      var h := Opened(s.hs[k], FILE, r.path, e.fd, TextFlag(s.version, r.pflags), flags).(filePos := 0, fileSize := e.fileSize);
      var hs := s.hs[k := h];
      (s.(hs := hs, who := UpdateInfo(hs, s.who), fast := s.fast || !IsUpload(flags)), HandleReply(r.id, k))
  }

  function StepClose(s: Sess, r: Request): (Sess, Reply)
    requires r.Close?
  {
    if !InTable(s.hs, r.h) then (s, StatusReply(r.id, BadHandle(s.version)))
    else
      var hs := CloseSlot(s.hs, r.h);
      var s' := if s.hs[r.h].state == FILE
                then s.(hs := hs, who := UpdateInfo(hs, s.who), fast := s.fast && IsUpload(s.hs[r.h].flags))
                else s.(hs := hs);
      (s', StatusReply(r.id, FX_OK))
  }

  function ReadLength(len: u32): nat {
    if len > MAX_READ then MAX_READ else len
  }

  function StepRead(s: Sess, r: Request, e: Env, cfg: Config): (Sess, Reply)
    requires r.Read?
  {
    if cfg.noRead then (s, StatusReply(r.id, FX_FAILURE))
    else if !IsFile(s.hs, r.h) then (s, StatusReply(r.id, BadHandle(s.version)))
    else if !s.hs[r.h].fileIsText && e.seekStatus != FX_OK then (s, StatusReply(r.id, e.seekStatus))
    else
      match e.got
      case ReadError(code) => (s, StatusReply(r.id, code))
      case ReadBytes(data) =>
        var d := Delivered(data, s.hs[r.h].fileIsText);
        if d == [] then (s, StatusReply(r.id, FX_EOF))
        else (Moved(s, r.h, (r.off + |d|) % 0x1_0000_0000_0000_0000), DataReply(r.id, d))
  }

  /** What is handed to write(). */
  function ToWrite(s: Sess, r: Request): bytes
    requires r.Write? && r.data.Some? && InTable(s.hs, r.h)
  {
    Delivered(r.data.value, s.hs[r.h].fileIsText)
  }

  /** What lseek() returns, kept unsigned in 64 bits. */
  function Sought(off: u64, seekStatus: u32): u64 {
    if seekStatus == FX_OK then off else 0xFFFF_FFFF_FFFF_FFFF
  }

  function StepWrite(s: Sess, r: Request, e: Env): (Sess, Reply)
    requires r.Write? && r.data.Some?
  {
    var (id, pos) := (r.id, Sought(r.off, e.seekStatus));
    if !IsFile(s.hs, r.h) then (s, StatusReply(id, BadHandle(s.version)))
    else if !s.hs[r.h].fileIsText && pos < 0 then (s, StatusReply(id, e.seekStatus))
    else
      var code := if e.written == -1 then e.errStatus else if e.written == |ToWrite(s, r)| then FX_OK else FX_FAILURE;
      (Moved(s, r.h, (r.off + e.written) % 0x1_0000_0000_0000_0000), StatusReply(id, code))
  }

  function AttrsOrStatus(v: u32, id: u32, mask: u32, e: Env): Reply {
    if e.status != FX_OK then StatusReply(id, e.status)
    else AttrsReply(id, if v >= 4 then e.attrs.(flags := mask) else e.attrs)
  }

  function StepOpenDir(s: Sess, r: Request, e: Env): (Sess, Reply)
    requires r.OpenDir?
  {
    var k := FirstUnused(s.hs);
    if e.status != FX_OK then (s, StatusReply(r.id, e.status))
    else if k >= |s.hs| then (s, StatusReply(r.id, EMFILE_STATUS))
    else (s.(hs := s.hs[k := Opened(s.hs[k], DIR, e.dir, -1, false, 0)]), HandleReply(r.id, k))
  }

  function ReplyReadDir(s: Sess, r: Request, e: Env, cfg: Config): Reply
    requires r.ReadDir?
  {
    var n := if |e.entries| < LISTING then |e.entries| else LISTING;
    if cfg.noReadDir then StatusReply(r.id, FX_PERMISSION_DENIED)
    else if !IsDir(s.hs, r.h) then StatusReply(r.id, BadHandle(s.version))
    else if n > 0 then NameReply(r.id, e.entries[..n])
    else StatusReply(r.id, FX_EOF)
  }

  predicate Forbidden(op: PathKind, cfg: Config) {
    match op
    case Remove => cfg.noRemove
    case MkDir => cfg.noMkDir
    case RmDir => cfg.noRmDir
    case Rename => cfg.noRename
    case SymLink => cfg.noSymLink
  }

  /** The requests that change neither a handle nor the status. */
  function QuietReply(s: Sess, r: Request, e: Env, cfg: Config): Reply
    requires !r.Init? && !r.Open? && !r.Close? && !r.Read? && !r.Write? && !r.OpenDir?
  {
    match r
    case Stat(id, _, mask) => AttrsOrStatus(s.version, id, mask, e)
    case FStat(id, h, mask) =>
      if IsFile(s.hs, h) then AttrsOrStatus(s.version, id, mask, e) else StatusReply(id, BadHandle(s.version))
    case SetStat(id, _) => StatusReply(id, if cfg.noSetStat then FX_PERMISSION_DENIED else e.status)
    case FSetStat(id, h) =>
      StatusReply(id, if !InTable(s.hs, h) then BadHandle(s.version) else if cfg.noSetStat then FX_PERMISSION_DENIED else e.status)
    case ReadDir(_, _) => ReplyReadDir(s, r, e, cfg)
    case PathOp(id, op, _, _) => StatusReply(id, if Forbidden(op, cfg) then FX_PERMISSION_DENIED else e.status)
    case RealPath(id, _) => NameReply(id, [Entry(e.name, e.name, NO_ATTRS)])
    case ReadLink(id, _) =>
      if e.status == FX_OK then NameReply(id, [Entry(e.name, e.name, NO_ATTRS)]) else StatusReply(id, e.status)
    case Extended(id, name, _, _) =>
      StatusReply(id, if name != Some(HARDLINK) then FX_OP_UNSUPPORTED
                      else if cfg.noSymLink then FX_PERMISSION_DENIED else e.status)
    case Unsupported(id) => StatusReply(id, FX_OP_UNSUPPORTED)
  }

  function React(s: Sess, r: Request, e: Env, cfg: Config): (Sess, Reply)
    requires r.Write? ==> r.data.Some?
  {
    match r
    case Init(cv) => (s.(conn := CONN_SFTP, version := Negotiated(cv, s.version)), VersionReply)
    case Open(_, _, _, _) => StepOpen(s, r, e, cfg)
    case Close(_, _) => StepClose(s, r)
    case Read(_, _, _, _) => StepRead(s, r, e, cfg)
    case Write(_, _, _, _) => StepWrite(s, r, e)
    case OpenDir(_, _) => StepOpenDir(s, r, e)
    case _ => (s, QuietReply(s, r, e, cfg))
  }

  /** What the handler of r hands to FileSystem.c. */
  function AccessesOf(s: Sess, r: Request, e: Env, cfg: Config): seq<Access> {
    match r
    case Open(_, path, access, pflags) =>
      var flags := OpenFlags(s.version, access, pflags);
      if (cfg.noOverwrite && IsAppend(flags)) || (cfg.noWrite && IsUpload(flags)) || e.rules != FX_OK then [] else OfPath(path)
    case OpenDir(_, _) => OfPath(e.dir)
    case ReadDir(_, h) => if cfg.noReadDir || !IsDir(s.hs, h) then [] else OfEntries(s.hs[h].path, e.met)
    case Stat(_, path, _) => OfPath(path)
    case FStat(_, h, _) => if IsFile(s.hs, h) then OfPath(s.hs[h].path) else []
    case SetStat(_, path) => OfPath(path)
    case FSetStat(_, h) => if InTable(s.hs, h) then OfPath(s.hs[h].path) else []
    case PathOp(_, op, path, other) => if Forbidden(op, cfg) then [] else OfPath(path) + OfPath(other)
    case RealPath(_, path) => OfShown(cfg.home, path)
    case ReadLink(_, path) => OfPath(path)
    case Extended(_, name, path, other) => if name != Some(HARDLINK) || cfg.noSymLink then [] else OfPath(path) + OfPath(other)
    case _ => []
  }

  function Record(s: Sess, as': seq<Access>): Sess {
    if as' == [] then s else s.(accesses := s.accesses + as')
  }

  /** One request: the new state, with what was handed over recorded, and the reply. */
  function Step(s: Sess, r: Request, e: Env, cfg: Config): (Sess, Reply)
    requires r.Write? ==> r.data.Some?
  {
    var (s', p) := React(s, r, e, cfg);
    (Record(s', AccessesOf(s, r, e, cfg)), p)
  }

  /** The system's answers are ones it can give, and the reply fits into a packet. */
  ghost predicate Possible(s: Sess, r: Request, e: Env, cfg: Config, dbs: Databases)
    requires r.Write? ==> r.data.Some?
  {
    && (r.Read? && IsFile(s.hs, r.h) ==>
          && (e.got.ReadBytes? ==> |e.got.data| <= ReadLength(r.len))
          && (e.got.ReadError? ==> e.got.code != FX_OK && !s.hs[r.h].fileIsText))
    && (r.Write? && IsFile(s.hs, r.h) ==> -1 <= e.written <= |ToWrite(s, r)|)
    && Sendable(Step(s, r, e, cfg).1, Step(s, r, e, cfg).0.version, dbs)
  }
}
