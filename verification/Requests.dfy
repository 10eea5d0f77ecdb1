/**
  Requests as clients write them (section 6 of draft-ietf-secsh-filexfer-02, and the fields later
  versions add): what the handlers read from the bytes of a request is that request, and no more bytes.
 */
module Requests {
  import opened Wrappers
  import opened Bytes
  import opened Buffers
  import opened Attributes
  import opened Framing
  import opened Protocol

  datatype Stamp = Stamp(seconds: u64, nanoseconds: u32)

  /** What a request carries beside what its handler keeps: attributes with any times, ACL and extended pairs. */
  datatype Extra = Extra(attrs: Attrs, owner: Owner, accessed: Stamp, created: Stamp, modified: Stamp,
                         acl: text, pairs: seq<(text, text)>, renameFlags: u32)

  predicate HandleOk(h: int) {
    0 <= h < 0x100 - 48
  }

  /** The fields that the version knows are there, and no others. */
  predicate Sayable(v: u32, r: Request) {
    match r
    case Init(_) => true
    case Open(_, path, access, _) => path.Some? && (v < 5 ==> access == 0)
    case Close(_, h) => HandleOk(h)
    case Read(_, h, _, _) => HandleOk(h)
    case Write(_, h, _, data) => HandleOk(h) && data.Some?
    case Stat(_, path, mask) => path.Some? && (v < 4 ==> mask == 0)
    case FStat(_, h, mask) => HandleOk(h) && (v < 4 ==> mask == 0)
    case SetStat(_, path) => path.Some?
    case FSetStat(_, h) => HandleOk(h)
    case OpenDir(_, path) => path.Some?
    case ReadDir(_, h) => HandleOk(h)
    case PathOp(_, op, path, other) => path.Some? && (other.Some? <==> op.Rename? || op.SymLink?)
    case RealPath(_, path) => path.Some?
    case ReadLink(_, path) => path.Some?
    case Extended(_, name, path, other) =>
      name.Some? && (path.Some? <==> name == Some(HARDLINK)) && (other.Some? <==> name == Some(HARDLINK))
    case Unsupported(_) => true
  }

  const KNOWN: set<byte> := {
    FXP_OPEN, FXP_CLOSE, FXP_READ, FXP_WRITE, FXP_LSTAT, FXP_STAT, FXP_FSTAT, FXP_SETSTAT, FXP_FSETSTAT, FXP_OPENDIR,
    FXP_READDIR, FXP_REMOVE, FXP_MKDIR, FXP_RMDIR, FXP_RENAME, FXP_SYMLINK, FXP_REALPATH, FXP_READLINK, FXP_EXTENDED}

  predicate IsKind(r: Request, kind: byte) {
    match r
    case Init(_) => kind == FXP_INIT
    case Open(_, _, _, _) => kind == FXP_OPEN
    case Close(_, _) => kind == FXP_CLOSE
    case Read(_, _, _, _) => kind == FXP_READ
    case Write(_, _, _, _) => kind == FXP_WRITE
    case Stat(_, _, _) => kind == FXP_STAT || kind == FXP_LSTAT
    case FStat(_, _, _) => kind == FXP_FSTAT
    case SetStat(_, _) => kind == FXP_SETSTAT
    case FSetStat(_, _) => kind == FXP_FSETSTAT
    case OpenDir(_, _) => kind == FXP_OPENDIR
    case ReadDir(_, _) => kind == FXP_READDIR
    case PathOp(_, op, _, _) =>
      kind == (match op case Remove => FXP_REMOVE case MkDir => FXP_MKDIR case RmDir => FXP_RMDIR
                        case Rename => FXP_RENAME case SymLink => FXP_SYMLINK)
    case RealPath(_, _) => kind == FXP_REALPATH
    case ReadLink(_, _) => kind == FXP_READLINK
    case Extended(_, _, _, _) => kind == FXP_EXTENDED
    case Unsupported(_) => kind !in KNOWN
  }

  /** The request is one that this phase of the session serves. */
  predicate InPhase(p: Phase, r: Request, kind: byte) {
    if p.conn == CONN_INIT then (if r.Init? then kind == FXP_INIT else r.Unsupported? && kind != FXP_INIT)
    else !r.Init? && IsKind(r, kind)
  }

  /**
    The attributes are ones that the decoder reads to their end: no names below version 4 and no BITS,
    which it does not read, and subseconds with all three times, as it reads three.
   */
  predicate ExtraOk(v: u32, x: Extra) {
    var f := x.attrs.flags;
    && |x.pairs| < 0x1_0000_0000 && !HasBit(f, ATTR_BITS)
    && (HasBit(f, ATTR_OWNERGROUP) ==> v >= 4)
    && (v >= 4 && HasBit(f, ATTR_SUBSECOND_TIMES) ==>
          HasBit(f, ATTR_ACCESSTIME) && HasBit(f, ATTR_CREATETIME) && HasBit(f, ATTR_MODIFYTIME))
  }

  function SayText(c: bool, s: Option<text>, t: bytes): bytes
    requires c ==> s.Some?
  {
    PutText(c, if c then s.value else []) + t
  }

  function SayHandle(h: int, t: bytes): bytes
    requires HandleOk(h)
  {
    EncHandle(h) + t
  }

  function SayTime(c: bool, n: Stamp, subsecond: bool, t: bytes): bytes {
    Put64(c, n.seconds) + (Put32(c && subsecond, n.nanoseconds) + t)
  }

  function SayTimes(v: u32, x: Extra, t: bytes): bytes {
    var f := x.attrs.flags;
    if v <= 3 then EncTimes(x.attrs, v) + t
    else
      var s := HasBit(f, ATTR_SUBSECOND_TIMES);
      SayTime(HasBit(f, ATTR_ACCESSTIME), x.accessed, s,
        SayTime(HasBit(f, ATTR_CREATETIME), x.created, s, SayTime(HasBit(f, ATTR_MODIFYTIME), x.modified, s, t)))
  }

  function SayPairs(ps: seq<(text, text)>, t: bytes): bytes {
    if ps == [] then t else PutText(true, ps[0].0) + (PutText(true, ps[0].1) + SayPairs(ps[1..], t))
  }

  function SayExtended(c: bool, ps: seq<(text, text)>, t: bytes): bytes
    requires |ps| < 0x1_0000_0000
  {
    if c then Put32(true, |ps|) + SayPairs(ps, t) else t
  }

  function SayAttrs(c: bool, v: u32, x: Extra, t: bytes): bytes
    requires |x.pairs| < 0x1_0000_0000
  {
    var a, f := x.attrs, x.attrs.flags;
    if !c then t
    else
      EncHead(a, v) + (EncOwner(a, v, x.owner) + (Put32(HasBit(f, ATTR_PERMISSIONS), a.perm) +
        SayTimes(v, x, PutText(HasBit(f, ATTR_ACL), x.acl) + SayExtended(HasBit(f, ATTR_EXTENDED), x.pairs, t))))
  }

  /** The bytes of the request, and then t. */
  function Say(v: u32, r: Request, x: Extra, t: bytes): bytes
    requires Sayable(v, r) && |x.pairs| < 0x1_0000_0000
  {
    match r
    case Init(cv) => Put32(true, cv) + t
    case Open(id, path, access, pflags) =>
      Put32(true, id) + SayText(true, path, Put32(v >= 5, access) + (Put32(true, pflags) + SayAttrs(true, v, x, t)))
    case Close(id, h) => Put32(true, id) + SayHandle(h, t)
    case Read(id, h, off, len) => Put32(true, id) + SayHandle(h, Put64(true, off) + (Put32(true, len) + t))
    case Write(id, h, off, data) => Put32(true, id) + SayHandle(h, Put64(true, off) + SayText(true, data, t))
    case Stat(id, path, mask) => Put32(true, id) + SayText(true, path, Put32(v >= 4, mask) + t)
    case FStat(id, h, mask) => Put32(true, id) + SayHandle(h, Put32(v >= 4, mask) + t)
    case SetStat(id, path) => Put32(true, id) + SayText(true, path, SayAttrs(true, v, x, t))
    case FSetStat(id, h) => Put32(true, id) + SayHandle(h, SayAttrs(true, v, x, t))
    case OpenDir(id, path) => Put32(true, id) + SayText(true, path, t)
    case ReadDir(id, h) => Put32(true, id) + SayHandle(h, t)
    case PathOp(id, op, path, other) =>
      Put32(true, id) + SayText(true, path, SayText(op.Rename? || op.SymLink?, other,
        SayAttrs(op.MkDir?, v, x, Put32(op.Rename? && v >= 5, x.renameFlags) + t)))
    case RealPath(id, path) => Put32(true, id) + SayText(true, path, t)
    case ReadLink(id, path) => Put32(true, id) + SayText(true, path, t)
    case Extended(id, name, path, other) =>
      Put32(true, id) + SayText(true, name, SayText(path.Some?, path, SayText(other.Some?, other, t)))
    case Unsupported(id) => Put32(true, id) + t
  }

  // ----- one field -----

  lemma NextOfSayText(c: bool, s: Option<text>, t: bytes)
    requires c <==> s.Some?
    ensures NextText(c, SayText(c, s, t)) == (s, t)
  {
    hide PutText, NextText;
    NextTextOfPut(c, if c then s.value else [], t);
  }

  lemma NextOfSayHandle(h: int, t: bytes)
    requires HandleOk(h)
    ensures NextHandle(SayHandle(h, t)) == (h, t)
  {
    hide TakeHandle;
    HandleRoundTrip(h, t);
    assert (EncHandle(h) + t)[HANDLE_SIZE..] == t;
  }

  lemma NextOfSayTimes(v: u32, x: Extra, t: bytes)
    requires ExtraOk(v, x)
    ensures DecTimes(x.attrs.flags, SayTimes(v, x, t), v).3 == t
  {
    hide Put32, Put64, Next32, Next64, HasBit;
    if v <= 3 {
      TimesRoundTrip3(x.attrs, v, t);
    } else {
      var f := x.attrs.flags;
      var s, a, c, m := HasBit(f, ATTR_SUBSECOND_TIMES), HasBit(f, ATTR_ACCESSTIME), HasBit(f, ATTR_CREATETIME), HasBit(f, ATTR_MODIFYTIME);
      assert (a && s) == s && (c && s) == s && (m && s) == s;
      var u2 := SayTime(m, x.modified, s, t);
      var u1 := SayTime(c, x.created, s, u2);
      Next64OfPut(a, x.accessed.seconds, Put32(s, x.accessed.nanoseconds) + u1);
      Next32OfPut(s, x.accessed.nanoseconds, u1);
      Next64OfPut(c, x.created.seconds, Put32(s, x.created.nanoseconds) + u2);
      Next32OfPut(s, x.created.nanoseconds, u2);
      Next64OfPut(m, x.modified.seconds, Put32(s, x.modified.nanoseconds) + t);
      Next32OfPut(s, x.modified.nanoseconds, t);
    }
  }

  lemma {:induction false} SkipSaid(ps: seq<(text, text)>, t: bytes)
    ensures SkipPairs(|ps|, SayPairs(ps, t)) == t
    decreases |ps|
  {
    hide PutText, NextText;
    if ps != [] {
      var u := SayPairs(ps[1..], t);
      NextTextOfPut(true, ps[0].0, PutText(true, ps[0].1) + u);
      NextTextOfPut(true, ps[0].1, u);
      SkipSaid(ps[1..], t);
    }
  }

  lemma NextOfSayExtended(f: u32, ps: seq<(text, text)>, t: bytes)
    requires |ps| < 0x1_0000_0000
    ensures DecExtended(f, SayExtended(HasBit(f, ATTR_EXTENDED), ps, t)) == t
  {
    hide Put32, Next32, HasBit, SayPairs;
    Next32OfPut(true, |ps|, SayPairs(ps, t));
    SkipSaid(ps, t);
    if !HasBit(f, ATTR_EXTENDED) {
      NothingExtended(f, t);
    }
  }

  lemma NextOfSayAttrs(v: u32, x: Extra, t: bytes)
    requires ExtraOk(v, x)
    ensures NextAttrs(SayAttrs(true, v, x, t), v) == t
  {
    hide EncHead, EncOwner, SayTimes, SayExtended, DecHead, DecOwner, DecTimes, DecExtended, Put32, PutText, Next32, NextText, HasBit;
    var a, f := x.attrs, x.attrs.flags;
    var u5 := SayExtended(HasBit(f, ATTR_EXTENDED), x.pairs, t);
    var u4 := PutText(HasBit(f, ATTR_ACL), x.acl) + u5;
    var u3 := SayTimes(v, x, u4);
    var u2 := Put32(HasBit(f, ATTR_PERMISSIONS), a.perm) + u3;
    HeadRoundTrip(a, v, EncOwner(a, v, x.owner) + u2);
    OwnerRoundTrip(a, v, x.owner, u2);
    Next32OfPut(HasBit(f, ATTR_PERMISSIONS), a.perm, u3);
    NextOfSayTimes(v, x, u4);
    NextTextOfPut(HasBit(f, ATTR_ACL), x.acl, u5);
    NextOfSayExtended(f, x.pairs, t);
  }

  // ----- one request -----

  lemma OpenRead(v: u32, r: Request, x: Extra, t: bytes)
    requires r.Open? && Sayable(v, r) && ExtraOk(v, x)
    ensures ReadOpen(Say(v, r, x, t), v) == (r, t)
  {
    hide SayText, SayAttrs, Put32, Next32, NextText, NextAttrs, HasBit;
    var u4 := SayAttrs(true, v, x, t);
    var u3 := Put32(true, r.pflags) + u4;
    var u2 := Put32(v >= 5, r.access) + u3;
    Next32OfPut(true, r.id, SayText(true, r.path, u2));
    NextOfSayText(true, r.path, u2);
    Next32OfPut(v >= 5, r.access, u3);
    Next32OfPut(true, r.pflags, u4);
    NextOfSayAttrs(v, x, t);
  }

  lemma TransferRead(v: u32, r: Request, x: Extra, t: bytes)
    requires (r.Read? || r.Write?) && Sayable(v, r) && ExtraOk(v, x)
    ensures (if r.Read? then ReadRead(Say(v, r, x, t)) else ReadWrite(Say(v, r, x, t))) == (r, t)
  {
    hide SayText, SayHandle, Put32, Put64, Next32, Next64, NextText, NextHandle;
    var u3 := if r.Read? then Put32(true, r.len) + t else SayText(true, r.data, t);
    var u2 := Put64(true, r.off) + u3;
    Next32OfPut(true, r.id, SayHandle(r.h, u2));
    NextOfSayHandle(r.h, u2);
    Next64OfPut(true, r.off, u3);
    if r.Read? {
      Next32OfPut(true, r.len, t);
    } else {
      NextOfSayText(true, r.data, t);
    }
  }

  lemma StatRead(v: u32, r: Request, x: Extra, t: bytes)
    requires (r.Stat? || r.FStat?) && Sayable(v, r) && ExtraOk(v, x)
    ensures (if r.Stat? then ReadStat(Say(v, r, x, t), v) else ReadFStat(Say(v, r, x, t), v)) == (r, t)
  {
    hide SayText, SayHandle, Put32, Next32, NextText, NextHandle;
    var u2 := Put32(v >= 4, r.mask) + t;
    if r.Stat? {
      Next32OfPut(true, r.id, SayText(true, r.path, u2));
      NextOfSayText(true, r.path, u2);
    } else {
      Next32OfPut(true, r.id, SayHandle(r.h, u2));
      NextOfSayHandle(r.h, u2);
    }
    Next32OfPut(v >= 4, r.mask, t);
  }

  lemma SetStatRead(v: u32, r: Request, x: Extra, t: bytes)
    requires (r.SetStat? || r.FSetStat?) && Sayable(v, r) && ExtraOk(v, x)
    ensures (if r.SetStat? then ReadSetStat(Say(v, r, x, t), v) else ReadFSetStat(Say(v, r, x, t), v)) == (r, t)
  {
    hide SayText, SayHandle, SayAttrs, Put32, Next32, NextText, NextHandle, NextAttrs, HasBit;
    var u2 := SayAttrs(true, v, x, t);
    if r.SetStat? {
      Next32OfPut(true, r.id, SayText(true, r.path, u2));
      NextOfSayText(true, r.path, u2);
    } else {
      Next32OfPut(true, r.id, SayHandle(r.h, u2));
      NextOfSayHandle(r.h, u2);
    }
    NextOfSayAttrs(v, x, t);
  }

  lemma PathOpRead(v: u32, r: Request, x: Extra, t: bytes)
    requires r.PathOp? && Sayable(v, r) && ExtraOk(v, x)
    ensures ReadPathOp(r.op, Say(v, r, x, t), v) == (r, t)
  {
    hide SayText, SayAttrs, Put32, Next32, NextText, NextAttrs, HasBit;
    var two, flags := r.op.Rename? || r.op.SymLink?, r.op.Rename? && v >= 5;
    var u4 := Put32(flags, x.renameFlags) + t;
    var u3 := SayAttrs(r.op.MkDir?, v, x, u4);
    var u2 := SayText(two, r.other, u3);
    Next32OfPut(true, r.id, SayText(true, r.path, u2));
    NextOfSayText(true, r.path, u2);
    NextOfSayText(two, r.other, u3);
    if r.op.MkDir? {
      NextOfSayAttrs(v, x, u4);
    } else {
      NoAttrs(v, x, u4);
    }
    Next32OfPut(flags, x.renameFlags, t);
  }

  lemma NoAttrs(v: u32, x: Extra, t: bytes)
    requires |x.pairs| < 0x1_0000_0000
    ensures SayAttrs(false, v, x, t) == t
  {
  }

  lemma ExtendedRead(v: u32, r: Request, x: Extra, t: bytes)
    requires r.Extended? && Sayable(v, r) && ExtraOk(v, x)
    ensures ReadExtended(Say(v, r, x, t)) == (r, t)
  {
    hide SayText, Put32, Next32, NextText;
    var u3 := SayText(r.other.Some?, r.other, t);
    var u2 := SayText(r.path.Some?, r.path, u3);
    Next32OfPut(true, r.id, SayText(true, r.name, u2));
    NextOfSayText(true, r.name, u2);
    NextOfSayText(r.path.Some?, r.path, u3);
    NextOfSayText(r.other.Some?, r.other, t);
  }

  /** The requests of an id, and perhaps one handle or one path. */
  lemma ShortRead(p: Phase, r: Request, x: Extra, kind: byte, t: bytes)
    requires r.Init? || r.Close? || r.ReadDir? || r.OpenDir? || r.RealPath? || r.ReadLink? || r.Unsupported?
    requires InPhase(p, r, kind) && Sayable(p.version, r) && ExtraOk(p.version, x)
    ensures ReadRequest(p, kind, Say(p.version, r, x, t)) == (r, t)
  {
    hide SayText, SayHandle, Put32, Next32, NextText, NextHandle;
    var v := p.version;
    if r.Init? {
      Next32OfPut(true, r.clientVersion, t);
    } else if r.Unsupported? {
      Next32OfPut(true, r.id, t);
    } else if r.Close? || r.ReadDir? {
      Next32OfPut(true, r.id, SayHandle(r.h, t));
      NextOfSayHandle(r.h, t);
    } else {
      Next32OfPut(true, r.id, SayText(true, r.path, t));
      NextOfSayText(true, r.path, t);
    }
  }

  /** What is read is what was said, whatever bytes follow. */
  lemma RequestRoundTrip(p: Phase, r: Request, x: Extra, kind: byte, t: bytes)
    requires InPhase(p, r, kind) && Sayable(p.version, r) && ExtraOk(p.version, x)
    ensures ReadRequest(p, kind, Say(p.version, r, x, t)) == (r, t)
  {
    hide Say, ReadOpen, ReadClose, ReadRead, ReadWrite, ReadStat, ReadFStat, ReadSetStat, ReadFSetStat, ReadOpenDir,
      ReadReadDir, ReadPathOp, ReadRealPath, ReadReadLink, ReadExtended, ReadUnsupported, ReadInit, HasBit;
    var v := p.version;
    match r {
      case Open(_, _, _, _) => OpenRead(v, r, x, t);
      case Read(_, _, _, _) => TransferRead(v, r, x, t);
      case Write(_, _, _, _) => TransferRead(v, r, x, t);
      case Stat(_, _, _) => StatRead(v, r, x, t);
      case FStat(_, _, _) => StatRead(v, r, x, t);
      case SetStat(_, _) => SetStatRead(v, r, x, t);
      case FSetStat(_, _) => SetStatRead(v, r, x, t);
      case PathOp(_, _, _, _) => PathOpRead(v, r, x, t);
      case Extended(_, _, _, _) => ExtendedRead(v, r, x, t);
      case _ => ShortRead(p, r, x, kind, t);
    }
  }

  // ----- requests are well-formed messages -----

  lemma {:induction false} PairsAppend(ps: seq<(text, text)>, t: bytes, more: bytes)
    ensures SayPairs(ps, t) + more == SayPairs(ps, t + more)
    decreases |ps|
  {
    hide PutText;
    if ps != [] {
      PairsAppend(ps[1..], t, more);
      var a, b, u := PutText(true, ps[0].0), PutText(true, ps[0].1), SayPairs(ps[1..], t);
      assert a + (b + u) + more == a + (b + (u + more));
    }
  }

  lemma TimesAppend(v: u32, x: Extra, t: bytes, more: bytes)
    ensures SayTimes(v, x, t) + more == SayTimes(v, x, t + more)
  {
    hide Put32, Put64, EncTimes, HasBit;
  }

  lemma AttrsAppend(c: bool, v: u32, x: Extra, t: bytes, more: bytes)
    requires |x.pairs| < 0x1_0000_0000
    ensures SayAttrs(c, v, x, t) + more == SayAttrs(c, v, x, t + more)
  {
    hide PutText, Put32, EncHead, EncOwner, SayTimes, HasBit;
    var f := x.attrs.flags;
    var ext, acl := HasBit(f, ATTR_EXTENDED), PutText(HasBit(f, ATTR_ACL), x.acl);
    PairsAppend(x.pairs, t, more);
    assert SayExtended(ext, x.pairs, t) + more == SayExtended(ext, x.pairs, t + more) by {
      assert Put32(true, |x.pairs|) + SayPairs(x.pairs, t) + more == Put32(true, |x.pairs|) + (SayPairs(x.pairs, t) + more);
    }
    assert acl + SayExtended(ext, x.pairs, t) + more == acl + SayExtended(ext, x.pairs, t + more);
    TimesAppend(v, x, acl + SayExtended(ext, x.pairs, t), more);
  }

  lemma PathOpAppend(v: u32, r: Request, x: Extra, more: bytes)
    requires r.PathOp? && Sayable(v, r) && |x.pairs| < 0x1_0000_0000
    ensures Say(v, r, x, []) + more == Say(v, r, x, more)
  {
    hide SayText, SayAttrs, Put32;
    var two, flags := r.op.Rename? || r.op.SymLink?, Put32(r.op.Rename? && v >= 5, x.renameFlags);
    var u := SayAttrs(r.op.MkDir?, v, x, flags + []);
    AttrsAppend(r.op.MkDir?, v, x, flags + [], more);
    assert flags + [] + more == flags + more;
    TextAppend(two, r.other, u, more);
    TextAppend(true, r.path, SayText(two, r.other, u), more);
  }

  lemma TextAppend(c: bool, s: Option<text>, t: bytes, more: bytes)
    requires c ==> s.Some?
    ensures SayText(c, s, t) + more == SayText(c, s, t + more)
  {
    hide PutText;
  }

  /** Bytes that follow a request are no part of it. */
  lemma SayAppend(v: u32, r: Request, x: Extra, more: bytes)
    requires Sayable(v, r) && |x.pairs| < 0x1_0000_0000
    ensures Say(v, r, x, []) + more == Say(v, r, x, more)
  {
    hide PutText, SayAttrs, EncHandle, Put32, Put64;
    assert [] + more == more;
    if r.PathOp? {
      PathOpAppend(v, r, x, more);
    } else {
      AttrsAppend(true, v, x, [], more);
    }
  }

  lemma HandlesFit(p: Phase, r: Request, x: Extra, kind: byte)
    requires InPhase(p, r, kind) && Sayable(p.version, r) && TakesHandle(p, kind) && |x.pairs| < 0x1_0000_0000
    ensures HandleFits(Say(p.version, r, x, []))
  {
    hide PutText, EncAttributes, Put64, Enc32;
    var u := Say(p.version, r, x, []);
    assert |u| >= 10;
  }

  /** A request written this way is a message the session may be given, and is read as what it is. */
  lemma SaidIsWellFormed(p: Phase, r: Request, x: Extra, kind: byte)
    requires InPhase(p, r, kind) && Sayable(p.version, r) && ExtraOk(p.version, x)
    ensures var body := Say(p.version, r, x, []);
            WellFormed(p, kind, body) && ReadRequest(p, kind, body) == (r, [])
  {
    hide Say, ReadRequest, HandleFits, HasBit, InPhase, TakesHandle;
    var body := Say(p.version, r, x, []);
    RequestRoundTrip(p, r, x, kind, []);
    forall more: bytes ensures ReadRequest(p, kind, body + more) == (ReadRequest(p, kind, body).0, ReadRequest(p, kind, body).1 + more) {
      SayAppend(p.version, r, x, more);
      RequestRoundTrip(p, r, x, kind, more);
      assert [] + more == more;
    }
    if TakesHandle(p, kind) {
      HandlesFit(p, r, x, kind);
    }
  }

  // ----- a whole conversation -----

  datatype Said = Said(r: Request, x: Extra, kind: byte)

  /** Requests that follow one another from this phase on, none too long for a message. */
  predicate Speakable(p: Phase, ss: seq<Said>)
    decreases |ss|
  {
    ss == [] ||
    (&& InPhase(p, ss[0].r, ss[0].kind) && Sayable(p.version, ss[0].r) && ExtraOk(p.version, ss[0].x)
     && |Say(p.version, ss[0].r, ss[0].x, [])| < MAX_MESSAGE
     && Speakable(NextPhase(p, MsgOf(p, ss[0])), ss[1..]))
  }

  function MsgOf(p: Phase, s: Said): Msg
    requires Sayable(p.version, s.r) && |s.x.pairs| < 0x1_0000_0000 && |Say(p.version, s.r, s.x, [])| < MAX_MESSAGE
  {
    Msg(s.kind, Say(p.version, s.r, s.x, []))
  }

  function Talk(p: Phase, ss: seq<Said>): (ms: seq<Msg>)
    requires Speakable(p, ss)
    ensures |ms| == |ss|
    decreases |ss|
  {
    if ss == [] then [] else [MsgOf(p, ss[0])] + Talk(NextPhase(p, MsgOf(p, ss[0])), ss[1..])
  }

  /** The requests that a session in phase p reads from these messages. */
  function Heard(p: Phase, ms: seq<Msg>): seq<Request>
    decreases |ms|
  {
    if ms == [] then [] else [RequestOf(p, ms[0])] + Heard(NextPhase(p, ms[0]), ms[1..])
  }

  function Requested(ss: seq<Said>): seq<Request> {
    if ss == [] then [] else [ss[0].r] + Requested(ss[1..])
  }

  ghost predicate WellFormedAll(p: Phase, ms: seq<Msg>)
    decreases |ms|
  {
    ms == [] || (WellFormed(p, ms[0].kind, ms[0].body) && WellFormedAll(NextPhase(p, ms[0]), ms[1..]))
  }

  lemma {:induction false} TalkIsHeard(p: Phase, ss: seq<Said>)
    requires Speakable(p, ss)
    ensures Heard(p, Talk(p, ss)) == Requested(ss) && WellFormedAll(p, Talk(p, ss))
    decreases |ss|
  {
    hide Say, ReadRequest, NextPhase, InPhase, Sayable, WellFormed, HasBit;
    if ss != [] {
      var m := MsgOf(p, ss[0]);
      var q := NextPhase(p, m);
      var ms := Talk(p, ss);
      assert ms[0] == m && ms[1..] == Talk(q, ss[1..]);
      SaidIsWellFormed(p, ss[0].r, ss[0].x, ss[0].kind);
      TalkIsHeard(q, ss[1..]);
    }
  }

  /** The session reads, from the bytes of any conversation, the requests that were written. */
  lemma SpokenIsHeard(p: Phase, ss: seq<Said>)
    requires Speakable(p, ss)
    ensures var heard := Parse(Unparse(Talk(p, ss)));
            && heard.rest == [] && heard.why == Wait
            && Heard(p, heard.msgs) == Requested(ss) && WellFormedAll(p, heard.msgs)
  {
    hide Parse, Unparse, Talk, Heard, Requested, WellFormedAll;
    UnparseParses(Talk(p, ss));
    TalkIsHeard(p, ss);
  }
}
