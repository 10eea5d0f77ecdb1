/** Send.c: the replies of the server, each one packet of the output buffer. */
module Replies {
  import opened Wrappers
  import opened Bytes
  import opened Buffers
  import opened UserTable
  import opened Attributes
  import opened TextMode

  const FXP_VERSION: byte := 2
  const FXP_STATUS: byte := 101
  const FXP_HANDLE: byte := 102
  const FXP_DATA: byte := 103
  const FXP_NAME: byte := 104
  const FXP_ATTRS: byte := 105

  const MAX_READ: nat := 131072
  const FX_MAX: nat := 18

  /** One line of a directory listing. */
  datatype Entry = Entry(name: text, longName: text, attrs: Attrs)

  datatype Reply =
    | VersionReply
    | StatusReply(id: u32, code: u32)
    | HandleReply(id: u32, h: int)
    | DataReply(id: u32, data: bytes)
    | NameReply(id: u32, entries: seq<Entry>)
    | AttrsReply(id: u32, attrs: Attrs)

  datatype Databases = Databases(users: Database, groups: Database)

  // ----- texts -----

  function Ascii(s: string): (t: bytes)
    ensures |t| == |s|
  {
    seq(|s|, i requires 0 <= i < |s| => s[i] as int % 0x100)
  }

  const STATUS_MESSAGES: seq<string> := [
    "Success", "End of file", "No such file", "Permission denied", "Failure", "Bad message", "No connection",
    "Connection lost", "Operation unsupported", "Invalid handle", "No such path", "File already exists",
    "Write protect", "No media", "No space left", "Quota exceeded", "Unknown principle", "Lock conflict", "Unknown error"]

  function StatusMessage(code: u32): (t: text)
    ensures |t| < 100
  {
    var i := if code < FX_MAX then code else FX_MAX;
    Ascii(STATUS_MESSAGES[i])
  }

  // ----- the bytes of a reply, without the length before them -----

  function DbName(db: Database, id: u32): text {
    if id in db.byId then db.byId[id] else Decimal(id)
  }

  function DbOwner(dbs: Databases, a: Attrs): Owner {
    Owner(DbName(dbs.users, a.uid), DbName(dbs.groups, a.gid))
  }

  function StatusBody(id: u32, code: u32, v: nat): bytes {
    [FXP_STATUS] + Enc32(id) + Enc32(code)
    + if v >= 3 then EncString(StatusMessage(code)) + EncString(Ascii("en")) else []
  }

  function HandleBody(id: u32, h: int): bytes
    requires 0 <= h < 0x100 - 48
  {
    [FXP_HANDLE] + Enc32(id) + EncHandle(h)
  }

  function DataBody(id: u32, data: text): bytes {
    [FXP_DATA] + Enc32(id) + EncString(data)
  }

  function EncEntry(e: Entry, v: nat, dbs: Databases): bytes {
    EncString(e.name) + (if v <= 3 then EncString(e.longName) else []) + EncAttributes(e.attrs, v, DbOwner(dbs, e.attrs))
  }

  function EncEntries(es: seq<Entry>, v: nat, dbs: Databases): bytes {
    if es == [] then [] else EncEntries(es[..|es| - 1], v, dbs) + EncEntry(es[|es| - 1], v, dbs)
  }

  function NameBody(id: u32, es: seq<Entry>, v: nat, dbs: Databases): bytes
    requires |es| < 0x1_0000_0000
  {
    [FXP_NAME] + Enc32(id) + Enc32(|es|) + EncEntries(es, v, dbs)
  }

  function AttrsBody(id: u32, a: Attrs, v: nat, dbs: Databases): bytes {
    [FXP_ATTRS] + Enc32(id) + EncAttributes(a, v, DbOwner(dbs, a))
  }

  /** What a version 5 server announces: masks, flags and its extensions. */
  function SupportedBody(): (b: text)
    ensures |b| == 44
  {
    Enc32(0x8FFF_FFFF) + Enc32(0x8000_03FF) + Enc32(0x7F) + Enc32(0x1F8) + Enc32(MAX_READ) + EncString(Ascii("hardlink@openssh.com"))
  }

  function VersionBody(v: u32): (b: text)
    ensures |b| < 200
  {
    [FXP_VERSION] + Enc32(v)
    + (if v >= 4 then EncString(Ascii("newline")) + EncString(Ascii("\n")) else [])
    + (if v >= 5 then EncString(Ascii("supported")) + EncString(SupportedBody())
       else EncString(Ascii("hardlink@openssh.com")) + EncString(Ascii("1")))
  }

  /** A reply whose bytes fit behind a 32-bit length. */
  ghost predicate Sendable(r: Reply, v: u32, dbs: Databases) {
    && (r.HandleReply? ==> 0 <= r.h < 0x100 - 48)
    && (r.DataReply? ==> |r.data| < 0x1_0000_0000)
    && (r.NameReply? ==> |r.entries| < 0x1_0000_0000)
    && |Payload(r, v, dbs)| < 0x1_0000_0000
  }

  ghost function Payload(r: Reply, v: u32, dbs: Databases): bytes
    requires r.HandleReply? ==> 0 <= r.h < 0x100 - 48
    requires r.DataReply? ==> |r.data| < 0x1_0000_0000
    requires r.NameReply? ==> |r.entries| < 0x1_0000_0000
  {
    match r
    case VersionReply => VersionBody(v)
    case StatusReply(id, code) => StatusBody(id, code, v)
    case HandleReply(id, h) => HandleBody(id, h)
    case DataReply(id, data) => DataBody(id, data)
    case NameReply(id, es) => NameBody(id, es, v, dbs)
    case AttrsReply(id, a) => AttrsBody(id, a, v, dbs)
  }

  // ----- packets -----

  function FrameAll(ps: seq<text>): bytes {
    if ps == [] then [] else FrameAll(ps[..|ps| - 1]) + EncString(ps[|ps| - 1])
  }

  /** What a client makes of the bytes it has received: the complete packets, in order. */
  function Packets(s: bytes): seq<text>
    decreases |s|
  {
    var (p, k) := TakeString(s);
    if |s| < 4 || p.None? then [] else [p.value] + Packets(s[k..])
  }

  lemma {:induction false} FrameAllCons(p: text, ps: seq<text>)
    ensures FrameAll([p] + ps) == EncString(p) + FrameAll(ps)
    decreases |ps|
  {
    hide EncString;
    var s := [p] + ps;
    if ps == [] {
      assert s[..0] == [];
    } else {
      var n := |ps| - 1;
      assert s[..|s| - 1] == [p] + ps[..n];
      FrameAllCons(p, ps[..n]);
    }
  }

  /** Nothing is read from a cut packet. */
  lemma CutPacket(p: text, n: nat)
    requires n < |EncString(p)|
    ensures Packets(EncString(p)[..n]) == []
  {
    hide Enc32, Dec32;
    var s := EncString(p)[..n];
    if n >= 4 {
      assert s == Enc32(|p|) + p[..n - 4];
      Dec32OfEnc(|p|, p[..n - 4]);
    }
  }

  /**
    However many bytes of the output a client has received, it sees the packets in order,
    each whole: a prefix of those that were written, and all of them once all bytes are there.
   */
  lemma {:induction false} ClientSeesPackets(ps: seq<text>, n: nat)
    requires n <= |FrameAll(ps)|
    ensures Packets(FrameAll(ps)[..n]) <= ps
    ensures n == |FrameAll(ps)| ==> Packets(FrameAll(ps)[..n]) == ps
    decreases |ps|
  {
    hide EncString, FrameAll;
    if ps == [] {
      NoPackets(n);
    } else {
      var p, qs := ps[0], ps[1..];
      assert ps == [p] + qs;
      FrameAllCons(p, qs);
      var e, s := EncString(p), FrameAll(ps)[..n];
      if n < |e| {
        assert s == e[..n];
        CutPacket(p, n);
      } else {
        var t := FrameAll(qs)[..n - |e|];
        assert s == e + t;
        StringRoundTrip(p, t);
        assert s[|e|..] == t;
        ClientSeesPackets(qs, n - |e|);
      }
    }
  }

  lemma NoPackets(n: nat)
    requires n <= |FrameAll([])|
    ensures FrameAll([])[..n] == [] && Packets([]) == []
  {
  }

  // ----- sending -----

  /** The size, the type and the id of a packet; the caller has made room for them. */
  method PutHeader(bOut: Buffer, dataSize: u32, kind: byte, id: u32)
    requires bOut.Valid() && bOut.length + 9 <= bOut.size
    modifies bOut, bOut.data
    ensures bOut.Appended(Enc32(dataSize) + [kind] + Enc32(id)) && bOut.InPlace(9)
  {
    hide Enc32;
    bOut.BufferPutInt32(dataSize);
    bOut.BufferPutInt8FAST(kind);
    bOut.BufferPutInt32(id);
  }

  method SendStatus(bOut: Buffer, id: u32, status: u32, v: u32)
    requires bOut.Valid()
    modifies bOut, bOut.data
    ensures |StatusBody(id, status, v)| < 0x1_0000_0000 && bOut.Appended(EncString(StatusBody(id, status, v)))
  {
    hide Enc32, StatusMessage;
    var dataSize := 1 + 4 + 4;
    var msg: Option<text> := None;
    if v >= 3 {
      msg := Some(StatusMessage(status));
      dataSize := dataSize + 4 + |msg.value| + 4 + 2;
    }
    bOut.BufferEnsureFreeCapacity(4 + dataSize);
    PutHeader(bOut, dataSize, FXP_STATUS, id);
    PutStatusText(bOut, status, msg);
  }

  method PutStatusText(bOut: Buffer, status: u32, msg: Option<text>)
    requires bOut.Valid()
    modifies bOut, bOut.data
    ensures bOut.Appended(Enc32(status) + if msg.Some? then EncString(msg.value) + EncString(Ascii("en")) else [])
  {
    hide Enc32, EncString, Ascii;
    bOut.BufferPutInt32(status);
    if msg.Some? {
      bOut.BufferPutData(msg.value);
      bOut.BufferPutData(Ascii("en"));
    }
  }

  method SendHandle(bOut: Buffer, id: u32, h: int)
    requires bOut.Valid() && 0 <= h < 0x100 - 48
    modifies bOut, bOut.data
    ensures bOut.Appended(EncString(HandleBody(id, h)))
  {
    hide Enc32;
    var dataSize := 1 + 4 + HANDLE_SIZE;
    bOut.BufferEnsureFreeCapacity(4 + dataSize);
    PutHeader(bOut, dataSize, FXP_HANDLE, id);
    bOut.BufferPutHandle(h);
  }

  method SendData(bOut: Buffer, id: u32, data: bytes)
    requires bOut.Valid() && |data| + 9 < 0x1_0000_0000
    modifies bOut, bOut.data
    ensures bOut.Appended(EncString(DataBody(id, data)))
  {
    hide Enc32;
    var dataSize := 1 + 4 + 4 + |data|;
    bOut.BufferEnsureFreeCapacity(4 + dataSize);
    PutHeader(bOut, dataSize, FXP_DATA, id);
    bOut.BufferPutData(data);
  }

  // ----- a data packet around a system read -----

  /** The placeholder packet of DoRead, and room for len bytes behind it. */
  method ReserveData(bOut: Buffer, id: u32, len: nat)
    requires bOut.Valid()
    modifies bOut, bOut.data
    ensures bOut.Appended(Enc32(0) + [FXP_DATA] + Enc32(id) + Enc32(0))
    ensures bOut.length + len <= bOut.size
  {
    hide Enc32;
    var dataSize := 1 + 4 + 4 + len;
    bOut.BufferEnsureFreeCapacity(4 + dataSize);
    PutHeader(bOut, 0, FXP_DATA, id);
    bOut.BufferPutInt32(0);
  }

  /** Writes both sizes into the placeholders and takes ret bytes of data in. */
  method PatchSizes(bOut: Buffer, oldPos: nat, ret: nat)
    requires bOut.Valid() && bOut.read <= oldPos && bOut.length == oldPos + 13
    requires bOut.length + ret <= bOut.size && ret + 9 < 0x1_0000_0000
    modifies bOut, bOut.data
    ensures bOut.Valid() && bOut.data == old(bOut.data)
    ensures bOut.read == old(bOut.read) && bOut.fastClean == old(bOut.fastClean)
    ensures bOut.content == old(bOut.content[..oldPos]) + Enc32(9 + ret) + old(bOut.content[oldPos + 4..oldPos + 9])
                            + Enc32(ret) + old(bOut.data[oldPos + 13..oldPos + 13 + ret])
  {
    hide Enc32;
    var newPos := bOut.length + ret;
    ghost var was, d := bOut.content, bOut.data[..];
    bOut.BufferSetCurrentWritePosition(oldPos);
    assert bOut.content == was[..oldPos];
    bOut.BufferPutInt32(1 + 4 + 4 + ret);
    ghost var c := bOut.content;
    bOut.BufferIncrCurrentWritePosition(5);
    assert bOut.content == c + was[oldPos + 4..oldPos + 9];
    bOut.BufferPutInt32(ret);
    c := bOut.content;
    bOut.BufferSetCurrentWritePosition(newPos);
    assert bOut.content == c + d[oldPos + 13..newPos];
  }

  datatype ReadResult = ReadError(code: u32) | ReadBytes(data: bytes)

  /** What a successful read delivers to the client. */
  function Delivered(data: bytes, isText: bool): (r: bytes)
    ensures |r| <= |data|
  {
    if isText then CrLfToLf(data) else data
  }

  /** read() behind the write position, and the text-mode loop over what it delivered. */
  method ReadAndStrip(bOut: Buffer, data: bytes, isText: bool) returns (ret: nat)
    requires bOut.Valid() && bOut.length + |data| <= bOut.size
    modifies bOut.data
    ensures bOut.Valid()
    ensures ret == |Delivered(data, isText)|
    ensures bOut.data[bOut.length..bOut.length + ret] == Delivered(data, isText)
  {
    hide CrLfToLf;
    bOut.ReadInto(data);
    ret := |data|;
    if isText {
      ghost var c := bOut.data[..bOut.length];
      ret := StripCr(bOut.data, bOut.length, ret);
      assert bOut.data[..bOut.length] == c;
    }
  }

  /** The reserved packet with its sizes patched in is what SendData writes. */
  lemma PatchedIsData(before: bytes, id: u32, final: bytes, content: bytes)
    requires |final| + 9 < 0x1_0000_0000
    requires content == before + (Enc32(0) + [FXP_DATA] + Enc32(id) + Enc32(0))
    ensures content[..|before|] + Enc32(9 + |final|) + content[|before| + 4..|before| + 9] + Enc32(|final|) + final
            == before + EncString(DataBody(id, final))
  {
    hide Enc32;
    assert content[..|before|] == before;
    assert content[|before| + 4..|before| + 9] == [FXP_DATA] + Enc32(id);
    assert EncString(DataBody(id, final)) == Enc32(9 + |final|) + ([FXP_DATA] + Enc32(id)) + Enc32(|final|) + final;
  }

  /**
    DoRead's packet around a read of at most len bytes: for a positive result the bytes
    SendData would append, at the end of the file or on an error nothing at all.
   */
  method ReadReply(bOut: Buffer, id: u32, len: nat, got: ReadResult, isText: bool) returns (ret: int)
    requires bOut.Valid() && len <= MAX_READ
    requires got.ReadBytes? ==> |got.data| <= len
    requires isText ==> got.ReadBytes?
    modifies bOut, bOut.data
    ensures ret == if got.ReadBytes? then |Delivered(got.data, isText)| else -1
    ensures bOut.Appended(if ret > 0 then EncString(DataBody(id, Delivered(got.data, isText))) else [])
  {
    hide Enc32, CrLfToLf, EncString, DataBody, Delivered;
    ghost var before := bOut.content;
    var oldPos := bOut.length;
    ReserveData(bOut, id, len);
    ret := -1;
    if got.ReadBytes? {
      ret := ReadAndStrip(bOut, got.data, isText);
    }
    if ret <= 0 {
      Rollback(bOut, oldPos, before);
    } else {
      PatchedIsData(before, id, Delivered(got.data, isText), bOut.content);
      PatchSizes(bOut, oldPos, ret);
    }
  }

  /** bOut->length = oldPos. */
  method Rollback(bOut: Buffer, oldPos: nat, ghost before: bytes)
    requires bOut.Valid() && bOut.read <= oldPos <= bOut.length
    requires before <= bOut.content && |before| == oldPos
    modifies bOut`length, bOut`content
    ensures bOut.Valid() && bOut.content == before
  {
    bOut.BufferSetCurrentWritePosition(oldPos);
  }

  // ----- replies built in a buffer of their own -----

  /** BufferPutPacket. */
  method PutPacket(bOut: Buffer, b: Buffer)
    requires bOut.Valid() && b.Valid() && bOut != b && bOut.data != b.data && |b.content| < 0x1_0000_0000
    modifies bOut, bOut.data
    ensures bOut.Appended(EncString(b.content))
  {
    hide EncString;
    bOut.BufferPutData(b.data[..b.length]);
  }

  lemma NamesAgree(t: seq<Info>, db: Database, id: u32)
    requires Faithful(t, db)
    ensures NameFor(t, db, id) == DbName(db, id)
  {
    hide Decimal;
    FindIdIsEntry(t, id);
  }

  /** The caches of the session: what they hold is what the databases say. */
  ghost predicate Caches(users: InfoTable, groups: InfoTable, dbs: Databases)
    reads users, users.tb, groups, groups.tb
  {
    && TwoTables(users, groups)
    && users.db == dbs.users && groups.db == dbs.groups
    && Faithful(users.entries, dbs.users) && Faithful(groups.entries, dbs.groups)
  }

  ghost predicate Sound(dbs: Databases) {
    OneToOne(dbs.users) && OneToOne(dbs.groups)
  }

  /** EncodeAttributes with caches that answer as the databases do. */
  method PutAttributes(b: Buffer, a: Attrs, v: u32, users: InfoTable, groups: InfoTable, ghost dbs: Databases)
    requires b.Valid() && Caches(users, groups, dbs) && Sound(dbs)
    modifies b, b.data, users, users.tb, groups, groups.tb
    ensures TablesKept(users, groups) && Caches(users, groups, dbs)
    ensures b.Appended(EncAttributes(a, v, DbOwner(dbs, a)))
  {
    hide EncAttributes, NameFor, DbName, HasBit, Faithful, Ask, OneToOne;
    NamesAgree(users.entries, dbs.users, a.uid);
    NamesAgree(groups.entries, dbs.groups, a.gid);
    AskStaysFaithful(users.entries, dbs.users, ById(a.uid));
    AskStaysFaithful(groups.entries, dbs.groups, ById(a.gid));
    EncodeAttributes(b, a, v, users, groups);
  }

  lemma AskStaysFaithful(t: seq<Info>, db: Database, q: Query)
    requires OneToOne(db) && Faithful(t, db)
    ensures Faithful(Ask(t, db, q), db)
  {
  }

  method SendAttributes(bOut: Buffer, id: u32, a: Attrs, v: u32, users: InfoTable, groups: InfoTable, ghost dbs: Databases)
    requires bOut.Valid() && Caches(users, groups, dbs) && Sound(dbs)
    requires |AttrsBody(id, a, v, dbs)| < 0x1_0000_0000
    modifies bOut, bOut.data, users, users.tb, groups, groups.tb
    ensures TablesKept(users, groups) && Caches(users, groups, dbs)
    ensures bOut.Appended(EncString(AttrsBody(id, a, v, dbs)))
  {
    hide Enc32, EncString, EncAttributes, DbName, Faithful, OneToOne;
    var b := new Buffer();
    b.BufferPutInt8FAST(FXP_ATTRS);
    b.BufferPutInt32(id);
    PutAttributes(b, a, v, users, groups, dbs);
    assert b.content == AttrsBody(id, a, v, dbs);
    PutPacket(bOut, b);
  }

  method PutEntry(b: Buffer, e: Entry, v: u32, users: InfoTable, groups: InfoTable, ghost dbs: Databases)
    requires b.Valid() && Caches(users, groups, dbs) && Sound(dbs)
    modifies b, b.data, users, users.tb, groups, groups.tb
    ensures TablesKept(users, groups) && Caches(users, groups, dbs)
    ensures b.Appended(EncEntry(e, v, dbs))
  {
    hide Enc32, EncString, EncAttributes, DbName, Faithful, OneToOne;
    b.BufferPutString(e.name);
    if v <= 3 {
      b.BufferPutString(e.longName);
    }
    PutAttributes(b, e.attrs, v, users, groups, dbs);
  }

  /** The loop of SendStats. */
  method PutEntries(b: Buffer, es: seq<Entry>, v: u32, users: InfoTable, groups: InfoTable, ghost dbs: Databases)
    requires b.Valid() && Caches(users, groups, dbs) && Sound(dbs)
    modifies b, b.data, users, users.tb, groups, groups.tb
    ensures TablesKept(users, groups) && Caches(users, groups, dbs)
    ensures b.Appended(EncEntries(es, v, dbs))
  {
    hide EncEntry, Faithful, OneToOne;
    for i := 0 to |es|
      invariant TablesKept(users, groups) && Caches(users, groups, dbs)
      invariant b.Appended(EncEntries(es[..i], v, dbs))
    {
      assert es[..i + 1][..i] == es[..i];
      PutEntry(b, es[i], v, users, groups, dbs);
    }
    assert es[..|es|] == es;
  }

  method SendStats(bOut: Buffer, id: u32, es: seq<Entry>, v: u32, users: InfoTable, groups: InfoTable, ghost dbs: Databases)
    requires bOut.Valid() && Caches(users, groups, dbs) && Sound(dbs)
    requires |es| < 0x1_0000_0000 && |NameBody(id, es, v, dbs)| < 0x1_0000_0000
    modifies bOut, bOut.data, users, users.tb, groups, groups.tb
    ensures TablesKept(users, groups) && Caches(users, groups, dbs)
    ensures bOut.Appended(EncString(NameBody(id, es, v, dbs)))
  {
    hide Enc32, EncString, EncEntries, Faithful, OneToOne;
    var b := new Buffer();
    b.BufferPutInt8FAST(FXP_NAME);
    b.BufferPutInt32(id);
    b.BufferPutInt32(|es|);
    PutEntries(b, es, v, users, groups, dbs);
    assert b.content == NameBody(id, es, v, dbs);
    PutPacket(bOut, b);
  }

  // ----- the version packet -----

  method PutSupported(b: Buffer)
    requires b.Valid()
    modifies b, b.data
    ensures b.Appended(EncString(Ascii("supported")) + EncString(SupportedBody()))
  {
    hide Enc32, EncString, Ascii, SupportedBody;
    b.BufferPutString(Ascii("supported"));
    var opt := SupportedOptions();
    PutPacket(b, opt);
  }

  method PutMasks(opt: Buffer)
    requires opt.Valid()
    modifies opt, opt.data
    ensures opt.Appended(Enc32(0x8FFF_FFFF) + Enc32(0x8000_03FF) + Enc32(0x7F))
  {
    hide Enc32;
    opt.BufferPutInt32(0x8FFF_FFFF);
    opt.BufferPutInt32(0x8000_03FF);
    opt.BufferPutInt32(0x7F);
  }

  method SupportedOptions() returns (opt: Buffer)
    ensures fresh(opt) && fresh(opt.data) && opt.Valid() && opt.content == SupportedBody()
  {
    hide Enc32, EncString, Ascii;
    opt := new Buffer();
    PutMasks(opt);
    opt.BufferPutInt32(0x1F8);
    opt.BufferPutInt32(MAX_READ);
    opt.BufferPutString(Ascii("hardlink@openssh.com"));
    assert opt.content == SupportedBody();
  }

  /** What follows the version number. */
  method PutVersionTail(b: Buffer, v: u32)
    requires b.Valid()
    modifies b, b.data
    ensures b.Appended((if v >= 4 then EncString(Ascii("newline")) + EncString(Ascii("\n")) else [])
                       + if v >= 5 then EncString(Ascii("supported")) + EncString(SupportedBody())
                         else EncString(Ascii("hardlink@openssh.com")) + EncString(Ascii("1")))
  {
    hide Enc32, EncString, Ascii, SupportedBody;
    if v >= 4 {
      b.BufferPutString(Ascii("newline"));
      b.BufferPutString(Ascii("\n"));
    }
    if v >= 5 {
      PutSupported(b);
    } else {
      b.BufferPutString(Ascii("hardlink@openssh.com"));
      b.BufferPutString(Ascii("1"));
    }
  }

  /** The packet DoInit answers with, optional extensions not compiled in. */
  method SendVersion(bOut: Buffer, v: u32)
    requires bOut.Valid()
    modifies bOut, bOut.data
    ensures bOut.Appended(EncString(VersionBody(v)))
  {
    hide Enc32, EncString, Ascii, SupportedBody;
    var b := new Buffer();
    b.BufferPutInt8FAST(FXP_VERSION);
    b.BufferPutInt32(v);
    PutVersionTail(b, v);
    assert b.content == VersionBody(v);
    PutPacket(bOut, b);
  }
}
