/** Encode.c: file attributes on the wire. The layout depends on the protocol version and the flags. */
module Attributes {
  import opened Wrappers
  import opened Bytes
  import opened Buffers
  import opened UserTable

  const ATTR_SIZE: u32 := 0x1
  const ATTR_UIDGID: u32 := 0x2
  const ATTR_PERMISSIONS: u32 := 0x4
  const ATTR_ACMODTIME: u32 := 0x8
  const ATTR_ACCESSTIME: u32 := 0x8
  const ATTR_CREATETIME: u32 := 0x10
  const ATTR_MODIFYTIME: u32 := 0x20
  const ATTR_ACL: u32 := 0x40
  const ATTR_OWNERGROUP: u32 := 0x80
  const ATTR_SUBSECOND_TIMES: u32 := 0x100
  const ATTR_BITS: u32 := 0x200
  const ATTR_EXTENDED: u32 := 0x8000_0000

  /** HAS_BIT for a mask of one bit. */
  predicate HasBit(flags: u32, mask: u32)
    requires mask > 0
  {
    flags / mask % 2 == 1
  }

  datatype Attrs = Attrs(flags: u32, kind: byte, size: u64, uid: u32, gid: u32, perm: u32,
                         atime: u32, ctime: u32, mtime: u32, attrib: u32)

  // ----- optional fields -----

  function Put8(c: bool, n: byte): bytes {
    if c then [n] else []
  }

  function Put32(c: bool, n: u32): bytes {
    if c then Enc32(n) else []
  }

  function Put64(c: bool, n: u64): bytes {
    if c then Enc64(n) else []
  }

  function PutText(c: bool, s: text): bytes {
    if c then EncString(s) else []
  }

  function Next8(c: bool, u: bytes): (byte, bytes) {
    if c then (TakeInt8(u).0, u[TakeInt8(u).1..]) else (0, u)
  }

  function Next32(c: bool, u: bytes): (u32, bytes) {
    if c then (TakeInt32(u).0, u[TakeInt32(u).1..]) else (0, u)
  }

  function Next64(c: bool, u: bytes): (u64, bytes) {
    if c then (TakeInt64(u).0, u[TakeInt64(u).1..]) else (0, u)
  }

  function NextText(c: bool, u: bytes): (Option<text>, bytes) {
    if c then (TakeString(u).0, u[TakeString(u).1..]) else (None, u)
  }

  lemma Next8OfPut(c: bool, n: byte, rest: bytes)
    ensures Next8(c, Put8(c, n) + rest) == (if c then n else 0, rest)
  {
    assert (Put8(c, n) + rest)[|Put8(c, n)|..] == rest;
  }

  lemma Next32OfPut(c: bool, n: u32, rest: bytes)
    ensures Next32(c, Put32(c, n) + rest) == (if c then n else 0, rest)
  {
    hide Enc32, Dec32;
    Dec32OfEnc(n, rest);
    assert (Put32(c, n) + rest)[|Put32(c, n)|..] == rest;
  }

  lemma Next64OfPut(c: bool, n: u64, rest: bytes)
    ensures Next64(c, Put64(c, n) + rest) == (if c then n else 0, rest)
  {
    hide Enc64, Dec64;
    Dec64OfEnc(n, rest);
    assert (Put64(c, n) + rest)[|Put64(c, n)|..] == rest;
  }

  lemma NextTextOfPut(c: bool, s: text, rest: bytes)
    ensures NextText(c, PutText(c, s) + rest) == (if c then Some(s) else None, rest)
  {
    hide EncString, TakeString;
    StringRoundTrip(s, rest);
    assert (PutText(c, s) + rest)[|PutText(c, s)|..] == rest;
  }

  // ----- the layout -----

  /** The owner's and the group's name, as they are put on the wire. */
  datatype Owner = Owner(user: text, group: text)

  function EncHead(a: Attrs, v: nat): bytes {
    Enc32(a.flags) + (Put8(v >= 4, a.kind) + Put64(HasBit(a.flags, ATTR_SIZE), a.size))
  }

  function EncOwner(a: Attrs, v: nat, o: Owner): bytes {
    var ids, names := v <= 3 && HasBit(a.flags, ATTR_UIDGID), HasBit(a.flags, ATTR_OWNERGROUP);
    Put32(ids, a.uid) + (Put32(ids, a.gid) + (PutText(names, o.user) + PutText(names, o.group)))
  }

  function EncTimes(a: Attrs, v: nat): bytes {
    if v <= 3 then
      var c := HasBit(a.flags, ATTR_ACMODTIME);
      Put32(c, a.atime) + Put32(c, a.mtime)
    else
      var s := HasBit(a.flags, ATTR_SUBSECOND_TIMES);
      EncTime(HasBit(a.flags, ATTR_ACCESSTIME), a.atime, s) + (
        EncTime(HasBit(a.flags, ATTR_CREATETIME), a.ctime, s) + EncTime(HasBit(a.flags, ATTR_MODIFYTIME), a.mtime, s))
  }

  /** A 64-bit time and its nanoseconds, always zero. */
  function EncTime(c: bool, n: u32, subsecond: bool): bytes {
    Put64(c, n) + Put32(subsecond, 0)
  }

  /** The fields that follow the ACL; the decoder does not know the first. */
  function EncTail(a: Attrs, v: nat): bytes {
    Put32(HasBit(a.flags, ATTR_BITS), a.attrib) + Put32(v >= 5 && HasBit(a.flags, ATTR_EXTENDED), 0)
  }

  /** EncodeAttributes without a file name: an ACL is written as an empty string. */
  function EncAttributes(a: Attrs, v: nat, o: Owner): bytes {
    EncHead(a, v) + (EncOwner(a, v, o) + (Put32(HasBit(a.flags, ATTR_PERMISSIONS), a.perm) + (
      EncTimes(a, v) + (PutText(HasBit(a.flags, ATTR_ACL), []) + EncTail(a, v)))))
  }

  // ----- reading it back -----

  function DecHead(u: bytes, v: nat): (r: (u32, byte, u64, bytes)) {
    var (flags, u1) := Next32(true, u);
    var (kind, u2) := Next8(v >= 4, u1);
    var (size, u3) := Next64(HasBit(flags, ATTR_SIZE), u2);
    (flags, kind, size, u3)
  }

  /** The ids of version 3, and the names of later versions. */
  function DecOwner(flags: u32, u: bytes, v: nat): (u32, u32, Option<text>, Option<text>, bytes) {
    var ids, names := v <= 3 && HasBit(flags, ATTR_UIDGID), v >= 4 && HasBit(flags, ATTR_OWNERGROUP);
    var (uid, u1) := Next32(ids, u);
    var (gid, u2) := Next32(ids, u1);
    var (user, u3) := NextText(names, u2);
    var (group, u4) := NextText(names, u3);
    (uid, gid, user, group, u4)
  }

  /** atime, ctime and mtime; from version 4 on 64 bits are read and 32 kept. */
  function DecTimes(flags: u32, u: bytes, v: nat): (u32, u32, u32, bytes) {
    if v <= 3 then
      var c := HasBit(flags, ATTR_ACMODTIME);
      var (atime, u1) := Next32(c, u);
      var (mtime, u2) := Next32(c, u1);
      (atime, 0, mtime, u2)
    else
      var s := HasBit(flags, ATTR_SUBSECOND_TIMES);
      var (atime, u1) := Next64(HasBit(flags, ATTR_ACCESSTIME), u);
      var u2 := Next32(s, u1).1;
      var (ctime, u3) := Next64(HasBit(flags, ATTR_CREATETIME), u2);
      var u4 := Next32(s, u3).1;
      var (mtime, u5) := Next64(HasBit(flags, ATTR_MODIFYTIME), u4);
      var u6 := Next32(s, u5).1;
      (atime % 0x1_0000_0000, ctime % 0x1_0000_0000, mtime % 0x1_0000_0000, u6)
  }

  /** n pairs of strings, read and dropped. */
  function SkipPairs(n: nat, u: bytes): bytes {
    if n == 0 then u else SkipPairs(n - 1, NextText(true, NextText(true, u).1).1)
  }

  function DecExtended(flags: u32, u: bytes): bytes {
    var c := HasBit(flags, ATTR_EXTENDED);
    var (count, u1) := Next32(c, u);
    SkipPairs(count, u1)
  }

  /** What is read before names are looked up, and the bytes left over. */
  datatype Decoded = Decoded(a: Attrs, user: Option<text>, group: Option<text>, rest: bytes)

  function DecAttributes(u: bytes, v: nat): Decoded {
    var (flags, kind, size, u1) := DecHead(u, v);
    var (uid, gid, user, group, u2) := DecOwner(flags, u1, v);
    var (perm, u3) := Next32(HasBit(flags, ATTR_PERMISSIONS), u2);
    var (atime, ctime, mtime, u4) := DecTimes(flags, u3, v);
    var u5 := NextText(HasBit(flags, ATTR_ACL), u4).1;
    Decoded(Attrs(flags, kind, size, uid, gid, perm, atime, ctime, mtime, 0), user, group, DecExtended(flags, u5))
  }

  /** The attributes GetAttributes returns: unknown names leave a zero. */
  function Resolve(d: Decoded, users: seq<Info>, udb: Database, groups: seq<Info>, gdb: Database): Attrs {
    var a := d.a;
    var b := if d.user.None? then a else
               var e := AnswerName(users, udb, d.user.value);
               if e.Some? then a.(uid := e.value.id) else a;
    if d.group.None? then b else
      var e := AnswerName(groups, gdb, d.group.value);
      if e.Some? then b.(gid := e.value.id) else b
  }

  // ----- round trip -----

  lemma HeadRoundTrip(a: Attrs, v: nat, rest: bytes)
    ensures DecHead(EncHead(a, v) + rest, v) ==
            (a.flags, if v >= 4 then a.kind else 0, if HasBit(a.flags, ATTR_SIZE) then a.size else 0, rest)
  {
    hide Put8, Put64, Next32, Next8, Next64, HasBit;
    var p, q := Put8(v >= 4, a.kind), Put64(HasBit(a.flags, ATTR_SIZE), a.size);
    assert EncHead(a, v) + rest == Put32(true, a.flags) + (p + (q + rest));
    Next32OfPut(true, a.flags, p + (q + rest));
    Next8OfPut(v >= 4, a.kind, q + rest);
    Next64OfPut(HasBit(a.flags, ATTR_SIZE), a.size, rest);
  }

  lemma OwnerRoundTrip(a: Attrs, v: nat, o: Owner, rest: bytes)
    requires HasBit(a.flags, ATTR_OWNERGROUP) ==> v >= 4
    ensures var ids, names := v <= 3 && HasBit(a.flags, ATTR_UIDGID), HasBit(a.flags, ATTR_OWNERGROUP);
            DecOwner(a.flags, EncOwner(a, v, o) + rest, v) ==
            (if ids then a.uid else 0, if ids then a.gid else 0,
             if names then Some(o.user) else None, if names then Some(o.group) else None, rest)
  {
    hide Put32, PutText, Next32, NextText, HasBit;
    var ids, names := v <= 3 && HasBit(a.flags, ATTR_UIDGID), HasBit(a.flags, ATTR_OWNERGROUP);
    var p, q, r, s := Put32(ids, a.uid), Put32(ids, a.gid), PutText(names, o.user), PutText(names, o.group);
    assert EncOwner(a, v, o) + rest == p + (q + (r + (s + rest)));
    Next32OfPut(ids, a.uid, q + (r + (s + rest)));
    Next32OfPut(ids, a.gid, r + (s + rest));
    NextTextOfPut(names, o.user, s + rest);
    NextTextOfPut(names, o.group, rest);
  }

  lemma TimesRoundTrip3(a: Attrs, v: nat, rest: bytes)
    requires v <= 3
    ensures var c := HasBit(a.flags, ATTR_ACMODTIME);
            DecTimes(a.flags, EncTimes(a, v) + rest, v) == (if c then a.atime else 0, 0, if c then a.mtime else 0, rest)
  {
    hide Put32, Next32, HasBit;
    var c := HasBit(a.flags, ATTR_ACMODTIME);
    assert EncTimes(a, v) + rest == Put32(c, a.atime) + (Put32(c, a.mtime) + rest);
    Next32OfPut(c, a.atime, Put32(c, a.mtime) + rest);
    Next32OfPut(c, a.mtime, rest);
  }

  lemma TimesRoundTrip4(a: Attrs, v: nat, rest: bytes)
    requires v >= 4
    ensures DecTimes(a.flags, EncTimes(a, v) + rest, v) ==
            (if HasBit(a.flags, ATTR_ACCESSTIME) then a.atime else 0,
             if HasBit(a.flags, ATTR_CREATETIME) then a.ctime else 0,
             if HasBit(a.flags, ATTR_MODIFYTIME) then a.mtime else 0, rest)
  {
    hide Put32, Put64, Next32, Next64, HasBit;
    var s, x, y, z := HasBit(a.flags, ATTR_SUBSECOND_TIMES), HasBit(a.flags, ATTR_ACCESSTIME),
                      HasBit(a.flags, ATTR_CREATETIME), HasBit(a.flags, ATTR_MODIFYTIME);
    var e := Put32(s, 0) + rest;
    var d := Put64(z, a.mtime) + e;
    var c := Put32(s, 0) + d;
    var b := Put64(y, a.ctime) + c;
    var t := Put32(s, 0) + b;
    assert EncTimes(a, v) + rest == Put64(x, a.atime) + t;
    Next64OfPut(x, a.atime, t);
    Next32OfPut(s, 0, b);
    Next64OfPut(y, a.ctime, c);
    Next32OfPut(s, 0, d);
    Next64OfPut(z, a.mtime, e);
    Next32OfPut(s, 0, rest);
  }

  /** Exactly the flagged fields of a; the attribute bits and the names' ids are not among them. */
  function Flagged(a: Attrs, v: nat): Attrs {
    var f := a.flags;
    var ids := v <= 3 && HasBit(f, ATTR_UIDGID);
    Attrs(f,
          if v >= 4 then a.kind else 0,
          if HasBit(f, ATTR_SIZE) then a.size else 0,
          if ids then a.uid else 0,
          if ids then a.gid else 0,
          if HasBit(f, ATTR_PERMISSIONS) then a.perm else 0,
          if HasBit(f, ATTR_ACCESSTIME) then a.atime else 0,
          if v >= 4 && HasBit(f, ATTR_CREATETIME) then a.ctime else 0,
          if HasBit(f, if v <= 3 then ATTR_ACMODTIME else ATTR_MODIFYTIME) then a.mtime else 0,
          0)
  }

  /**
    Decoding what was encoded yields exactly the flagged fields, and leaves what the
    extended-attribute reader makes of the tail.
   */
  lemma AttributesRoundTrip(a: Attrs, v: nat, o: Owner, rest: bytes)
    requires HasBit(a.flags, ATTR_OWNERGROUP) ==> v >= 4
    ensures var names := HasBit(a.flags, ATTR_OWNERGROUP);
            DecAttributes(EncAttributes(a, v, o) + rest, v) ==
            Decoded(Flagged(a, v), if names then Some(o.user) else None, if names then Some(o.group) else None,
                    DecExtended(a.flags, EncTail(a, v) + rest))
  {
    hide EncHead, EncOwner, EncTimes, EncTail, DecHead, DecOwner, DecTimes, DecExtended, Put32, PutText, Next32, NextText, HasBit;
    var f := a.flags;
    var r5 := EncTail(a, v) + rest;
    var r4 := PutText(HasBit(f, ATTR_ACL), []) + r5;
    var r3 := EncTimes(a, v) + r4;
    var r2 := Put32(HasBit(f, ATTR_PERMISSIONS), a.perm) + r3;
    var r1 := EncOwner(a, v, o) + r2;
    assert EncAttributes(a, v, o) + rest == EncHead(a, v) + r1;
    HeadRoundTrip(a, v, r1);
    OwnerRoundTrip(a, v, o, r2);
    Next32OfPut(HasBit(f, ATTR_PERMISSIONS), a.perm, r3);
    if v <= 3 {
      TimesRoundTrip3(a, v, r4);
    } else {
      TimesRoundTrip4(a, v, r4);
    }
    NextTextOfPut(HasBit(f, ATTR_ACL), [], r5);
  }

  /** The flags (and, in one corner, the bits) for which both sides agree on where attributes end. */
  predicate SameEnd(a: Attrs, v: nat) {
    var bits, ext := HasBit(a.flags, ATTR_BITS), HasBit(a.flags, ATTR_EXTENDED);
    || (!bits && !(ext && v < 5))
    || (bits && ext && v < 5 && a.attrib == 0)
  }

  ghost predicate LeavesRest(a: Attrs, v: nat, o: Owner) {
    forall rest: bytes :: DecAttributes(EncAttributes(a, v, o) + rest, v).rest == rest
  }

  lemma TailLeaves(a: Attrs, v: nat, rest: bytes)
    requires SameEnd(a, v)
    ensures DecExtended(a.flags, EncTail(a, v) + rest) == rest
  {
    hide Put32, Next32, HasBit;
    var bits, ext := HasBit(a.flags, ATTR_BITS), HasBit(a.flags, ATTR_EXTENDED);
    Next32OfPut(ext, 0, rest);
    Next32OfPut(bits, a.attrib, rest);
    Next32OfPut(false, 0, rest);
    assert Put32(false, 0) == [] && Put32(false, a.attrib) == [] by { EmptyPut(); }
    assert EncTail(a, v) + rest == (if bits then Put32(bits, a.attrib) else Put32(ext, 0)) + rest;
  }

  lemma EmptyPut()
    ensures forall n: u32 :: Put32(false, n) == []
  {
  }

  /** For the other flags, some continuation is not left as it was. */
  lemma TailMiscounts(a: Attrs, v: nat) returns (rest: bytes)
    requires !SameEnd(a, v)
    ensures DecExtended(a.flags, EncTail(a, v) + rest) != rest
  {
    hide HasBit;
    var bits, ext := HasBit(a.flags, ATTR_BITS), HasBit(a.flags, ATTR_EXTENDED);
    if !ext {
      rest := [];
      assert EncTail(a, v) == Enc32(a.attrib);
    } else if !bits {
      rest := [0, 0, 0, 0];
      Next32OfPut(true, 0, []);
      assert EncTail(a, v) + rest == Enc32(0) + [];
    } else if a.attrib == 0 {
      rest := [];
      Next32OfPut(true, 0, Enc32(0));
      assert EncTail(a, v) + rest == Enc32(0) + Enc32(0);
    } else {
      rest := [0, 0, 0, 0];
      var tail := Put32(v >= 5, 0) + rest;
      Next32OfPut(true, a.attrib, tail);
      assert EncTail(a, v) + rest == Enc32(a.attrib) + tail;
      ZerosAreEaten(a.attrib, tail);
    }
  }

  /** Reading at least one pair of strings from at most eight zero bytes leaves none. */
  lemma ZerosAreEaten(n: nat, u: bytes)
    requires n > 0 && (u == [0, 0, 0, 0] || u == [0, 0, 0, 0, 0, 0, 0, 0])
    ensures SkipPairs(n, u) == []
  {
    var w := NextText(true, u).1;
    assert TakeString(u) == (Some(u[4..4]), 4);
    assert NextText(true, w).1 == [] by {
      if |u| == 4 {
        assert TakeString(w).1 == 0;
      } else {
        assert w == [0, 0, 0, 0];
        assert TakeString(w) == (Some(w[4..4]), 4);
      }
    }
    NothingIsEaten(n - 1);
  }

  lemma {:induction false} NothingIsEaten(n: nat)
    ensures SkipPairs(n, []) == []
  {
    if n > 0 {
      assert TakeString([]).1 == 0;
      NothingIsEaten(n - 1);
    }
  }

  lemma NextKeeps(c: bool, u: bytes)
    ensures |Next32(c, u).1| >= |u| - if c then 4 else 0
  {
  }

  lemma TimesKeep(f: u32, u: bytes, v: nat)
    requires v < 4
    ensures |DecTimes(f, u, v).3| >= |u| - if HasBit(f, ATTR_ACMODTIME) then 8 else 0
  {
    hide Next32, HasBit;
    var c := HasBit(f, ATTR_ACMODTIME);
    NextKeeps(c, u);
    NextKeeps(c, Next32(c, u).1);
  }

  /**
    Below version 4 the encoder writes the names and the decoder does not read them: with no string and
    no list behind them that could swallow them, all their bytes are left over.
   */
  lemma NamesAreLeftOver(a: Attrs, v: nat, o: Owner, rest: bytes)
    requires v < 4 && HasBit(a.flags, ATTR_OWNERGROUP) && !HasBit(a.flags, ATTR_ACL) && !HasBit(a.flags, ATTR_EXTENDED)
    ensures |DecAttributes(EncAttributes(a, v, o) + rest, v).rest| >= 8 + |o.user| + |o.group| + |rest|
    ensures !LeavesRest(a, v, o)
  {
    hide HasBit, Put8, Put32, Put64, Next8, Next32, Next64, EncHead, EncTimes, EncTail, DecHead, DecTimes;
    var f := a.flags;
    var ids := HasBit(f, ATTR_UIDGID);
    var head, names := EncHead(a, v), PutText(true, o.user) + PutText(true, o.group);
    var back := Put32(HasBit(f, ATTR_PERMISSIONS), a.perm) + (EncTimes(a, v) + ([] + EncTail(a, v)));
    var p, q, w := Put32(ids, a.uid), Put32(ids, a.gid), names + (back + rest);
    assert EncAttributes(a, v, o) + rest == head + (p + (q + w));
    HeadRoundTrip(a, v, p + (q + w));
    Next32OfPut(ids, a.uid, q + w);
    Next32OfPut(ids, a.gid, w);
    var perm := HasBit(f, ATTR_PERMISSIONS);
    NextKeeps(perm, w);
    TimesKeep(f, Next32(perm, w).1, v);
    PutSizes(a, v);
    NothingExtended(f, DecTimes(f, Next32(perm, w).1, v).3);
    assert DecAttributes(EncAttributes(a, v, o) + rest, v).rest != rest;
  }

  lemma NothingExtended(f: u32, u: bytes)
    requires !HasBit(f, ATTR_EXTENDED)
    ensures DecExtended(f, u) == u
  {
    hide HasBit;
  }

  lemma PutSizes(a: Attrs, v: nat)
    requires v < 4
    ensures |Put32(HasBit(a.flags, ATTR_PERMISSIONS), a.perm)| == if HasBit(a.flags, ATTR_PERMISSIONS) then 4 else 0
    ensures |EncTimes(a, v)| == if HasBit(a.flags, ATTR_ACMODTIME) then 8 else 0
  {
    hide Enc32, HasBit;
  }

  /** The decoder stops where the encoder did, whatever follows, exactly for the flags of SameEnd. */
  lemma ConsumesExactlyIff(a: Attrs, v: nat, o: Owner)
    requires HasBit(a.flags, ATTR_OWNERGROUP) ==> v >= 4
    ensures LeavesRest(a, v, o) <==> SameEnd(a, v)
  {
    hide EncAttributes, DecAttributes, EncTail, DecExtended, HasBit, SameEnd;
    if SameEnd(a, v) {
      forall rest: bytes ensures DecAttributes(EncAttributes(a, v, o) + rest, v).rest == rest {
        AttributesRoundTrip(a, v, o, rest);
        TailLeaves(a, v, rest);
      }
    } else {
      var rest := TailMiscounts(a, v);
      AttributesRoundTrip(a, v, o, rest);
    }
  }

  /**
    The full round trip, names included: with faithful caches of one-to-one databases that
    know the ids, every flagged field comes back, owner and group among them.
   */
  lemma NamesRoundTrip(a: Attrs, v: nat, users: seq<Info>, udb: Database, groups: seq<Info>, gdb: Database, rest: bytes)
    requires Faithful(users, udb) && OneToOne(udb) && a.uid in udb.byId
    requires Faithful(groups, gdb) && OneToOne(gdb) && a.gid in gdb.byId
    requires HasBit(a.flags, ATTR_OWNERGROUP) ==> v >= 4
    ensures var o := Owner(udb.byId[a.uid], gdb.byId[a.gid]);
            var d := DecAttributes(EncAttributes(a, v, o) + rest, v);
            var named := HasBit(a.flags, ATTR_OWNERGROUP);
            Resolve(d, users, udb, groups, gdb) ==
            if named then Flagged(a, v).(uid := a.uid, gid := a.gid) else Flagged(a, v)
  {
    hide EncAttributes, DecAttributes, HasBit, Flagged, EncTail, DecExtended;
    AttributesRoundTrip(a, v, Owner(udb.byId[a.uid], gdb.byId[a.gid]), rest);
    FaithfulAnswers(users, udb, a.uid, udb.byId[a.uid]);
    FaithfulAnswers(groups, gdb, a.gid, gdb.byId[a.gid]);
  }

  // ----- EncodeAttributes -----

  /** "%u". */
  function Decimal(n: u32): (r: text)
    ensures 1 <= |r| <= 1 + n / 10
  {
    if n < 10 then [48 + n] else Decimal(n / 10) + [48 + n % 10]
  }

  /** The number that a string of digits stands for. */
  function ReadDecimal(s: text): nat {
    if s == [] then 0 else 10 * ReadDecimal(s[..|s| - 1]) + (if s[|s| - 1] >= 48 then s[|s| - 1] - 48 else 0)
  }

  lemma {:induction false} DecimalIsRead(n: u32)
    ensures ReadDecimal(Decimal(n)) == n
    ensures forall c <- Decimal(n) :: 48 <= c <= 57
    ensures n > 0 ==> Decimal(n)[0] != 48
    decreases n
  {
    if n < 10 {
      assert [48 + n][..0] == [];
    } else {
      DecimalIsRead(n / 10);
      assert Decimal(n)[..|Decimal(n)| - 1] == Decimal(n / 10);
    }
  }

  /** The cached or looked-up name, or the id in digits. */
  function NameFor(t: seq<Info>, db: Database, id: u32): text {
    var e := AnswerId(t, db, id);
    if e.Some? then e.value.name else Decimal(id)
  }

  function OwnerOf(users: seq<Info>, udb: Database, groups: seq<Info>, gdb: Database, a: Attrs): Owner {
    Owner(NameFor(users, udb, a.uid), NameFor(groups, gdb, a.gid))
  }

  method NameOf(t: InfoTable, id: u32) returns (s: text)
    requires t.Valid()
    modifies t, t.tb
    ensures t.Valid() && (t.tb == old(t.tb) || fresh(t.tb))
    ensures s == NameFor(old(t.entries), t.db, id) && t.entries == Ask(old(t.entries), t.db, ById(id))
  {
    var e := t.GetById(id);
    s := if e.Some? then e.value.name else Decimal(id);
  }

  method PutIf32(b: Buffer, c: bool, n: u32)
    requires b.Valid()
    modifies b, b.data
    ensures b.Appended(Put32(c, n))
  {
    if c {
      b.BufferPutInt32(n);
    }
  }

  method PutIf64(b: Buffer, c: bool, n: u64)
    requires b.Valid()
    modifies b, b.data
    ensures b.Appended(Put64(c, n))
  {
    if c {
      b.BufferPutInt64(n);
    }
  }

  method EncodeHead(b: Buffer, a: Attrs, v: nat)
    requires b.Valid()
    modifies b, b.data
    ensures b.Appended(EncHead(a, v))
  {
    hide Enc32, Enc64, HasBit;
    b.BufferPutInt32(a.flags);
    if v >= 4 {
      b.BufferPutInt8(a.kind);
    }
    PutIf64(b, HasBit(a.flags, ATTR_SIZE), a.size);
  }

  method EncodeIds(b: Buffer, a: Attrs, v: nat)
    requires b.Valid()
    modifies b, b.data
    ensures var ids := v <= 3 && HasBit(a.flags, ATTR_UIDGID);
            b.Appended(Put32(ids, a.uid) + Put32(ids, a.gid))
  {
    hide Enc32, HasBit;
    if v <= 3 && HasBit(a.flags, ATTR_UIDGID) {
      b.BufferPutInt32(a.uid);
      b.BufferPutInt32(a.gid);
    }
  }

  method EncodeTimes(b: Buffer, a: Attrs, v: nat)
    requires b.Valid()
    modifies b, b.data
    ensures b.Appended(EncTimes(a, v))
  {
    hide Enc32, HasBit, Put32, EncTime;
    if v <= 3 {
      var c := HasBit(a.flags, ATTR_ACMODTIME);
      PutIf32(b, c, a.atime);
      PutIf32(b, c, a.mtime);
    } else {
      var s := HasBit(a.flags, ATTR_SUBSECOND_TIMES);
      PutTime(b, HasBit(a.flags, ATTR_ACCESSTIME), a.atime, s);
      PutTime(b, HasBit(a.flags, ATTR_CREATETIME), a.ctime, s);
      PutTime(b, HasBit(a.flags, ATTR_MODIFYTIME), a.mtime, s);
    }
  }

  method PutTime(b: Buffer, c: bool, n: u32, subsecond: bool)
    requires b.Valid()
    modifies b, b.data
    ensures b.Appended(EncTime(c, n, subsecond))
  {
    hide Enc64, Put32, Put64;
    PutIf64(b, c, n);
    PutIf32(b, subsecond, 0);
  }

  method EncodeEnd(b: Buffer, a: Attrs, v: nat)
    requires b.Valid()
    modifies b, b.data
    ensures b.Appended(PutText(HasBit(a.flags, ATTR_ACL), []) + EncTail(a, v))
  {
    hide Enc32, HasBit, Put32, EncString;
    if HasBit(a.flags, ATTR_ACL) {
      b.BufferPutString([]);
    }
    PutIf32(b, HasBit(a.flags, ATTR_BITS), a.attrib);
    PutIf32(b, v >= 5 && HasBit(a.flags, ATTR_EXTENDED), 0);
  }

  /** Two caches that share nothing with each other. */
  ghost predicate TwoTables(users: InfoTable, groups: InfoTable)
    reads users, users.tb, groups, groups.tb
  {
    users.Valid() && groups.Valid() && users != groups && users.tb != groups.tb
  }

  twostate predicate TablesKept(users: InfoTable, groups: InfoTable)
    reads users, users.tb, groups, groups.tb
  {
    && TwoTables(users, groups)
    && (users.tb == old(users.tb) || fresh(users.tb))
    && (groups.tb == old(groups.tb) || fresh(groups.tb))
  }

  method EncodeNames(b: Buffer, a: Attrs, users: InfoTable, groups: InfoTable)
    requires b.Valid() && TwoTables(users, groups)
    modifies b, b.data, users, users.tb, groups, groups.tb
    ensures TablesKept(users, groups)
    ensures var named := HasBit(a.flags, ATTR_OWNERGROUP);
            var o := OwnerOf(old(users.entries), users.db, old(groups.entries), groups.db, a);
            && b.Appended(PutText(named, o.user) + PutText(named, o.group))
            && users.entries == (if named then Ask(old(users.entries), users.db, ById(a.uid)) else old(users.entries))
            && groups.entries == (if named then Ask(old(groups.entries), groups.db, ById(a.gid)) else old(groups.entries))
  {
    hide HasBit, EncString, Ask, NameFor;
    if HasBit(a.flags, ATTR_OWNERGROUP) {
      var user := NameOf(users, a.uid);
      b.BufferPutString(user);
      var group := NameOf(groups, a.gid);
      b.BufferPutString(group);
    }
  }

  /** Everything up to the owner. */
  function EncFront(a: Attrs, v: nat, o: Owner): bytes {
    var ids, names := v <= 3 && HasBit(a.flags, ATTR_UIDGID), HasBit(a.flags, ATTR_OWNERGROUP);
    EncHead(a, v) + (Put32(ids, a.uid) + Put32(ids, a.gid)) + (PutText(names, o.user) + PutText(names, o.group))
  }

  /** Everything from the permissions on. */
  function EncBack(a: Attrs, v: nat): bytes {
    Put32(HasBit(a.flags, ATTR_PERMISSIONS), a.perm) + EncTimes(a, v) + (PutText(HasBit(a.flags, ATTR_ACL), []) + EncTail(a, v))
  }

  lemma EncHalves(a: Attrs, v: nat, o: Owner)
    ensures EncAttributes(a, v, o) == EncFront(a, v, o) + EncBack(a, v)
  {
    hide Put32, PutText, HasBit, EncHead, EncTimes, EncTail;
  }

  method EncodeFront(b: Buffer, a: Attrs, v: nat, users: InfoTable, groups: InfoTable)
    requires b.Valid() && TwoTables(users, groups)
    modifies b, b.data, users, users.tb, groups, groups.tb
    ensures TablesKept(users, groups)
    ensures var named := HasBit(a.flags, ATTR_OWNERGROUP);
            && b.Appended(EncFront(a, v, OwnerOf(old(users.entries), users.db, old(groups.entries), groups.db, a)))
            && users.entries == (if named then Ask(old(users.entries), users.db, ById(a.uid)) else old(users.entries))
            && groups.entries == (if named then Ask(old(groups.entries), groups.db, ById(a.gid)) else old(groups.entries))
  {
    hide HasBit, Put32, PutText, EncHead, Ask, NameFor, OwnerOf;
    EncodeHead(b, a, v);
    EncodeIds(b, a, v);
    EncodeNames(b, a, users, groups);
  }

  method EncodeBack(b: Buffer, a: Attrs, v: nat)
    requires b.Valid()
    modifies b, b.data
    ensures b.Appended(EncBack(a, v))
  {
    hide HasBit, Put32, PutText, EncTimes, EncTail;
    PutIf32(b, HasBit(a.flags, ATTR_PERMISSIONS), a.perm);
    EncodeTimes(b, a, v);
    EncodeEnd(b, a, v);
  }

  /** EncodeAttributes with file == NULL. */
  method EncodeAttributes(b: Buffer, a: Attrs, v: nat, users: InfoTable, groups: InfoTable)
    requires b.Valid() && TwoTables(users, groups)
    modifies b, b.data, users, users.tb, groups, groups.tb
    ensures TablesKept(users, groups)
    ensures var named := HasBit(a.flags, ATTR_OWNERGROUP);
            && b.Appended(EncAttributes(a, v, OwnerOf(old(users.entries), users.db, old(groups.entries), groups.db, a)))
            && users.entries == (if named then Ask(old(users.entries), users.db, ById(a.uid)) else old(users.entries))
            && groups.entries == (if named then Ask(old(groups.entries), groups.db, ById(a.gid)) else old(groups.entries))
  {
    hide HasBit, EncFront, EncBack, EncAttributes, Ask, OwnerOf;
    EncHalves(a, v, OwnerOf(users.entries, users.db, groups.entries, groups.db, a));
    EncodeFront(b, a, v, users, groups);
    EncodeBack(b, a, v);
  }

  // ----- GetAttributes -----

  method Get32(b: Buffer, c: bool) returns (n: u32)
    requires b.Valid()
    modifies b`read
    ensures (n, b.Unread()) == Next32(c, old(b.Unread())) && b.ReadTo(b.Unread())
  {
    n := 0;
    if c {
      n := b.BufferGetInt32();
    }
  }

  method Get64(b: Buffer, c: bool) returns (n: u64)
    requires b.Valid()
    modifies b`read
    ensures (n, b.Unread()) == Next64(c, old(b.Unread())) && b.ReadTo(b.Unread())
  {
    n := 0;
    if c {
      n := b.BufferGetInt64();
    }
  }

  method GetText(b: Buffer, c: bool) returns (s: Option<text>)
    requires b.Valid()
    modifies b`read
    ensures (s, b.Unread()) == NextText(c, old(b.Unread())) && b.ReadTo(b.Unread())
  {
    s := None;
    if c {
      s := b.BufferGetString();
    }
  }

  method GetHead(b: Buffer, v: nat) returns (flags: u32, kind: byte, sz: u64)
    requires b.Valid()
    modifies b`read
    ensures (flags, kind, sz, b.Unread()) == DecHead(old(b.Unread()), v) && b.ReadTo(b.Unread())
  {
    hide Next32, Next64, HasBit;
    flags := Get32(b, true);
    kind := 0;
    if v >= 4 {
      kind := b.BufferGetInt8();
    }
    sz := Get64(b, HasBit(flags, ATTR_SIZE));
  }

  method GetOwner(b: Buffer, flags: u32, v: nat) returns (uid: u32, gid: u32, user: Option<text>, group: Option<text>)
    requires b.Valid()
    modifies b`read
    ensures (uid, gid, user, group, b.Unread()) == DecOwner(flags, old(b.Unread()), v) && b.ReadTo(b.Unread())
  {
    hide Next32, NextText, HasBit;
    var ids, names := v <= 3 && HasBit(flags, ATTR_UIDGID), v >= 4 && HasBit(flags, ATTR_OWNERGROUP);
    uid := Get32(b, ids);
    gid := Get32(b, ids);
    user := GetText(b, names);
    group := GetText(b, names);
  }

  method GetTimes(b: Buffer, flags: u32, v: nat) returns (atime: u32, ctime: u32, mtime: u32)
    requires b.Valid()
    modifies b`read
    ensures (atime, ctime, mtime, b.Unread()) == DecTimes(flags, old(b.Unread()), v) && b.ReadTo(b.Unread())
  {
    hide Next32, Next64, HasBit;
    if v <= 3 {
      atime := Get32(b, HasBit(flags, ATTR_ACMODTIME));
      ctime := 0;
      mtime := Get32(b, HasBit(flags, ATTR_ACMODTIME));
    } else {
      var s := HasBit(flags, ATTR_SUBSECOND_TIMES);
      var t := Get64(b, HasBit(flags, ATTR_ACCESSTIME));
      atime := t % 0x1_0000_0000;
      var _ := Get32(b, s);
      t := Get64(b, HasBit(flags, ATTR_CREATETIME));
      ctime := t % 0x1_0000_0000;
      var _ := Get32(b, s);
      t := Get64(b, HasBit(flags, ATTR_MODIFYTIME));
      mtime := t % 0x1_0000_0000;
      var _ := Get32(b, s);
    }
  }

  method SkipExtended(b: Buffer, flags: u32)
    requires b.Valid()
    modifies b`read
    ensures b.ReadTo(DecExtended(flags, old(b.Unread())))
  {
    hide Next32, NextText, HasBit;
    var count := Get32(b, HasBit(flags, ATTR_EXTENDED));
    var i := 0;
    while i < count
      invariant i <= count
      invariant b.ReadTo(b.Unread())
      invariant SkipPairs(count - i, b.Unread()) == DecExtended(flags, old(b.Unread()))
      modifies b`read
    {
      var _ := GetText(b, true);
      var _ := GetText(b, true);
      i := i + 1;
    }
  }

  method LookUpName(t: InfoTable, name: Option<text>, otherwise: u32) returns (id: u32)
    requires t.Valid()
    modifies t, t.tb
    ensures t.Valid() && (t.tb == old(t.tb) || fresh(t.tb))
    ensures name.None? ==> id == otherwise && t.entries == old(t.entries)
    ensures name.Some? ==> t.entries == Ask(old(t.entries), t.db, ByName(name.value))
    ensures name.Some? ==> id == var e := AnswerName(old(t.entries), t.db, name.value); if e.Some? then e.value.id else otherwise
  {
    id := otherwise;
    if name.Some? {
      var e := t.GetByName(name.value);
      if e.Some? {
        id := e.value.id;
      }
    }
  }

  method GetPlain(b: Buffer, v: nat) returns (a: Attrs, user: Option<text>, group: Option<text>)
    requires b.Valid()
    modifies b`read
    ensures b.ReadTo(b.Unread())
    ensures Decoded(a, user, group, b.Unread()) == DecAttributes(old(b.Unread()), v)
  {
    hide HasBit, DecHead, DecOwner, DecTimes, DecExtended, Next32, NextText;
    var flags, kind, sz := GetHead(b, v);
    var uid, gid;
    uid, gid, user, group := GetOwner(b, flags, v);
    var perm := Get32(b, HasBit(flags, ATTR_PERMISSIONS));
    var atime, ctime, mtime := GetTimes(b, flags, v);
    var _ := GetText(b, HasBit(flags, ATTR_ACL));
    SkipExtended(b, flags);
    a := Attrs(flags, kind, sz, uid, gid, perm, atime, ctime, mtime, 0);
  }

  /** GetAttributes: reads on to where the decoder stops and looks the names up. */
  method GetAttributes(b: Buffer, v: nat, users: InfoTable, groups: InfoTable) returns (a: Attrs)
    requires b.Valid() && TwoTables(users, groups)
    modifies b`read, users, users.tb, groups, groups.tb
    ensures TablesKept(users, groups)
    ensures var d := DecAttributes(old(b.Unread()), v);
            && b.ReadTo(d.rest)
            && a == Resolve(d, old(users.entries), users.db, old(groups.entries), groups.db)
            && users.entries == (if d.user.Some? then Ask(old(users.entries), users.db, ByName(d.user.value)) else old(users.entries))
            && groups.entries == (if d.group.Some? then Ask(old(groups.entries), groups.db, ByName(d.group.value)) else old(groups.entries))
  {
    hide DecAttributes, Ask, AnswerName;
    var user, group;
    a, user, group := GetPlain(b, v);
    var uid := LookUpName(users, user, a.uid);
    var gid := LookUpName(groups, group, a.gid);
    a := a.(uid := uid, gid := gid);
  }
}
