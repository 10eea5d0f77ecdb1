/** The layouts of draft-ietf-secsh-filexfer as tables of fields, and what a client that follows them reads in a reply. */
module WireFormat {
  import opened Wrappers
  import opened Bytes
  import opened Buffers
  import opened Attributes
  import opened Replies

  // ----- numbers and fields -----

  function BigEndian(width: nat, n: nat): (b: bytes)
    ensures |b| == width
  {
    if width == 0 then [] else BigEndian(width - 1, n / 0x100) + [n % 0x100]
  }

  lemma Enc32IsBigEndian(n: u32)
    ensures Enc32(n) == BigEndian(4, n)
  {
    var a := n / 0x100;
    var b := a / 0x100;
    assert n / 0x1_0000 == b && n / 0x100_0000 == b / 0x100;
    assert BigEndian(1, b / 0x100) == BigEndian(0, b / 0x100 / 0x100) + [b / 0x100];
    assert BigEndian(2, b) == BigEndian(1, b / 0x100) + [b % 0x100];
    assert BigEndian(3, a) == BigEndian(2, b) + [a % 0x100];
  }

  lemma {:induction false} BigEndianParts(width: nat, hi: nat, lo: nat, unit: nat)
    requires lo < unit == Power(width)
    ensures BigEndian(4 + width, hi * unit + lo) == BigEndian(4, hi) + BigEndian(width, lo)
    decreases width
  {
    if width == 0 {
      assert BigEndian(4, hi) + [] == BigEndian(4, hi);
    } else {
      var less := Power(width - 1);
      Digits(hi, lo, less);
      BigEndianParts(width - 1, hi, lo / 0x100, less);
    }
  }

  function Power(width: nat): (p: nat)
    ensures p > 0
  {
    if width == 0 then 1 else 0x100 * Power(width - 1)
  }

  lemma Digits(hi: nat, lo: nat, less: nat)
    requires lo < 0x100 * less
    ensures (hi * (0x100 * less) + lo) / 0x100 == hi * less + lo / 0x100
    ensures (hi * (0x100 * less) + lo) % 0x100 == lo % 0x100
    ensures lo / 0x100 < less
  {
    assert hi * (0x100 * less) == 0x100 * (hi * less);
  }

  lemma Enc64IsBigEndian(n: u64)
    ensures Enc64(n) == BigEndian(8, n)
  {
    hide Enc32, BigEndian;
    var hi, lo := n / 0x1_0000_0000, n % 0x1_0000_0000;
    Enc32IsBigEndian(hi);
    Enc32IsBigEndian(lo);
    assert Power(4) == 0x1_0000_0000 by {
      assert Power(1) == 0x100 && Power(2) == 0x1_0000 && Power(3) == 0x100_0000;
    }
    BigEndianParts(4, hi, lo, 0x1_0000_0000);
  }

  datatype Field = Num(width: nat, value: nat) | Str(s: text)

  function FieldBytes(f: Field): bytes {
    match f
    case Num(width, value) => BigEndian(width, value)
    case Str(s) => BigEndian(4, |s|) + s
  }

  function Layout(fs: seq<Field>): bytes {
    if fs == [] then [] else FieldBytes(fs[0]) + Layout(fs[1..])
  }

  lemma {:induction false} LayoutAppend(fs: seq<Field>, gs: seq<Field>)
    ensures Layout(fs + gs) == Layout(fs) + Layout(gs)
    decreases |fs|
  {
    hide FieldBytes;
    if fs == [] {
      assert fs + gs == gs;
    } else {
      assert (fs + gs)[1..] == fs[1..] + gs;
      LayoutAppend(fs[1..], gs);
    }
  }

  // ----- attributes -----

  /** Bit i of n, the lowest being bit 0. */
  predicate BitOf(n: nat, i: nat) {
    if i == 0 then n % 2 == 1 else BitOf(n / 2, i - 1)
  }

  function When(c: bool, fs: seq<Field>): seq<Field> {
    if c then fs else []
  }

  /** Times of 32 bits in version 3, and of 64 bits with nanoseconds later. */
  function TimeFields(a: Attrs, v: nat): seq<Field> {
    var f := a.flags;
    if v <= 3 then When(BitOf(f, 3), [Num(4, a.atime), Num(4, a.mtime)])
    else
      When(BitOf(f, 3), [Num(8, a.atime)]) + When(BitOf(f, 8), [Num(4, 0)])
      + When(BitOf(f, 4), [Num(8, a.ctime)]) + When(BitOf(f, 8), [Num(4, 0)])
      + When(BitOf(f, 5), [Num(8, a.mtime)]) + When(BitOf(f, 8), [Num(4, 0)])
  }

  /** Section 5 of the drafts: version 3 as in draft 02, later versions as in drafts 04 and 05, with an empty ACL. */
  function AttrFields(a: Attrs, v: nat, o: Owner): seq<Field> {
    var f := a.flags;
    [Num(4, f)]
    + When(v >= 4, [Num(1, a.kind)])
    + When(BitOf(f, 0), [Num(8, a.size)])
    + When(v <= 3 && BitOf(f, 1), [Num(4, a.uid), Num(4, a.gid)])
    + When(BitOf(f, 7), [Str(o.user), Str(o.group)])
    + When(BitOf(f, 2), [Num(4, a.perm)])
    + TimeFields(a, v)
    + When(BitOf(f, 6), [Str([])])
    + When(BitOf(f, 9), [Num(4, a.attrib)])
    + When(v >= 5 && BitOf(f, 31), [Num(4, 0)])
  }

  function Mask(i: nat): (m: nat)
    ensures m > 0
  {
    if i == 0 then 1 else 2 * Mask(i - 1)
  }

  lemma DivDiv(n: nat, m: nat)
    requires m > 0
    ensures n / (2 * m) == n / 2 / m
  {
    var q, r := n / 2 / m, n / 2 % m;
    assert n / 2 == q * m + r;
    var low := 2 * r + n % 2;
    assert n == q * (2 * m) + low by { assert q * (2 * m) == 2 * (q * m); }
    assert 0 <= low < 2 * m;
    QuotientIs(n, 2 * m, q, low);
  }

  lemma QuotientIs(n: nat, m: nat, q: nat, r: nat)
    requires m > 0 && n == q * m + r && r < m
    ensures n / m == q
  {
    SameQuotient(m, q, r, n / m, n % m);
  }

  lemma SameQuotient(m: nat, q: nat, r: nat, d: nat, e: nat)
    requires q * m + r == d * m + e && r < m && e < m
    ensures d == q
  {
    if d > q {
      assert (d - q) * m == d * m - q * m;
      AtLeastOnce(d - q, m);
    } else if d < q {
      assert (q - d) * m == q * m - d * m;
      AtLeastOnce(q - d, m);
    }
  }

  lemma AtLeastOnce(k: nat, m: nat)
    requires k > 0
    ensures k * m >= m
  {
    assert k * m == m + (k - 1) * m;
  }

  lemma {:induction false} MaskIsBit(n: nat, i: nat)
    ensures n / Mask(i) % 2 == 1 <==> BitOf(n, i)
    decreases i
  {
    if i > 0 {
      DivDiv(n, Mask(i - 1));
      MaskIsBit(n / 2, i - 1);
    }
  }

  lemma FlagBits(f: u32)
    ensures HasBit(f, ATTR_SIZE) == BitOf(f, 0) && HasBit(f, ATTR_UIDGID) == BitOf(f, 1) && HasBit(f, ATTR_PERMISSIONS) == BitOf(f, 2)
    ensures HasBit(f, ATTR_ACCESSTIME) == BitOf(f, 3) && HasBit(f, ATTR_CREATETIME) == BitOf(f, 4) && HasBit(f, ATTR_MODIFYTIME) == BitOf(f, 5)
    ensures HasBit(f, ATTR_ACL) == BitOf(f, 6) && HasBit(f, ATTR_OWNERGROUP) == BitOf(f, 7) && HasBit(f, ATTR_SUBSECOND_TIMES) == BitOf(f, 8)
    ensures HasBit(f, ATTR_BITS) == BitOf(f, 9) && HasBit(f, ATTR_EXTENDED) == BitOf(f, 31)
  {
    hide BitOf;
    Masks();
    forall i: nat ensures f / Mask(i) % 2 == 1 <==> BitOf(f, i) {
      MaskIsBit(f, i);
    }
  }

  lemma Masks()
    ensures Mask(0) == 1 && Mask(1) == 2 && Mask(2) == 4 && Mask(3) == 8 && Mask(4) == 0x10 && Mask(5) == 0x20
    ensures Mask(6) == 0x40 && Mask(7) == 0x80 && Mask(8) == 0x100 && Mask(9) == 0x200 && Mask(31) == 0x8000_0000
  {
    assert Mask(16) == 0x1_0000 by { assert Mask(12) == 0x1000; }
    assert Mask(24) == 0x100_0000 by { assert Mask(20) == 0x10_0000; }
    assert Mask(28) == 0x1000_0000;
  }

  lemma WhenLayout(c: bool, fs: seq<Field>)
    ensures Layout(When(c, fs)) == if c then Layout(fs) else []
  {
  }

  lemma OneField(f: Field)
    ensures Layout([f]) == FieldBytes(f)
  {
  }

  lemma TwoFields(f: Field, g: Field)
    ensures Layout([f, g]) == FieldBytes(f) + FieldBytes(g)
  {
    assert [f, g][1..] == [g];
    OneField(g);
  }

  lemma NumberLayout(n: u32, m: u64, k: byte)
    ensures FieldBytes(Num(4, n)) == Enc32(n) && FieldBytes(Num(8, m)) == Enc64(m) && FieldBytes(Num(1, k)) == [k]
  {
    Enc32IsBigEndian(n);
    Enc64IsBigEndian(m);
    assert BigEndian(1, k) == BigEndian(0, k / 0x100) + [k];
  }

  lemma TextLayout(s: text)
    ensures FieldBytes(Str(s)) == EncString(s)
  {
    Enc32IsBigEndian(|s|);
  }

  /** The pieces of the encoder's layout, one group of fields at a time. */
  lemma HeadLayout(a: Attrs, v: nat)
    ensures EncHead(a, v) == Layout([Num(4, a.flags)] + When(v >= 4, [Num(1, a.kind)]) + When(BitOf(a.flags, 0), [Num(8, a.size)]))
  {
    hide Layout, When, BitOf, FieldBytes, Enc32, Enc64, HasBit;
    FlagBits(a.flags);
    NumberLayout(a.flags, a.size, a.kind);
    OneField(Num(4, a.flags));
    OneField(Num(1, a.kind));
    OneField(Num(8, a.size));
    var p, q, r := [Num(4, a.flags)], When(v >= 4, [Num(1, a.kind)]), When(BitOf(a.flags, 0), [Num(8, a.size)]);
    WhenLayout(v >= 4, [Num(1, a.kind)]);
    WhenLayout(BitOf(a.flags, 0), [Num(8, a.size)]);
    LayoutAppend(p + q, r);
    LayoutAppend(p, q);
  }

  lemma OwnerLayout(a: Attrs, v: nat, o: Owner)
    ensures EncOwner(a, v, o) == Layout(When(v <= 3 && BitOf(a.flags, 1), [Num(4, a.uid), Num(4, a.gid)])
                                        + When(BitOf(a.flags, 7), [Str(o.user), Str(o.group)]))
  {
    hide Layout, When, BitOf, FieldBytes, Enc32, HasBit, EncString;
    FlagBits(a.flags);
    NumberLayout(a.uid, 0, 0);
    NumberLayout(a.gid, 0, 0);
    TextLayout(o.user);
    TextLayout(o.group);
    TwoFields(Num(4, a.uid), Num(4, a.gid));
    TwoFields(Str(o.user), Str(o.group));
    WhenLayout(v <= 3 && BitOf(a.flags, 1), [Num(4, a.uid), Num(4, a.gid)]);
    WhenLayout(BitOf(a.flags, 7), [Str(o.user), Str(o.group)]);
    LayoutAppend(When(v <= 3 && BitOf(a.flags, 1), [Num(4, a.uid), Num(4, a.gid)]), When(BitOf(a.flags, 7), [Str(o.user), Str(o.group)]));
  }

  lemma TimeLayout(c: bool, n: u32, s: bool)
    ensures EncTime(c, n, s) == Layout(When(c, [Num(8, n)]) + When(s, [Num(4, 0)]))
  {
    hide Layout, When, FieldBytes, Enc32, Enc64;
    NumberLayout(0, n, 0);
    OneField(Num(8, n));
    OneField(Num(4, 0));
    WhenLayout(c, [Num(8, n)]);
    WhenLayout(s, [Num(4, 0)]);
    LayoutAppend(When(c, [Num(8, n)]), When(s, [Num(4, 0)]));
  }

  lemma TimesLayout(a: Attrs, v: nat)
    ensures EncTimes(a, v) == Layout(TimeFields(a, v))
  {
    hide Layout, When, BitOf, FieldBytes, Enc32, EncTime, HasBit;
    var f := a.flags;
    FlagBits(f);
    if v <= 3 {
      NumberLayout(a.atime, 0, 0);
      NumberLayout(a.mtime, 0, 0);
      TwoFields(Num(4, a.atime), Num(4, a.mtime));
      WhenLayout(BitOf(f, 3), [Num(4, a.atime), Num(4, a.mtime)]);
    } else {
      var s := BitOf(f, 8);
      var p, q, r := When(BitOf(f, 3), [Num(8, a.atime)]), When(BitOf(f, 4), [Num(8, a.ctime)]), When(BitOf(f, 5), [Num(8, a.mtime)]);
      var z := When(s, [Num(4, 0)]);
      TimeLayout(BitOf(f, 3), a.atime, s);
      TimeLayout(BitOf(f, 4), a.ctime, s);
      TimeLayout(BitOf(f, 5), a.mtime, s);
      assert TimeFields(a, v) == (p + z) + ((q + z) + (r + z));
      LayoutAppend(p + z, (q + z) + (r + z));
      LayoutAppend(q + z, r + z);
    }
  }

  lemma TailLayout(a: Attrs, v: nat)
    ensures PutText(HasBit(a.flags, ATTR_ACL), []) + EncTail(a, v) ==
            Layout(When(BitOf(a.flags, 6), [Str([])]) + When(BitOf(a.flags, 9), [Num(4, a.attrib)]) + When(v >= 5 && BitOf(a.flags, 31), [Num(4, 0)]))
  {
    hide Layout, When, BitOf, FieldBytes, Enc32, HasBit, EncString;
    var f := a.flags;
    FlagBits(f);
    var p, q, r := When(BitOf(f, 6), [Str([])]), When(BitOf(f, 9), [Num(4, a.attrib)]), When(v >= 5 && BitOf(f, 31), [Num(4, 0)]);
    NumberLayout(a.attrib, 0, 0);
    NumberLayout(0, 0, 0);
    TextLayout([]);
    OneField(Str([]));
    OneField(Num(4, a.attrib));
    OneField(Num(4, 0));
    WhenLayout(BitOf(f, 6), [Str([])]);
    WhenLayout(BitOf(f, 9), [Num(4, a.attrib)]);
    WhenLayout(v >= 5 && BitOf(f, 31), [Num(4, 0)]);
    LayoutAppend(p + q, r);
    LayoutAppend(p, q);
  }

  /** The encoder writes the fields of the drafts' table in their order. */
  lemma AttributesAreLaidOut(a: Attrs, v: nat, o: Owner)
    ensures EncAttributes(a, v, o) == Layout(AttrFields(a, v, o))
  {
    hide Layout, When, BitOf, FieldBytes, Enc32, HasBit, EncHead, EncOwner, EncTimes, EncTail, TimeFields, PutText;
    var f := a.flags;
    var h := [Num(4, f)] + When(v >= 4, [Num(1, a.kind)]) + When(BitOf(f, 0), [Num(8, a.size)]);
    var w := When(v <= 3 && BitOf(f, 1), [Num(4, a.uid), Num(4, a.gid)]) + When(BitOf(f, 7), [Str(o.user), Str(o.group)]);
    var p := When(BitOf(f, 2), [Num(4, a.perm)]);
    var t := TimeFields(a, v);
    var e := When(BitOf(f, 6), [Str([])]) + When(BitOf(f, 9), [Num(4, a.attrib)]) + When(v >= 5 && BitOf(f, 31), [Num(4, 0)]);
    HeadLayout(a, v);
    OwnerLayout(a, v, o);
    TimesLayout(a, v);
    TailLayout(a, v);
    FlagBits(f);
    NumberLayout(a.perm, 0, 0);
    OneField(Num(4, a.perm));
    WhenLayout(BitOf(f, 2), [Num(4, a.perm)]);
    FieldsInParts(a, v, o, h, w, p, t, e);
    LayoutAppend(h, w + (p + (t + e)));
    LayoutAppend(w, p + (t + e));
    LayoutAppend(p, t + e);
    LayoutAppend(t, e);
  }

  lemma FieldsInParts(a: Attrs, v: nat, o: Owner, h: seq<Field>, w: seq<Field>, p: seq<Field>, t: seq<Field>, e: seq<Field>)
    requires var f := a.flags;
             && h == [Num(4, f)] + When(v >= 4, [Num(1, a.kind)]) + When(BitOf(f, 0), [Num(8, a.size)])
             && w == When(v <= 3 && BitOf(f, 1), [Num(4, a.uid), Num(4, a.gid)]) + When(BitOf(f, 7), [Str(o.user), Str(o.group)])
             && p == When(BitOf(f, 2), [Num(4, a.perm)]) && t == TimeFields(a, v)
             && e == When(BitOf(f, 6), [Str([])]) + When(BitOf(f, 9), [Num(4, a.attrib)]) + When(v >= 5 && BitOf(f, 31), [Num(4, 0)])
    ensures AttrFields(a, v, o) == h + (w + (p + (t + e)))
  {
    hide When, BitOf, TimeFields;
  }

  // ----- what a client reads in a reply -----

  /** The attributes in a reply, and the names that came with them. */
  datatype SeenAttrs = SeenAttrs(a: Attrs, user: Option<text>, group: Option<text>)

  datatype SeenEntry = SeenEntry(name: Option<text>, longName: Option<text>, attrs: SeenAttrs)

  datatype Seen =
    | SawVersion(version: u32)
    | SawStatus(id: u32, code: u32, message: Option<text>)
    | SawHandle(id: u32, handle: Option<text>)
    | SawData(id: u32, data: Option<text>)
    | SawNames(id: u32, entries: seq<SeenEntry>)
    | SawAttrs(id: u32, attrs: SeenAttrs)
    | Garbled

  function Look(u: bytes, v: nat): (SeenAttrs, bytes) {
    var d := DecAttributes(u, v);
    (SeenAttrs(d.a, d.user, d.group), d.rest)
  }

  function ReadEntries(n: nat, u: bytes, v: nat): (es: seq<SeenEntry>)
    ensures |es| == n
  {
    if n == 0 then []
    else
      var (name, u1) := NextText(true, u);
      var (longName, u2) := NextText(v <= 3, u1);
      var (attrs, u3) := Look(u2, v);
      [SeenEntry(name, longName, attrs)] + ReadEntries(n - 1, u3, v)
  }

  /** Sections 4 and 7 of the drafts: the type, the id, and what the type says. */
  function Understood(b: bytes, v: nat): Seen {
    if b == [] then Garbled
    else
      var (id, u) := Next32(true, b[1..]);
      if b[0] == 2 then SawVersion(id)
      else if b[0] == 101 then
        var (code, u1) := Next32(true, u);
        SawStatus(id, code, NextText(v >= 3, u1).0)
      else if b[0] == 102 then SawHandle(id, NextText(true, u).0)
      else if b[0] == 103 then SawData(id, NextText(true, u).0)
      else if b[0] == 104 then
        var (count, u1) := Next32(true, u);
        SawNames(id, ReadEntries(count, u1, v))
      else if b[0] == 105 then SawAttrs(id, Look(u, v).0)
      else Garbled
  }

  /** Every field whose flag is set comes back, and the owner's names as text. */
  ghost predicate SeesAttrs(s: SeenAttrs, a: Attrs, v: nat, o: Owner) {
    var f, d := a.flags, s.a;
    && d.flags == f
    && (v >= 4 ==> d.kind == a.kind)
    && (BitOf(f, 0) ==> d.size == a.size)
    && (v <= 3 && BitOf(f, 1) ==> d.uid == a.uid && d.gid == a.gid)
    && (BitOf(f, 2) ==> d.perm == a.perm)
    && (v <= 3 && BitOf(f, 3) ==> d.atime == a.atime && d.mtime == a.mtime)
    && (v >= 4 && BitOf(f, 3) ==> d.atime == a.atime)
    && (v >= 4 && BitOf(f, 4) ==> d.ctime == a.ctime)
    && (v >= 4 && BitOf(f, 5) ==> d.mtime == a.mtime)
    && s.user == (if BitOf(f, 7) then Some(o.user) else None) && s.group == (if BitOf(f, 7) then Some(o.group) else None)
  }

  /** The attributes that both sides read to the same end. */
  predicate Plain(a: Attrs, v: nat) {
    (HasBit(a.flags, ATTR_OWNERGROUP) ==> v >= 4) && SameEnd(a, v)
  }

  lemma AttrsAreSeen(a: Attrs, v: nat, o: Owner, rest: bytes)
    requires HasBit(a.flags, ATTR_OWNERGROUP) ==> v >= 4
    ensures SeesAttrs(Look(EncAttributes(a, v, o) + rest, v).0, a, v, o)
    ensures Plain(a, v) ==> Look(EncAttributes(a, v, o) + rest, v).1 == rest
  {
    hide EncAttributes, DecAttributes, HasBit, EncTail, DecExtended, BitOf, SameEnd;
    AttributesRoundTrip(a, v, o, rest);
    FlagBits(a.flags);
    if Plain(a, v) {
      TailLeaves(a, v, rest);
    }
  }

  lemma {:induction false} EntriesCons(e: Entry, es: seq<Entry>, v: nat, dbs: Databases)
    ensures EncEntries([e] + es, v, dbs) == EncEntry(e, v, dbs) + EncEntries(es, v, dbs)
    decreases |es|
  {
    hide EncEntry;
    var s := [e] + es;
    if es == [] {
      assert s[..0] == [];
    } else {
      var n := |es| - 1;
      assert s[..|s| - 1] == [e] + es[..n];
      EntriesCons(e, es[..n], v, dbs);
    }
  }

  ghost predicate SeesEntry(s: SeenEntry, e: Entry, v: nat, dbs: Databases) {
    && s.name == Some(e.name) && s.longName == (if v <= 3 then Some(e.longName) else None)
    && SeesAttrs(s.attrs, e.attrs, v, DbOwner(dbs, e.attrs))
  }

  lemma EntryIsSeen(e: Entry, v: nat, dbs: Databases, rest: bytes)
    requires Plain(e.attrs, v)
    ensures var u := EncEntry(e, v, dbs) + rest;
            var (name, u1) := NextText(true, u);
            var (longName, u2) := NextText(v <= 3, u1);
            var (attrs, u3) := Look(u2, v);
            u3 == rest && SeesEntry(SeenEntry(name, longName, attrs), e, v, dbs)
  {
    hide EncString, EncAttributes, NextText, Look, SeesAttrs, HasBit, SameEnd;
    var attrs := EncAttributes(e.attrs, v, DbOwner(dbs, e.attrs)) + rest;
    var long := PutText(v <= 3, e.longName) + attrs;
    assert EncEntry(e, v, dbs) + rest == PutText(true, e.name) + long;
    NextTextOfPut(true, e.name, long);
    NextTextOfPut(v <= 3, e.longName, attrs);
    AttrsAreSeen(e.attrs, v, DbOwner(dbs, e.attrs), rest);
  }

  /** A client reads every entry of a listing, in order. */
  lemma {:induction false} EntriesAreSeen(es: seq<Entry>, v: nat, dbs: Databases, rest: bytes)
    requires forall e <- es :: Plain(e.attrs, v)
    ensures var seen := ReadEntries(|es|, EncEntries(es, v, dbs) + rest, v);
            forall i :: 0 <= i < |es| ==> SeesEntry(seen[i], es[i], v, dbs)
    decreases |es|
  {
    hide EncEntry, EncEntries, NextText, Look, SeesEntry, Plain;
    if es != [] {
      var t := es[1..];
      var more := EncEntries(t, v, dbs) + rest;
      assert es == [es[0]] + t;
      EntriesCons(es[0], t, v, dbs);
      assert EncEntries(es, v, dbs) + rest == EncEntry(es[0], v, dbs) + more;
      assert es[0] in es;
      EntryIsSeen(es[0], v, dbs, more);
      EntriesAreSeen(t, v, dbs, rest);
    }
  }

  /** Of every reply, what the client sees. */
  ghost predicate Tells(s: Seen, p: Reply, v: u32, dbs: Databases) {
    match p
    case VersionReply => s == SawVersion(v)
    case StatusReply(id, code) => s == SawStatus(id, code, if v >= 3 then Some(StatusMessage(code)) else None)
    case HandleReply(id, h) => s.SawHandle? && s.id == id && s.handle.Some? && |s.handle.value| == 2 && s.handle.value[0] == 48 + h
    case DataReply(id, data) => s.SawData? && s.id == id && s.data.Some? && s.data.value == data
    case NameReply(id, es) =>
      && s.SawNames? && s.id == id && |s.entries| == |es|
      && forall i :: 0 <= i < |es| ==> SeesEntry(s.entries[i], es[i], v, dbs)
    case AttrsReply(id, a) => s.SawAttrs? && s.id == id && SeesAttrs(s.attrs, a, v, DbOwner(dbs, a))
  }

  /** The attributes in it are ones that both sides understand alike. */
  predicate PlainReply(p: Reply, v: nat) {
    && (p.NameReply? ==> forall e <- p.entries :: Plain(e.attrs, v))
    && (p.AttrsReply? ==> HasBit(p.attrs.flags, ATTR_OWNERGROUP) ==> v >= 4)
  }

  lemma BehindId(kind: byte, id: u32, rest: bytes)
    ensures var b := [kind] + Enc32(id) + rest; b != [] && b[0] == kind && Next32(true, b[1..]) == (id, rest)
  {
    hide Enc32, Next32;
    var b := [kind] + Enc32(id) + rest;
    assert b[1..] == Put32(true, id) + rest;
    Next32OfPut(true, id, rest);
  }

  lemma StatusIsRead(id: u32, code: u32, v: u32)
    ensures Understood(StatusBody(id, code, v), v) == SawStatus(id, code, if v >= 3 then Some(StatusMessage(code)) else None)
  {
    hide Enc32, Next32, NextText, EncString, StatusMessage, Ascii;
    var last := if v >= 3 then EncString(StatusMessage(code)) + EncString(Ascii("en")) else [];
    BehindId(101, id, Put32(true, code) + last);
    assert StatusBody(id, code, v) == [101] + Enc32(id) + (Put32(true, code) + last);
    Next32OfPut(true, code, last);
    if v >= 3 {
      NextTextOfPut(true, StatusMessage(code), EncString(Ascii("en")));
    } else {
      NextTextOfPut(false, [], []);
      assert PutText(false, []) + [] == last;
    }
  }

  lemma HandleIsRead(id: u32, h: int, v: u32)
    requires 0 <= h < 0x100 - 48
    ensures Understood(HandleBody(id, h), v) == SawHandle(id, Some([48 + h, 0]))
  {
    hide Next32, NextText;
    BehindId(102, id, EncHandle(h));
    assert EncHandle(h) == PutText(true, [48 + h, 0]) + [];
    NextTextOfPut(true, [48 + h, 0], []);
  }

  lemma DataIsRead(id: u32, data: text, v: u32)
    ensures Understood(DataBody(id, data), v) == SawData(id, Some(data))
  {
    hide Enc32, Next32, NextText, EncString;
    BehindId(103, id, EncString(data));
    assert EncString(data) == PutText(true, data) + [];
    NextTextOfPut(true, data, []);
  }

  lemma NamesAreRead(id: u32, es: seq<Entry>, v: u32, dbs: Databases)
    requires |es| < 0x1_0000_0000 && forall e <- es :: Plain(e.attrs, v)
    ensures Tells(Understood(NameBody(id, es, v, dbs), v), NameReply(id, es), v, dbs)
  {
    hide Enc32, Next32, EncEntries, SeesEntry, Plain, ReadEntries;
    var body := EncEntries(es, v, dbs);
    BehindId(104, id, Put32(true, |es|) + body);
    assert NameBody(id, es, v, dbs) == [104] + Enc32(id) + (Put32(true, |es|) + body);
    Next32OfPut(true, |es|, body);
    EntriesAreSeen(es, v, dbs, []);
    assert body + [] == body;
  }

  lemma AttrsAreRead(id: u32, a: Attrs, v: u32, dbs: Databases)
    requires HasBit(a.flags, ATTR_OWNERGROUP) ==> v >= 4
    ensures Tells(Understood(AttrsBody(id, a, v, dbs), v), AttrsReply(id, a), v, dbs)
  {
    hide Enc32, Next32, EncAttributes, SeesAttrs, HasBit, Look;
    var body := EncAttributes(a, v, DbOwner(dbs, a));
    BehindId(105, id, body);
    AttrsAreSeen(a, v, DbOwner(dbs, a), []);
    assert body + [] == body;
  }

  /** From the bytes of any reply a client reads what the server meant to say. */
  lemma ReplyIsRead(p: Reply, v: u32, dbs: Databases)
    requires Sendable(p, v, dbs) && PlainReply(p, v)
    ensures Tells(Understood(Payload(p, v, dbs), v), p, v, dbs)
  {
    hide StatusBody, HandleBody, DataBody, NameBody, AttrsBody, Understood, SeesEntry, SeesAttrs, Plain, HasBit, StatusMessage, SupportedBody, Ascii, EncString;
    match p {
      case VersionReply => VersionIsRead(v);
      case StatusReply(id, code) => StatusIsRead(id, code, v);
      case HandleReply(id, h) => HandleIsRead(id, h, v);
      case DataReply(id, data) => DataIsRead(id, data, v);
      case NameReply(id, es) => NamesAreRead(id, es, v, dbs);
      case AttrsReply(id, a) => AttrsAreRead(id, a, v, dbs);
    }
  }

  lemma VersionIsRead(v: u32)
    ensures Understood(VersionBody(v), v) == SawVersion(v)
  {
    hide Enc32, Next32, EncString, SupportedBody, Ascii;
    var rest := VersionBody(v)[5..];
    BehindId(2, v, rest);
    assert VersionBody(v) == [2] + Enc32(v) + rest;
  }

  /** What a client is told in words. */
  lemma MessagesOfCodes()
    ensures StatusMessage(0) == Ascii("Success") && StatusMessage(1) == Ascii("End of file") && StatusMessage(2) == Ascii("No such file")
    ensures StatusMessage(3) == Ascii("Permission denied") && StatusMessage(4) == Ascii("Failure")
    ensures StatusMessage(8) == Ascii("Operation unsupported") && StatusMessage(9) == Ascii("Invalid handle")
    ensures forall code: u32 :: code > 17 ==> StatusMessage(code) == Ascii("Unknown error")
  {
  }

  // ----- handles -----

  /** What the server asks to be sent back is what it finds the slot by. */
  lemma HandleComesBack(id: u32, h: int, v: u32, rest: bytes)
    requires 0 <= h < 0x100 - 48
    ensures var s := Understood(HandleBody(id, h), v);
            s.SawHandle? && s.handle.Some? && TakeHandle(EncString(s.handle.value) + rest) == (h, 6)
  {
    hide Understood, Enc32;
    HandleIsRead(id, h, v);
    assert EncString([48 + h, 0]) == EncHandle(h) by { assert Enc32(2) == [0, 0, 0, 2] by { SmallEnc(); } }
    HandleRoundTrip(h, rest);
  }

  lemma SmallEnc()
    ensures Enc32(2) == [0, 0, 0, 2]
  {
  }
}
