/** SftpWho.c: the table of sessions shared by all server processes, one sweep at a time. */
module WhoTable {
  import opened Bytes

  const SFTPWHO_MAXCLIENT: nat := 128
  const SFTPWHO_EMPTY: nat := 0
  const SFTPWHO_IDLE: nat := 1
  const SFTPWHO_GET: nat := 2
  const SFTPWHO_PUT: nat := 3
  const GRACE: nat := 60

  /** The low byte of `status` is the session's state; bits 16 and 17 are the two bypass options. */
  datatype Slot = Slot(status: u32, timeBegin: u32, timeTotal: u32, downloadMax: u32, uploadMax: u32,
                       downloadCurrent: u32, uploadCurrent: u32)

  datatype Direction = Download | Upload

  function Code(s: Slot): nat {
    s.status % 0x100
  }

  predicate Active(s: Slot, d: Direction) {
    Code(s) == if d.Download? then SFTPWHO_GET else SFTPWHO_PUT
  }

  predicate Bypasses(s: Slot, d: Direction) {
    s.status / (if d.Download? then 0x1_0000 else 0x2_0000) % 2 == 1
  }

  function OwnLimit(s: Slot, d: Direction): u32 {
    if d.Download? then s.downloadMax else s.uploadMax
  }

  /** Not refreshed for a minute, in 32-bit arithmetic. */
  predicate Stale(s: Slot, t: u32) {
    (s.timeBegin + s.timeTotal + GRACE) % 0x1_0000_0000 < t
  }

  function SweptSlot(s: Slot, t: u32): Slot {
    if Code(s) != SFTPWHO_EMPTY && Stale(s, t) then s.(status := SFTPWHO_EMPTY) else s
  }

  function Swept(ss: seq<Slot>, t: u32): (r: seq<Slot>)
    ensures |r| == |ss|
    ensures forall i :: 0 <= i < |ss| ==> r[i] == SweptSlot(ss[i], t)
  {
    seq(|ss|, i requires 0 <= i < |ss| => SweptSlot(ss[i], t))
  }

  function Living(ss: seq<Slot>): nat {
    if ss == [] then 0 else Living(ss[..|ss| - 1]) + if Code(ss[|ss| - 1]) != SFTPWHO_EMPTY then 1 else 0
  }

  function ActiveCount(ss: seq<Slot>, d: Direction): (n: nat)
    ensures n <= |ss|
  {
    if ss == [] then 0 else ActiveCount(ss[..|ss| - 1], d) + if Active(ss[|ss| - 1], d) then 1 else 0
  }

  /** The global limit divided among the active sessions. */
  function Share(limit: u32, active: nat): u32 {
    if active > 0 then limit / active else limit
  }

  /** The limit a session works with; 0 is no limit. */
  function Effective(own: u32, share: u32, bypass: bool): u32 {
    if share > 0 && !bypass && (share < own || own == 0) then share else own
  }

  /** A limit of a session's own is never exceeded, a share only by a session that bypasses it; and one of both is in force. */
  lemma EffectiveIsBoth(own: u32, share: u32, bypass: bool)
    ensures var e := Effective(own, share, bypass);
            && (own > 0 ==> 0 < e <= own)
            && (bypass ==> e == own)
            && (share > 0 && !bypass ==> 0 < e <= share)
            && (e == 0 <==> own == 0 && (bypass || share == 0))
            && (e == own || e == share)
  {
  }

  // ----- what a sweep leaves -----

  /** The sweep takes out exactly the sessions not refreshed for 60 seconds, and changes no other. */
  lemma SweepIsExact(ss: seq<Slot>, t: u32)
    ensures forall i :: 0 <= i < |ss| ==>
              var old' := (ss[i].timeBegin + ss[i].timeTotal + 60) % 0x1_0000_0000 < t;
              Swept(ss, t)[i] == if ss[i].status % 0x100 != 0 && old' then ss[i].(status := 0) else ss[i]
  {
  }

  /** Every living session is counted once. */
  lemma {:induction false} LivingIsSize(ss: seq<Slot>)
    ensures Living(ss) == |set i | 0 <= i < |ss| && ss[i].status % 0x100 != 0|
    decreases |ss|
  {
    if ss != [] {
      var n := |ss| - 1;
      var t := ss[..n];
      LivingIsSize(t);
      var a, b := set i | 0 <= i < |ss| && ss[i].status % 0x100 != 0, set i | 0 <= i < n && t[i].status % 0x100 != 0;
      assert a == if ss[n].status % 0x100 != 0 then b + {n} else b;
    }
  }

  lemma ActiveIsCode(s: Slot, d: Direction)
    ensures Active(s, d) <==> s.status % 0x100 == if d.Download? then 2 else 3
  {
  }

  /** So is every session shown as a download, or as an upload. */
  lemma {:induction false} ActiveIsSize(ss: seq<Slot>, d: Direction)
    ensures ActiveCount(ss, d) == |set i | 0 <= i < |ss| && ss[i].status % 0x100 == if d.Download? then 2 else 3|
    decreases |ss|
  {
    if ss != [] {
      hide Active;
      var n, c := |ss| - 1, if d.Download? then 2 else 3;
      assert Active(ss[n], d) <==> ss[n].status % 0x100 == c by { ActiveIsCode(ss[n], d); }
      var t := ss[..n];
      ActiveIsSize(t, d);
      var a, b := set i | 0 <= i < |ss| && ss[i].status % 0x100 == c, set i | 0 <= i < n && t[i].status % 0x100 == c;
      assert a == if ss[n].status % 0x100 == c then b + {n} else b;
    }
  }

  lemma NoStaleSessionLeft(ss: seq<Slot>, t: u32)
    ensures forall s :: s in Swept(ss, t) && Code(s) != SFTPWHO_EMPTY ==> !Stale(s, t)
    ensures Swept(Swept(ss, t), t) == Swept(ss, t)
  {
  }

  /** The session takes part in the sharing. */
  predicate Sharing(s: Slot, d: Direction) {
    Active(s, d) && !Bypasses(s, d)
  }

  /** The effective limits of all sessions that take part, added up. */
  function TotalLimit(ss: seq<Slot>, share: u32, d: Direction): nat {
    if ss == [] then 0
    else TotalLimit(ss[..|ss| - 1], share, d)
         + if Sharing(ss[|ss| - 1], d) then Effective(OwnLimit(ss[|ss| - 1], d), share, false) else 0
  }

  lemma {:induction false} TotalWithinShares(ss: seq<Slot>, share: u32, d: Direction)
    requires share > 0
    ensures TotalLimit(ss, share, d) <= ActiveCount(ss, d) * share
  {
    hide Bypasses, Active, OwnLimit;
    if ss != [] {
      var t := ss[..|ss| - 1];
      TotalWithinShares(t, share, d);
      assert (ActiveCount(t, d) + 1) * share == ActiveCount(t, d) * share + share;
    }
  }

  lemma ShareFits(limit: u32, n: nat)
    requires 0 < n
    ensures n * Share(limit, n) <= limit < n * (Share(limit, n) + 1)
    ensures Share(limit, n) > 0 <==> n <= limit
  {
    assert limit == n * (limit / n) + limit % n;
  }

  /** Every session that takes part has a limit, and together they keep within the global one. */
  ghost predicate GloballyLimited(ss: seq<Slot>, limit: u32, d: Direction) {
    var share := Share(limit, ActiveCount(ss, d));
    && (forall s :: s in ss && Sharing(s, d) ==> Effective(OwnLimit(s, d), share, false) > 0)
    && TotalLimit(ss, share, d) <= limit
  }

  /** A global limit of at least one byte per active session is kept. */
  lemma GlobalLimitKept(ss: seq<Slot>, limit: u32, d: Direction)
    requires 0 < ActiveCount(ss, d) <= limit
    ensures GloballyLimited(ss, limit, d)
  {
    hide Active, Bypasses, OwnLimit, ActiveCount, TotalLimit;
    var n := ActiveCount(ss, d);
    ShareFits(limit, n);
    TotalWithinShares(ss, Share(limit, n), d);
  }

  /** The sessions' own limits, added up over those that take part. */
  function OwnTotal(ss: seq<Slot>, d: Direction): nat {
    if ss == [] then 0
    else OwnTotal(ss[..|ss| - 1], d) + if Sharing(ss[|ss| - 1], d) then OwnLimit(ss[|ss| - 1], d) else 0
  }

  /** A share of 0 leaves every session its own limit, or none. */
  lemma {:induction false} NoShareNoLimit(ss: seq<Slot>, d: Direction)
    ensures TotalLimit(ss, 0, d) == OwnTotal(ss, d)
  {
    hide Sharing, OwnLimit;
    if ss != [] {
      NoShareNoLimit(ss[..|ss| - 1], d);
    }
  }

  /** The sessions that take part keep within the global limit by limits of their own. */
  ghost predicate LimitedAnyway(ss: seq<Slot>, limit: u32, d: Direction) {
    (forall s :: s in ss && Sharing(s, d) ==> OwnLimit(s, d) > 0) && OwnTotal(ss, d) <= limit
  }

  /**
    The global limit is kept exactly when it is at least the number of active sessions, or the
    sessions' own limits keep it anyway: below that number the share is 0, which means no limit.
   */
  lemma GlobalLimitIff(ss: seq<Slot>, limit: u32, d: Direction)
    requires ActiveCount(ss, d) > 0
    ensures GloballyLimited(ss, limit, d) <==> ActiveCount(ss, d) <= limit || LimitedAnyway(ss, limit, d)
  {
    hide Sharing, OwnLimit, TotalLimit, OwnTotal, ActiveCount;
    ShareFits(limit, ActiveCount(ss, d));
    if ActiveCount(ss, d) <= limit {
      GlobalLimitKept(ss, limit, d);
    } else {
      NoShareNoLimit(ss, d);
    }
  }

  /** Two downloads under a global limit of one byte per second are not limited at all. */
  lemma TinyLimitIsNoLimit()
    ensures var s := Slot(SFTPWHO_GET, 0, 0, 0, 0, 0, 0);
            !GloballyLimited([s, s], 1, Download)
  {
    var s := Slot(SFTPWHO_GET, 0, 0, 0, 0, 0, 0);
    var ss := [s, s];
    assert ss[..1] == [s] && ss[..1][..0] == [];
    assert ActiveCount([s], Download) == 1;
    GlobalLimitIff(ss, 1, Download);
    assert Sharing(s, Download) && s in ss;
  }

  class SharedTable {
    const who: array<Slot>
    var downloadMax: u32
    var uploadMax: u32
    var downloadByClient: u32
    var uploadByClient: u32

    ghost predicate Valid() {
      who.Length == SFTPWHO_MAXCLIENT
    }

    constructor (empty: Slot, downloadMax: u32, uploadMax: u32)
      ensures Valid() && fresh(who) && who[..] == seq(SFTPWHO_MAXCLIENT, _ => empty)
      ensures this.downloadMax == downloadMax && this.uploadMax == uploadMax
    {
      who := new Slot[SFTPWHO_MAXCLIENT](_ => empty);
      this.downloadMax, this.uploadMax, downloadByClient, uploadByClient := downloadMax, uploadMax, 0, 0;
      new;
      assert who[..] == seq(SFTPWHO_MAXCLIENT, _ => empty);
    }

    /** SftpWhoCleanBuggedClient at time t: clears stale sessions and shares the limits among the rest. */
    method SftpWhoCleanBuggedClient(t: u32) returns (nb: nat)
      requires Valid()
      modifies who, this`downloadByClient, this`uploadByClient
      ensures who[..] == Swept(old(who[..]), t)
      ensures nb == Living(who[..])
      ensures downloadByClient == Share(downloadMax, ActiveCount(who[..], Download))
      ensures uploadByClient == Share(uploadMax, ActiveCount(who[..], Upload))
    {
      hide Stale, Share, Bypasses;
      var nbdown, nbup := 0, 0;
      nb := 0;
      ghost var was := who[..];
      for i := 0 to SFTPWHO_MAXCLIENT
        invariant forall k :: 0 <= k < i ==> who[k] == SweptSlot(was[k], t)
        invariant forall k :: i <= k < SFTPWHO_MAXCLIENT ==> who[k] == was[k]
        invariant nb == Living(who[..i])
        invariant nbdown == ActiveCount(who[..i], Download) && nbup == ActiveCount(who[..i], Upload)
        modifies who
      {
        ghost var before := who[..i];
        if Code(who[i]) != SFTPWHO_EMPTY {
          if Stale(who[i], t) {
            who[i] := who[i].(status := SFTPWHO_EMPTY);
          } else {
            nb := nb + 1;
            if Code(who[i]) == SFTPWHO_GET {
              nbdown := nbdown + 1;
            } else if Code(who[i]) == SFTPWHO_PUT {
              nbup := nbup + 1;
            }
          }
        }
        assert who[..i + 1][..i] == before;
      }
      assert who[..] == who[..SFTPWHO_MAXCLIENT];
      assert who[..] == Swept(was, t);
      downloadByClient := Share(downloadMax, nbdown);
      uploadByClient := Share(uploadMax, nbup);
    }
  }
}
