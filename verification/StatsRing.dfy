/** Stats.c: a ring of the last 300 seconds, and its transmission. */
module StatsRing {
  import opened Bytes
  import opened Buffers
  import opened WhoTable

  const STATS_SECONDES: nat := 300

  datatype Record = Record(users: u16, download: u32, upload: u32)

  const NOTHING: Record := Record(0, 0, 0)

  /** Record n of the history; there was nothing before the first. */
  function At(h: seq<Record>, n: int): Record
    requires n < |h|
  {
    if n < 0 then NOTHING else h[n]
  }

  function EncRecord(r: Record): bytes {
    Enc16(r.users) + Enc32(r.download) + Enc32(r.upload)
  }

  /** Records lo up to hi of the history, in order. */
  function EncRecords(h: seq<Record>, lo: int, hi: int): bytes
    requires hi <= |h|
    decreases hi - lo
  {
    if lo >= hi then [] else EncRecords(h, lo, hi - 1) + EncRecord(At(h, hi - 1))
  }

  /** How many records are sent: the elapsed seconds in 32 bits, at most 299. */
  function Shown(now: u32, lastRefresh: u32): (n: nat)
    ensures n < STATS_SECONDES
  {
    var elapsed := (now - lastRefresh) % 0x1_0000_0000;
    if elapsed >= STATS_SECONDES then STATS_SECONDES - 1 else elapsed
  }

  // ----- one second of all sessions -----

  function Sum(ss: seq<Slot>, d: Direction): nat {
    if ss == [] then 0
    else Sum(ss[..|ss| - 1], d) +
         if Code(ss[|ss| - 1]) == SFTPWHO_EMPTY then 0
         else if d.Download? then ss[|ss| - 1].downloadCurrent else ss[|ss| - 1].uploadCurrent
  }

  /** Each living session counts with its own traffic, once, in its direction. */
  lemma {:induction false} SumAdds(a: seq<Slot>, b: seq<Slot>, d: Direction)
    ensures Sum(a + b, d) == Sum(a, d) + Sum(b, d)
    decreases |b|
  {
    if b == [] {
      assert a + b == a;
    } else {
      var n := |b| - 1;
      assert (a + b)[..|a + b| - 1] == a + b[..n];
      SumAdds(a, b[..n], d);
    }
  }

  lemma SumOfOne(s: Slot)
    ensures Sum([s], Download) == if s.status % 0x100 == 0 then 0 else s.downloadCurrent
    ensures Sum([s], Upload) == if s.status % 0x100 == 0 then 0 else s.uploadCurrent
  {
    assert [s][..0] == [];
  }

  // ----- reading the history back -----

  /** n records of ten bytes, big-endian: users, then download, then upload. */
  function ReadRecords(n: nat, u: bytes): (rs: seq<Record>)
    requires |u| >= 10 * n
    ensures |rs| == n
  {
    if n == 0 then []
    else [Record((u[0] as int) * 0x100 + u[1] as int, Dec32(u[2..]), Dec32(u[6..]))] + ReadRecords(n - 1, u[10..])
  }

  lemma RecordIsRead(r: Record, rest: bytes)
    ensures var u := EncRecord(r) + rest;
            |u| >= 10 && u[10..] == rest && Record((u[0] as int) * 0x100 + u[1] as int, Dec32(u[2..]), Dec32(u[6..])) == r
  {
    hide Enc32, Dec32;
    var u := EncRecord(r) + rest;
    assert u[2..] == Enc32(r.download) + (Enc32(r.upload) + rest);
    assert u[6..] == Enc32(r.upload) + rest;
    Dec32OfEnc(r.download, Enc32(r.upload) + rest);
    Dec32OfEnc(r.upload, rest);
    assert u[0] == r.users / 0x100 && u[1] == r.users % 0x100;
  }

  lemma {:induction false} FirstRecord(h: seq<Record>, lo: int, hi: int)
    requires lo < hi <= |h|
    ensures EncRecords(h, lo, hi) == EncRecord(At(h, lo)) + EncRecords(h, lo + 1, hi)
    decreases hi - lo
  {
    hide EncRecord;
    if lo + 1 < hi {
      FirstRecord(h, lo, hi - 1);
    }
  }

  /** Records lo up to hi, those before the first one being nothing. */
  function Window(h: seq<Record>, lo: int, hi: int): (rs: seq<Record>)
    requires lo <= hi <= |h|
    ensures |rs| == hi - lo
    ensures forall i :: 0 <= i < |rs| ==> rs[i] == At(h, lo + i)
  {
    seq(hi - lo, i requires 0 <= i < hi - lo => At(h, lo + i))
  }

  lemma WindowCons(h: seq<Record>, lo: int, hi: int)
    requires lo < hi <= |h|
    ensures Window(h, lo, hi) == [At(h, lo)] + Window(h, lo + 1, hi)
  {
    var a, b := Window(h, lo, hi), Window(h, lo + 1, hi);
    forall i | 0 <= i < hi - lo ensures a[i] == ([At(h, lo)] + b)[i] {
      if i > 0 {
        var j := i - 1;
        assert b[j] == At(h, lo + 1 + j);
        assert lo + 1 + j == lo + i;
      }
    }
  }

  /** Who receives the records reads the history. */
  lemma {:induction false} HistoryIsRead(h: seq<Record>, lo: int, hi: int, rest: bytes)
    requires lo <= hi <= |h|
    ensures |EncRecords(h, lo, hi)| == 10 * (hi - lo)
    ensures ReadRecords(hi - lo, EncRecords(h, lo, hi) + rest) == Window(h, lo, hi)
    decreases hi - lo
  {
    hide EncRecord, Dec32, EncRecords, Window, At;
    if lo == hi {
      NoRecords(h, lo);
      assert Window(h, lo, hi) == [];
    } else {
      HistoryIsRead(h, lo + 1, hi, rest);
      FirstRecord(h, lo, hi);
      WindowCons(h, lo, hi);
      var more := EncRecords(h, lo + 1, hi) + rest;
      assert EncRecords(h, lo, hi) + rest == EncRecord(At(h, lo)) + more;
      RecordIsRead(At(h, lo), more);
      RecordIsRead(At(h, lo), []);
      assert EncRecord(At(h, lo)) + [] == EncRecord(At(h, lo));
    }
  }

  lemma LivingBound(ss: seq<Slot>)
    ensures Living(ss) <= |ss|
  {
  }

  /** The sums in 32 bits. */
  function Snapshot(ss: seq<Slot>): Record
    requires |ss| <= SFTPWHO_MAXCLIENT
  {
    LivingBound(ss);
    Record(Living(ss), Sum(ss, Download) % 0x1_0000_0000, Sum(ss, Upload) % 0x1_0000_0000)
  }

  lemma {:induction false} ModSum(a: nat, b: nat)
    ensures (a % 0x1_0000_0000 + b) % 0x1_0000_0000 == (a + b) % 0x1_0000_0000
  {
  }

  class Stats {
    const users: array<u16>
    const download: array<u32>
    const upload: array<u32>
    var writePos: nat
    /** Every record ever written. */
    ghost var history: seq<Record>

    ghost predicate Shaped()
      reads this
    {
      && users.Length == download.Length == upload.Length == STATS_SECONDES
      && download != upload
      && writePos == |history| % STATS_SECONDES
    }

    ghost function Slot(i: nat): Record
      requires Shaped() && i < STATS_SECONDES
      reads this, users, download, upload
    {
      Record(users[i], download[i], upload[i])
    }

    /** The ring holds the latest 300 records, each at its number modulo 300. */
    ghost predicate Valid()
      reads this, users, download, upload
    {
      && Shaped()
      && forall n :: |history| - STATS_SECONDES <= n < |history| ==> Slot(n % STATS_SECONDES) == At(history, n)
    }

    /** StatsNew: all zero. */
    constructor ()
      ensures Valid() && history == []
    {
      users := new u16[STATS_SECONDES](_ => 0);
      download := new u32[STATS_SECONDES](_ => 0);
      upload := new u32[STATS_SECONDES](_ => 0);
      writePos, history := 0, [];
    }

    method Put(r: Record)
      requires Valid()
      modifies this, users, download, upload
      ensures Valid() && history == old(history) + [r]
    {
      users[writePos] := r.users;
      download[writePos] := r.download;
      upload[writePos] := r.upload;
      writePos := (writePos + 1) % STATS_SECONDES;
      history := history + [r];
      forall n | |history| - STATS_SECONDES <= n < |history| ensures Slot(n % STATS_SECONDES) == At(history, n) {
        if n < |history| - 1 {
          assert n % STATS_SECONDES != (|history| - 1) % STATS_SECONDES;
          assert old(Slot(n % STATS_SECONDES)) == At(old(history), n);
        }
      }
    }

    /** StatsUpdate: adds up the sessions of the shared table. */
    method StatsUpdate(who: seq<WhoTable.Slot>)
      requires Valid() && |who| == SFTPWHO_MAXCLIENT
      modifies this, users, download, upload
      ensures Valid() && history == old(history) + [Snapshot(who)]
    {
      var down: u32, up: u32, n := 0, 0, 0;
      for i := 0 to |who|
        invariant n == Living(who[..i]) && n <= i
        invariant down == Sum(who[..i], Download) % 0x1_0000_0000
        invariant up == Sum(who[..i], Upload) % 0x1_0000_0000
        modifies {}
      {
        assert who[..i + 1][..i] == who[..i];
        if Code(who[i]) != SFTPWHO_EMPTY {
          n := n + 1;
          ModSum(Sum(who[..i], Download), who[i].downloadCurrent);
          ModSum(Sum(who[..i], Upload), who[i].uploadCurrent);
          down := (down + who[i].downloadCurrent) % 0x1_0000_0000;
          up := (up + who[i].uploadCurrent) % 0x1_0000_0000;
        }
      }
      assert who[..|who|] == who;
      Put(Record(n, down, up));
    }

    /** The record numbered n, from its place in the ring. */
    method SendSlot(i: nat, ghost n: int, b: Buffer)
      requires Valid() && b.Valid()
      requires |history| - STATS_SECONDES <= n < |history| && i == n % STATS_SECONDES
      modifies b, b.data
      ensures b.Appended(EncRecord(At(history, n))) && Valid()
    {
      hide EncRecord;
      assert Slot(i) == At(history, n);
      PutRecord(b, Record(users[i], download[i], upload[i]));
    }

    /**
      StatsSend: the number of records, then exactly that many, the latest ones in order.
     */
    method StatsSend(now: u32, lastRefresh: u32, b: Buffer)
      requires Valid() && b.Valid()
      modifies b, b.data
      ensures var n := Shown(now, lastRefresh);
              b.Appended(Enc32(n) + EncRecords(history, |history| - n, |history|))
    {
      hide Enc32, EncRecord, EncRecords, At, Slot;
      var showTime := (now - lastRefresh) % 0x1_0000_0000;
      if showTime >= STATS_SECONDES {
        showTime := STATS_SECONDES - 1;
      }
      var i := (writePos - showTime + STATS_SECONDES) % STATS_SECONDES;
      b.BufferPutInt32(showTime);
      ghost var lo, m := |history| - showTime, 0;
      NoRecords(history, lo);
      RingStart(|history|, showTime);
      while i != writePos
        invariant 0 <= m <= showTime && i == (lo + m) % STATS_SECONDES
        invariant b.Appended(Enc32(showTime) + EncRecords(history, lo, lo + m))
        invariant Valid()
        decreases showTime - m
      {
        SendSlot(i, lo + m, b);
        OneMoreRecord(history, lo, lo + m);
        RingNext(lo + m);
        i := (i + 1) % STATS_SECONDES;
        m := m + 1;
      }
      RingFull(lo, m, showTime);
    }
  }

  lemma NoRecords(h: seq<Record>, lo: int)
    requires lo <= |h|
    ensures EncRecords(h, lo, lo) == []
  {
  }

  lemma OneMoreRecord(h: seq<Record>, lo: int, hi: int)
    requires lo <= hi < |h|
    ensures EncRecords(h, lo, hi + 1) == EncRecords(h, lo, hi) + EncRecord(At(h, hi))
  {
  }

  lemma RingStart(n: nat, back: nat)
    requires back < STATS_SECONDES
    ensures (n % STATS_SECONDES - back + STATS_SECONDES) % STATS_SECONDES == (n - back) % STATS_SECONDES
  {
  }

  lemma RingNext(n: int)
    ensures (n % STATS_SECONDES + 1) % STATS_SECONDES == (n + 1) % STATS_SECONDES
  {
  }

  /** Fewer than 300 steps meet the write position only at the end. */
  lemma RingFull(lo: int, m: nat, n: nat)
    requires m <= n < STATS_SECONDES && (lo + m) % STATS_SECONDES == (lo + n) % STATS_SECONDES
    ensures m == n
  {
  }

  method PutRecord(b: Buffer, r: Record)
    requires b.Valid()
    modifies b, b.data
    ensures b.Appended(EncRecord(r))
  {
    hide Enc32, Enc16;
    b.BufferPutInt16(r.users);
    b.BufferPutInt32(r.download);
    b.BufferPutInt32(r.upload);
  }
}
