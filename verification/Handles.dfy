/** Handle.c, and the part of SftpServer.c that derives the session's status from the handles. */
module Handles {
  import opened Wrappers
  import opened Bytes
  import opened WhoTable

  const HANDLE_NUMBER: nat := 100

  datatype HandleState = UNUSED | DIR | FILE

  datatype Handle = Handle(id: int, state: HandleState, path: Option<text>, fd: int, fileIsText: bool, flags: u32,
                           filePos: u64, fileSize: u64)

  type Handles = seq<Handle>

  predicate WriteOnly(flags: u32) {
    flags % 2 == 1
  }

  /** FILE_IS_UPLOAD: O_WRONLY or O_RDWR. */
  predicate IsUpload(flags: u32) {
    flags % 2 == 1 || flags / 2 % 2 == 1
  }

  // ----- the table as a sequence -----

  ghost predicate Numbered(hs: Handles) {
    |hs| == HANDLE_NUMBER && forall i :: 0 <= i < |hs| ==> hs[i].id == i
  }

  function NoHandles(): (hs: Handles)
    ensures Numbered(hs) && forall i :: 0 <= i < |hs| ==> hs[i].state == UNUSED
  {
    seq(HANDLE_NUMBER, i => Handle(i, UNUSED, None, -1, false, 0, 0, 0))
  }

  function FirstUnused(hs: Handles): (i: nat)
    ensures i <= |hs|
    ensures forall k :: 0 <= k < i ==> hs[k].state != UNUSED
    ensures i < |hs| ==> hs[i].state == UNUSED
  {
    if hs == [] || hs[0].state == UNUSED then 0 else 1 + FirstUnused(hs[1..])
  }

  /** The highest slot in that state, or -1. */
  function LastOpen(hs: Handles, state: HandleState): (i: int)
    ensures -1 <= i < |hs|
    ensures i >= 0 ==> hs[i].state == state
    ensures forall k :: i < k < |hs| ==> hs[k].state != state
  {
    if hs == [] then -1
    else if hs[|hs| - 1].state == state then |hs| - 1
    else LastOpen(hs[..|hs| - 1], state)
  }

  predicate InTable(hs: Handles, pos: int) {
    0 <= pos < |hs|
  }

  predicate IsFile(hs: Handles, pos: int) {
    InTable(hs, pos) && hs[pos].state == FILE
  }

  predicate IsDir(hs: Handles, pos: int) {
    InTable(hs, pos) && hs[pos].state == DIR
  }

  function Opened(h: Handle, state: HandleState, path: Option<text>, fd: int, fileIsText: bool, flags: u32): Handle {
    h.(state := state, path := path, fd := fd, fileIsText := fileIsText, flags := flags)
  }

  function Closed(h: Handle): Handle {
    h.(fd := -1, path := None, state := UNUSED)
  }

  function CloseSlot(hs: Handles, pos: int): Handles {
    if InTable(hs, pos) then hs[pos := Closed(hs[pos])] else hs
  }

  function CloseFiles(hs: Handles): (r: Handles)
    ensures |r| == |hs|
    ensures forall k :: 0 <= k < |hs| ==> r[k] == if hs[k].state == FILE then Closed(hs[k]) else hs[k]
  {
    seq(|hs|, i requires 0 <= i < |hs| => if hs[i].state == FILE then Closed(hs[i]) else hs[i])
  }

  function OpenCount(hs: Handles, state: HandleState): nat {
    if hs == [] then 0 else OpenCount(hs[..|hs| - 1], state) + if hs[|hs| - 1].state == state then 1 else 0
  }

  lemma {:induction false} CloseLowersCount(hs: Handles, pos: nat)
    requires pos < |hs| && hs[pos].state == FILE
    ensures OpenCount(CloseSlot(hs, pos), FILE) == OpenCount(hs, FILE) - 1
  {
    var t := hs[..|hs| - 1];
    if pos == |hs| - 1 {
      assert CloseSlot(hs, pos)[..|hs| - 1] == t;
    } else {
      assert CloseSlot(hs, pos)[..|hs| - 1] == CloseSlot(t, pos);
      CloseLowersCount(t, pos);
    }
  }

  // ----- the session's status word -----

  const FILE_FIELD: nat := 199

  /** The fields of the shared session slot that follow the open files. */
  datatype Who = Who(file: bytes, status: u32, downloadPos: u32)

  function Cut(path: Option<text>): bytes {
    if path.None? then [] else if |path.value| <= FILE_FIELD then path.value else path.value[..FILE_FIELD]
  }

  /** filePos * 100 / fileSize in 64 bits, kept in 32. */
  function Percent(h: Handle): u32 {
    if h.fileSize > 0 then h.filePos * 100 % 0x1_0000_0000_0000_0000 / h.fileSize % 0x1_0000_0000 else 0
  }

  /** The option bits with another low byte. */
  function WithCode(status: u32, code: nat): u32
    requires code < 0x100
  {
    status / 0x100 * 0x100 + code
  }

  function StatusOf(hs: Handles): (code: nat)
    ensures code < 4
  {
    var i := LastOpen(hs, FILE);
    if i < 0 then SFTPWHO_IDLE else if WriteOnly(hs[i].flags) then SFTPWHO_PUT else SFTPWHO_GET
  }

  function UpdateInfo(hs: Handles, w: Who): Who {
    var i := LastOpen(hs, FILE);
    var status := WithCode(w.status, StatusOf(hs));
    if i < 0 then w.(file := [], status := status)
    else Who(Cut(hs[i].path), status, Percent(hs[i]))
  }

  /** The low byte, the file name and the percentage are those of the highest open file. */
  ghost predicate Reflects(w: Who, hs: Handles) {
    && w.status % 0x100 == StatusOf(hs)
    && var i := LastOpen(hs, FILE);
       if i < 0 then w.file == [] else w.file == Cut(hs[i].path) && w.downloadPos == Percent(hs[i])
  }

  /** An update makes the status reflect the table and leaves the option bits alone. */
  lemma UpdateReflects(hs: Handles, w: Who)
    ensures Reflects(UpdateInfo(hs, w), hs)
    ensures UpdateInfo(hs, w).status / 0x100 == w.status / 0x100
  {
  }

  /** The status depends on the slots of open files only. */
  lemma {:induction false} SameFilesSameStatus(hs: Handles, ks: Handles)
    requires |hs| == |ks|
    requires forall i :: 0 <= i < |hs| ==> (hs[i].state == FILE <==> ks[i].state == FILE) && (hs[i].state == FILE ==> hs[i] == ks[i])
    ensures LastOpen(hs, FILE) == LastOpen(ks, FILE)
    ensures StatusOf(hs) == StatusOf(ks)
    ensures forall w :: Reflects(w, hs) <==> Reflects(w, ks)
  {
    var i, j := LastOpen(hs, FILE), LastOpen(ks, FILE);
    assert i == j;
  }

  // ----- the table in memory -----

  class HandleTable {
    const slots: array<Handle>
    ghost var hs: Handles

    ghost predicate Valid()
      reads this, slots
    {
      hs == slots[..] && Numbered(hs)
    }

    /** HandleInit: every slot is unused and knows its own number. */
    constructor ()
      ensures Valid() && fresh(slots) && hs == NoHandles()
    {
      slots := new Handle[HANDLE_NUMBER](i => Handle(i, UNUSED, None, -1, false, 0, 0, 0));
      new;
      hs := slots[..];
    }

    method Set(pos: nat, h: Handle)
      requires Valid() && pos < HANDLE_NUMBER && h.id == pos
      modifies this, slots
      ensures Valid() && hs == old(hs)[pos := h]
    {
      slots[pos] := h;
      hs := hs[pos := h];
    }

    /** HandleNew: the first unused slot, which keeps its number and its old position fields. */
    method HandleNew(state: HandleState, path: Option<text>, fd: int, fileIsText: bool, flags: u32) returns (i: int)
      requires Valid()
      modifies this, slots
      ensures Valid()
      ensures var k := FirstUnused(old(hs));
              if k < HANDLE_NUMBER then i == k && hs == old(hs)[k := Opened(old(hs)[k], state, path, fd, fileIsText, flags)]
              else i == -1 && hs == old(hs)
    {
      for k := 0 to slots.Length
        invariant k <= FirstUnused(hs)
        invariant Valid() && hs == old(hs)
      {
        if slots[k].state == UNUSED {
          Set(k, Opened(slots[k], state, path, fd, fileIsText, flags));
          return k;
        }
      }
      return -1;
    }

    /** HandleGetLastOpen: the loop runs upwards and keeps the last hit. */
    method HandleGetLastOpen(state: HandleState) returns (i: int)
      requires Valid()
      ensures i == LastOpen(hs, state)
    {
      i := -1;
      for k := 0 to slots.Length
        invariant i == LastOpen(hs[..k], state)
      {
        assert hs[..k + 1][..k] == hs[..k];
        if slots[k].state == state {
          i := k;
        }
      }
      assert hs[..slots.Length] == hs;
    }

    method HandleClose(pos: int)
      requires Valid()
      modifies this, slots
      ensures Valid() && hs == CloseSlot(old(hs), pos)
    {
      if 0 <= pos < slots.Length {
        Set(pos, Closed(slots[pos]));
      }
    }

    /** UpdateInfoForOpenFiles. */
    method UpdateInfoForOpenFiles(who: Who) returns (w: Who)
      requires Valid()
      ensures w == UpdateInfo(hs, who)
    {
      hide Percent, Cut, LastOpen;
      var last := HandleGetLastOpen(FILE);
      if last >= 0 {
        var h := slots[last];
        var code := if WriteOnly(h.flags) then SFTPWHO_PUT else SFTPWHO_GET;
        w := Who(Cut(h.path), WithCode(who.status, code), Percent(h));
      } else {
        w := who.(file := [], status := WithCode(who.status, SFTPWHO_IDLE));
      }
    }

    /** CloseInfoForOpenFiles: closes the highest file until none is open; directories stay. */
    method CloseInfoForOpenFiles()
      requires Valid()
      modifies this, slots
      ensures Valid() && hs == CloseFiles(old(hs))
      ensures LastOpen(hs, FILE) == -1
    {
      hide OpenCount;
      ghost var was := hs;
      var last := HandleGetLastOpen(FILE);
      while last >= 0
        invariant Valid()
        invariant last == LastOpen(hs, FILE)
        invariant forall k :: 0 <= k < |was| ==> hs[k] == was[k] || (was[k].state == FILE && hs[k] == Closed(was[k]))
        decreases OpenCount(hs, FILE)
      {
        CloseLowersCount(hs, last);
        HandleClose(slots[last].id);
        last := HandleGetLastOpen(FILE);
      }
      forall k | 0 <= k < |was| ensures hs[k] == CloseFiles(was)[k] {
        assert hs[k].state != FILE;
      }
    }
  }
}
