/** Buffer.c: a byte buffer that grows at the end and is read from the front. */
module Buffers {
  import opened Wrappers
  import opened Bytes

  const DEFAULT_GROW: nat := 256
  const HANDLE_SIZE: nat := 6

  /** A handle on the wire: a two-byte string, the second byte being NUL. */
  function EncHandle(h: int): bytes
    requires 0 <= h < 0x100 - 48
  {
    [0, 0, 0, 2, h + 48, 0]
  }

  // ----- what the getters take from the unread bytes -----

  function TakeInt8(u: bytes): (r: (byte, nat)) {
    if |u| < 1 then (0, 0) else (u[0], 1)
  }

  function TakeInt32(u: bytes): (r: (u32, nat)) {
    if |u| < 4 then (0, 0) else (Dec32(u), 4)
  }

  function TakeInt64(u: bytes): (r: (u64, nat)) {
    if |u| < 8 then (0, 0) else (Dec64(u), 8)
  }

  /** A string, or nothing when its bytes are not all there; the length is consumed either way. */
  function TakeString(u: bytes): (r: (Option<text>, nat))
    ensures r.1 <= |u|
  {
    var (size, k) := TakeInt32(u);
    if k + size > |u| then (None, k) else (Some(u[k..k + size]), k + size)
  }

  /** The two bytes after the length are not checked for. */
  function TakeHandle(u: bytes): (r: (int, nat)) {
    var (size, k) := TakeInt32(u);
    if size != 2 then (-1, k) else ((if k < |u| then u[k] as int else 0) - 48, k + 2)
  }

  lemma StringRoundTrip(s: text, rest: bytes)
    ensures TakeString(EncString(s) + rest) == (Some(s), |EncString(s)|)
  {
    hide Enc32, Dec32;
    var u := EncString(s) + rest;
    assert u == Enc32(|s|) + (s + rest);
    Dec32OfEnc(|s|, s + rest);
    assert u[4..4 + |s|] == s;
  }

  lemma HandleRoundTrip(h: int, rest: bytes)
    requires 0 <= h < 0x100 - 48
    ensures TakeHandle(EncHandle(h) + rest) == (h, HANDLE_SIZE)
  {
  }

  class Buffer {
    var data: array<byte>
    var length: nat
    var read: nat
    var size: nat
    var fastClean: bool
    /** Everything written and not yet cleaned away. */
    ghost var content: bytes

    ghost predicate Valid()
      reads this, data
    {
      read <= length <= size == data.Length && content == data[..length]
    }

    ghost function Unread(): bytes
      reads this
    {
      if read <= |content| then content[read..] else []
    }

    /** The call added x at the end and did nothing else. */
    twostate predicate Appended(x: bytes)
      reads this, data
    {
      && Valid()
      && content == old(content) + x
      && read == old(read) && fastClean == old(fastClean)
      && (data == old(data) || fresh(data))
    }

    /** If there was room, the call left every other byte of the array where it was. */
    twostate predicate InPlace(n: nat)
      reads this, data
    {
      old(length + n <= size == data.Length) ==>
        && data == old(data) && size == old(size)
        && forall k :: 0 <= k < old(length) || old(length) + n <= k < data.Length ==> data[k] == old(data[k])
    }

    /** The call moved the read cursor by n and did nothing else. */
    twostate predicate Advanced(n: nat)
      reads this, data
    {
      && Valid()
      && read == old(read) + n
      && content == old(content) && length == old(length) && size == old(size)
      && fastClean == old(fastClean) && data == old(data)
    }

    /** The call read on until `rest` was left, and did nothing else. */
    twostate predicate ReadTo(rest: bytes)
      reads this, data
    {
      && Valid() && old(read) <= read && Unread() == rest
      && content == old(content) && length == old(length) && size == old(size)
      && fastClean == old(fastClean) && data == old(data)
    }

    constructor ()
      ensures Valid() && fresh(data)
      ensures content == [] && read == 0 && !fastClean && size == DEFAULT_GROW
    {
      size := DEFAULT_GROW;
      data := new byte[DEFAULT_GROW];
      length, read, fastClean, content := 0, 0, false, [];
    }

    /** realloc: a fresh array that starts with the bytes in use. */
    method Realloc(newSize: nat)
      requires Valid() && length <= newSize
      modifies this`data, this`size
      ensures Valid() && fresh(data) && size == newSize
    {
      var fresh' := new byte[newSize];
      for i := 0 to length
        invariant forall k :: 0 <= k < i ==> fresh'[k] == data[k]
        modifies fresh'
      {
        fresh'[i] := data[i];
      }
      data, size := fresh', newSize;
      assert data[..length] == content;
    }

    method BufferGrow(toAdd: nat)
      requires Valid()
      modifies this`data, this`size
      ensures Valid() && fresh(data) && size == old(size) + toAdd
    {
      Realloc(size + toAdd);
    }

    method BufferEnsureFreeCapacity(n: nat)
      requires Valid()
      modifies this`data, this`size
      ensures Appended([]) && length + n <= size && length == old(length)
    {
      if length + n > size {
        BufferGrow(n);
      }
    }

    /** memmove of the unread bytes to the front. */
    method MoveDown()
      requires Valid()
      modifies data
      ensures data[..length - read] == old(data[read..length])
    {
      ghost var was := data[..];
      for i := 0 to length - read
        invariant forall k :: 0 <= k < i ==> data[k] == was[read + k]
        invariant forall k :: i <= k < data.Length ==> data[k] == was[k]
      {
        data[i] := data[read + i];
      }
    }

    /** Drops what has been read; the unread bytes stay the same even when the array shrinks. */
    method BufferClean()
      requires Valid()
      modifies this, data
      ensures Valid() && (data == old(data) || fresh(data))
      ensures Unread() == old(Unread()) && read == 0 && fastClean == old(fastClean)
      ensures old(read) > 0 && !fastClean && DEFAULT_GROW <= old(size) / 4 && length < old(size) / 4 ==> size == old(size) / 4
      ensures length == |old(Unread())|
    {
      if read > 0 {
        ghost var u := data[read..length];
        MoveDown();
        length := if length > read then length - read else 0;
        read := 0;
        content := u;
        if !fastClean {
          var nextSize := size / 4;
          if length < nextSize && nextSize >= DEFAULT_GROW {
            Realloc(nextSize);
          }
        }
      }
    }

    // ----- putting -----

    method BufferPutInt8FAST(nb: byte)
      requires Valid() && length < size
      modifies this`length, this`content, data
      ensures Appended([nb]) && InPlace(1)
    {
      data[length] := nb;
      length := length + 1;
      content := content + [nb];
    }

    method BufferPutInt8(nb: byte)
      requires Valid()
      modifies this, data
      ensures Appended([nb])
    {
      if length + 1 > size {
        BufferGrow(DEFAULT_GROW);
      }
      BufferPutInt8FAST(nb);
    }

    method BufferPutInt16(nb: u16)
      requires Valid()
      modifies this, data
      ensures Appended(Enc16(nb))
    {
      if length + 2 > size {
        BufferGrow(DEFAULT_GROW);
      }
      BufferPutInt8FAST(nb / 0x100);
      BufferPutInt8FAST(nb % 0x100);
    }

    /** The four stores of a 32-bit integer. */
    method StoreInt32(nb: u32)
      requires Valid() && length + 4 <= size
      modifies this`length, this`content, data
      ensures Appended(Enc32(nb)) && InPlace(4)
    {
      BufferPutInt8FAST(nb / 0x100_0000);
      BufferPutInt8FAST(nb / 0x1_0000 % 0x100);
      BufferPutInt8FAST(nb / 0x100 % 0x100);
      BufferPutInt8FAST(nb % 0x100);
    }

    method BufferPutInt32(nb: u32)
      requires Valid()
      modifies this, data
      ensures Appended(Enc32(nb)) && InPlace(4)
    {
      if length + 4 > size {
        BufferGrow(DEFAULT_GROW);
      }
      StoreInt32(nb);
    }

    method BufferPutInt64(nb: u64)
      requires Valid()
      modifies this, data
      ensures Appended(Enc64(nb))
    {
      hide Enc32;
      if length + 8 > size {
        BufferGrow(DEFAULT_GROW);
      }
      StoreInt32(nb / 0x1_0000_0000);
      StoreInt32(nb % 0x1_0000_0000);
    }

    /** memcpy to the write position. */
    method CopyIn(s: bytes)
      requires Valid() && length + |s| <= size
      modifies this`length, this`content, data
      ensures Appended(s)
    {
      ghost var was := content;
      for i := 0 to |s|
        invariant forall k :: 0 <= k < length ==> data[k] == was[k]
        invariant forall k :: 0 <= k < i ==> data[length + k] == s[k]
        modifies data
      {
        data[length + i] := s[i];
      }
      length := length + |s|;
      content := was + s;
    }

    method BufferPutRawData(s: bytes)
      requires Valid()
      modifies this, data
      ensures Appended(s)
    {
      if length + |s| > size {
        BufferGrow(length + |s| - size + DEFAULT_GROW);
      }
      CopyIn(s);
    }

    method BufferPutString(s: text)
      requires Valid()
      modifies this, data
      ensures Appended(EncString(s))
    {
      hide Enc32;
      if length + |s| + 4 > size {
        BufferGrow(length + |s| + 4 - size + DEFAULT_GROW);
      }
      StoreInt32(|s|);
      CopyIn(s);
    }

    /** BufferPutData and BufferPutPacket: a length and that many bytes. */
    method BufferPutData(s: text)
      requires Valid()
      modifies this, data
      ensures Appended(EncString(s))
    {
      hide Enc32;
      BufferPutInt32(|s|);
      BufferPutRawData(s);
    }

    method BufferPutHandle(h: int)
      requires Valid() && 0 <= h < 0x100 - 48
      modifies this, data
      ensures Appended(EncHandle(h))
    {
      if length + HANDLE_SIZE > size {
        BufferGrow(length + HANDLE_SIZE - size + DEFAULT_GROW);
      }
      StoreInt32(2);
      BufferPutInt8FAST(h + 48);
      BufferPutInt8FAST(0);
      assert Enc32(2) == [0, 0, 0, 2];
    }

    // ----- moving the write position -----

    /** The bytes up to the new position count as written, whatever they are. */
    method BufferSetCurrentWritePosition(v: nat)
      requires Valid() && read <= v <= size
      modifies this`length, this`content
      ensures Valid() && length == v && content == data[..v]
    {
      length := v;
      content := data[..v];
    }

    method BufferIncrCurrentWritePosition(n: nat)
      requires Valid() && length + n <= size
      modifies this`length, this`content
      ensures Valid() && length == old(length) + n && content == data[..length]
    {
      BufferSetCurrentWritePosition(length + n);
    }

    method BufferIncrCurrentReadPosition(n: nat)
      requires Valid() && read + n <= length
      modifies this`read
      ensures Advanced(n)
    {
      read := read + n;
    }

    /** A system read into the free space at the write position, which stays where it is. */
    method ReadInto(s: bytes)
      requires Valid() && length + |s| <= size
      modifies data
      ensures Valid() && data[length..length + |s|] == s
    {
      for i := 0 to |s|
        invariant data[..length] == content
        invariant forall k :: 0 <= k < i ==> data[length + k] == s[k]
      {
        data[length + i] := s[i];
      }
    }

    // ----- getting -----

    method BufferReadData(n: nat)
      requires Valid()
      modifies this`read
      ensures Advanced(if n <= |old(Unread())| then n else 0)
    {
      if read + n <= length {
        read := read + n;
      }
    }

    method BufferGetInt8() returns (nb: byte)
      requires Valid()
      modifies this`read
      ensures Advanced(TakeInt8(old(Unread())).1) && nb == TakeInt8(old(Unread())).0
    {
      if read + 1 > length {
        return 0;
      }
      nb := data[read];
      read := read + 1;
    }

    method BufferGetInt8FAST() returns (nb: byte)
      requires Valid() && read < length
      modifies this`read
      ensures Advanced(1) && nb == old(Unread())[0]
    {
      nb := data[read];
      read := read + 1;
    }

    method BufferGetInt32() returns (nb: u32)
      requires Valid()
      modifies this`read
      ensures Advanced(TakeInt32(old(Unread())).1) && nb == TakeInt32(old(Unread())).0
    {
      if read + 4 > length {
        return 0;
      }
      nb := (data[read] as int) * 0x100_0000 + (data[read + 1] as int) * 0x1_0000
         + (data[read + 2] as int) * 0x100 + data[read + 3] as int;
      read := read + 4;
    }

    method BufferGetInt64() returns (nb: u64)
      requires Valid()
      modifies this`read
      ensures Advanced(TakeInt64(old(Unread())).1) && nb == TakeInt64(old(Unread())).0
    {
      if read + 8 > length {
        return 0;
      }
      var hi := BufferGetInt32();
      var lo := BufferGetInt32();
      nb := (hi as int) * 0x1_0000_0000 + lo as int;
    }

    /** A pointer into the array: its start there, and the size. */
    method BufferGetData() returns (start: Option<nat>, size': u32)
      requires Valid()
      modifies this`read
      ensures Advanced(TakeString(old(Unread())).1)
      ensures start.Some? <==> TakeString(old(Unread())).0.Some?
      ensures start.Some? ==>
                && start.value + size' == read
                && content[start.value..read] == TakeString(old(Unread())).0.value
    {
      size' := BufferGetInt32();
      if read + size' > length {
        return None, size';
      }
      start := Some(read);
      read := read + size';
    }

    method BufferGetString() returns (s: Option<text>)
      requires Valid()
      modifies this`read
      ensures Advanced(TakeString(old(Unread())).1) && s == TakeString(old(Unread())).0
    {
      hide Dec32;
      var n := BufferGetInt32();
      if read + n > length {
        return None;
      }
      s := Some(data[read..read + n]);
      assert forall k :: read <= k < read + n ==> data[k] == content[k];
      assert s.value == content[read..read + n];
      ghost var u := old(Unread());
      assert content[read..read + n] == u[read - old(read)..read - old(read) + n];
      read := read + n;
    }

    /** Takes the two bytes of a handle without looking whether they are there. */
    method BufferGetHandle() returns (h: int)
      requires Valid()
      requires TakeHandle(Unread()).1 <= |Unread()|
      modifies this`read
      ensures Advanced(TakeHandle(old(Unread())).1) && h == TakeHandle(old(Unread())).0
    {
      h := -1;
      var n := BufferGetInt32();
      if n == 2 {
        h := data[read] as int - 48;
        read := read + 2;
      }
    }
  }
}
