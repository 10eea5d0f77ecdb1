/** Bytes, and integers as the big-endian byte strings of the wire (section 5 of RFC 4251). */
module Bytes {

  type byte = x: int | 0 <= x < 0x100
  type u16 = x: int | 0 <= x < 0x1_0000
  type u32 = x: int | 0 <= x < 0x1_0000_0000
  type u64 = x: int | 0 <= x < 0x1_0000_0000_0000_0000

  type bytes = seq<byte>
  /** Bytes that fit behind a 32-bit length. */
  type text = s: bytes | |s| < 0x1_0000_0000

  function Enc16(n: u16): (b: bytes)
    ensures |b| == 2
  {
    [n / 0x100, n % 0x100]
  }

  function Enc32(n: u32): (b: bytes)
    ensures |b| == 4
  {
    [n / 0x100_0000, n / 0x1_0000 % 0x100, n / 0x100 % 0x100, n % 0x100]
  }

  function Enc64(n: u64): (b: bytes)
    ensures |b| == 8
  {
    Enc32(n / 0x1_0000_0000) + Enc32(n % 0x1_0000_0000)
  }

  function Dec32(b: bytes): (n: u32)
    requires |b| >= 4
  {
    (b[0] as int) * 0x100_0000 + (b[1] as int) * 0x1_0000 + (b[2] as int) * 0x100 + b[3] as int
  }

  function Dec64(b: bytes): (n: u64)
    requires |b| >= 8
  {
    (Dec32(b[..4]) as int) * 0x1_0000_0000 + Dec32(b[4..])
  }

  /** A string on the wire: its length, then its bytes. */
  function EncString(s: text): (b: bytes)
    ensures |b| == 4 + |s|
  {
    Enc32(|s|) + s
  }

  lemma Dec32OfEnc(n: u32, rest: bytes)
    ensures Dec32(Enc32(n) + rest) == n
  {
    Split32(n);
  }

  lemma Split32(n: u32)
    ensures n == (n / 0x100_0000) * 0x100_0000 + (n / 0x1_0000 % 0x100) * 0x1_0000 + (n / 0x100 % 0x100) * 0x100 + n % 0x100
  {
    var a := n / 0x100;
    var b := a / 0x100;
    assert n / 0x1_0000 == b && n / 0x100_0000 == b / 0x100;
  }

  lemma EncOfDec32(b: bytes)
    requires |b| == 4
    ensures Enc32(Dec32(b)) == b
  {
    var n := Dec32(b);
    assert n / 0x100 == (b[0] as int) * 0x1_0000 + (b[1] as int) * 0x100 + b[2] as int;
    assert n / 0x1_0000 == (b[0] as int) * 0x100 + b[1] as int;
    assert n / 0x100_0000 == b[0] as int;
  }

  lemma Dec64OfEnc(n: u64, rest: bytes)
    ensures Dec64(Enc64(n) + rest) == n
  {
    hide Enc32, Dec32;
    var hi, lo := Enc32(n / 0x1_0000_0000), Enc32(n % 0x1_0000_0000);
    var b := Enc64(n) + rest;
    assert b[..4] == hi + [] && b[4..] == lo + rest;
    Dec32OfEnc(n / 0x1_0000_0000, []);
    Dec32OfEnc(n % 0x1_0000_0000, rest);
  }
}
