/** NUL-terminated strings in character arrays. */
module CStrings {

  const NUL: char := '\0'

  predicate Terminated(s: seq<char>) {
    NUL in s
  }

  function TextLen(s: seq<char>): (n: nat)
    requires Terminated(s)
    ensures n < |s| && s[n] == NUL
    ensures forall k :: 0 <= k < n ==> s[k] != NUL
  {
    if s[0] == NUL then 0 else 1 + TextLen(s[1..])
  }

  /** The string an array holds: everything before the first NUL. */
  function Text(s: seq<char>): (t: string)
    requires Terminated(s)
    ensures NUL !in t
  {
    s[..TextLen(s)]
  }

  lemma TextIs(s: seq<char>, n: nat)
    requires n < |s| && s[n] == NUL
    requires forall k :: 0 <= k < n ==> s[k] != NUL
    ensures Terminated(s) && TextLen(s) == n && Text(s) == s[..n]
  {
  }

  method StrLen(a: array<char>, start: nat) returns (n: nat)
    requires start <= a.Length && Terminated(a[start..])
    ensures n == TextLen(a[start..])
  {
    n := 0;
    while a[start + n] != NUL
      invariant start + n < a.Length
      invariant forall k :: start <= k < start + n ==> a[k] != NUL
      invariant n <= TextLen(a[start..])
      decreases a.Length - start - n
    {
      assert a[start + n] == a[start..][n];
      n := n + 1;
      assert a[start..][TextLen(a[start..])] == NUL;
    }
    assert a[start + n] == a[start..][n];
  }

  method StrDup(a: array<char>) returns (r: array<char>)
    requires Terminated(a[..])
    ensures fresh(r) && Terminated(r[..]) && Text(r[..]) == Text(a[..])
  {
    var n := StrLen(a, 0);
    assert a[0..] == a[..];
    r := new char[n + 1](i requires 0 <= i < n + 1 reads a => if i < a.Length then a[i] else NUL);
    TextIs(r[..], n);
  }

  /** MyStrCopy(buf + at, buf + at + 1, n): moves n bytes down by one. */
  method MyStrCopy<T>(buf: array<T>, at: nat, n: nat)
    requires at + 1 + n <= buf.Length
    modifies buf
    ensures forall k :: at <= k < at + n ==> buf[k] == old(buf[k + 1])
    ensures forall k :: 0 <= k < at || at + n <= k < buf.Length ==> buf[k] == old(buf[k])
  {
    var i := 0;
    while i < n
      invariant i <= n
      invariant forall k :: at <= k < at + i ==> buf[k] == old(buf[k + 1])
      invariant forall k :: 0 <= k < at || at + i <= k < buf.Length ==> buf[k] == old(buf[k])
    {
      buf[at + i] := buf[at + i + 1];
      i := i + 1;
    }
  }
}
