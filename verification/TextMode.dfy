/** The text-mode loops of DoRead and DoWrite: each CR LF becomes LF, in place. */
module TextMode {
  import opened Bytes
  import opened CStrings

  const CR: byte := 13
  const LF: byte := 10

  /** One pass from left to right. */
  function CrLfToLf(s: bytes): (r: bytes)
    ensures |r| <= |s|
    ensures s != [] ==> r != []
  {
    if |s| < 2 then s
    else if s[0] == CR && s[1] == LF then [LF] + CrLfToLf(s[2..])
    else [s[0]] + CrLfToLf(s[1..])
  }

  function Without(s: bytes, c: byte): bytes {
    if s == [] then [] else (if s[0] == c then [] else [s[0]]) + Without(s[1..], c)
  }

  predicate CrLfAt(s: bytes, i: int) {
    0 <= i < |s| - 1 && s[i] == CR && s[i + 1] == LF
  }

  predicate HasCrLf(s: bytes) {
    exists i | 0 <= i < |s| :: CrLfAt(s, i)
  }

  predicate HasCrCrLf(s: bytes) {
    exists i | 0 <= i < |s| :: s[i] == CR && CrLfAt(s, i + 1)
  }

  /** Everything but carriage returns survives, in order. */
  lemma {:induction false} KeepsAllButCr(s: bytes)
    ensures Without(CrLfToLf(s), CR) == Without(s, CR)
  {
    if |s| >= 2 {
      if s[0] == CR && s[1] == LF {
        assert s[1..][1..] == s[2..];
        KeepsAllButCr(s[2..]);
        assert CrLfToLf(s)[1..] == CrLfToLf(s[2..]);
      } else {
        KeepsAllButCr(s[1..]);
        assert CrLfToLf(s)[1..] == CrLfToLf(s[1..]);
      }
    }
  }

  lemma HasCrLfCons(c: byte, t: bytes)
    ensures HasCrLf([c] + t) <==> CrLfAt([c] + t, 0) || HasCrLf(t)
  {
    var s := [c] + t;
    forall i | 0 <= i < |t| && CrLfAt(t, i) ensures CrLfAt(s, i + 1) {}
    forall i | 1 <= i < |s| && CrLfAt(s, i) ensures CrLfAt(t, i - 1) {}
  }

  lemma HasCrCrLfCons(c: byte, t: bytes)
    ensures HasCrCrLf([c] + t) <==> (c == CR && CrLfAt(t, 0)) || HasCrCrLf(t)
  {
    var s := [c] + t;
    forall i | 0 <= i < |t| && t[i] == CR && CrLfAt(t, i + 1) ensures s[i + 1] == CR && CrLfAt(s, i + 2) {}
    forall i | 1 <= i < |s| && s[i] == CR && CrLfAt(s, i + 1) ensures t[i - 1] == CR && CrLfAt(t, i) {}
    if c == CR && CrLfAt(t, 0) {
      assert s[0] == CR && CrLfAt(s, 1);
    }
  }

  lemma FirstOfCrLf(s: bytes)
    requires s != []
    ensures CrLfToLf(s)[0] == if CrLfAt(s, 0) then LF else s[0]
  {
  }

  /** The pass leaves a CR LF behind exactly when its input has CR CR LF. */
  lemma {:induction false} CompleteUnlessCrCrLf(s: bytes)
    ensures HasCrLf(CrLfToLf(s)) <==> HasCrCrLf(s)
  {
    if |s| >= 2 {
      if CrLfAt(s, 0) {
        var t := s[2..];
        assert s == [CR] + ([LF] + t);
        CompleteUnlessCrCrLf(t);
        HasCrLfCons(LF, CrLfToLf(t));
        HasCrCrLfCons(LF, t);
        HasCrCrLfCons(CR, [LF] + t);
      } else {
        var t := s[1..];
        assert s == [s[0]] + t;
        CompleteUnlessCrCrLf(t);
        HasCrLfCons(s[0], CrLfToLf(t));
        HasCrCrLfCons(s[0], t);
        FirstOfCrLf(t);
        CrLfHead(s[0], t);
      }
    }
  }

  lemma CrLfHead(c: byte, t: bytes)
    requires t != [] && !CrLfAt([c] + t, 0)
    ensures CrLfAt([c] + CrLfToLf(t), 0) <==> c == CR && CrLfAt(t, 0)
  {
    FirstOfCrLf(t);
  }

  /** A second pass changes nothing exactly when the input has no CR CR LF. */
  lemma {:induction false} SecondPassIdle(s: bytes)
    ensures CrLfToLf(s) == s <==> !HasCrLf(s)
  {
    if |s| >= 2 {
      var t := s[1..];
      assert s == [s[0]] + t;
      HasCrLfCons(s[0], t);
      if CrLfAt(s, 0) {
        assert |CrLfToLf(s[2..])| <= |s| - 2;
      } else {
        SecondPassIdle(t);
        assert CrLfToLf(s)[1..] == CrLfToLf(t);
      }
    }
  }

  lemma PassStep(head: bytes, rest: bytes)
    requires |rest| >= 2
    ensures head + CrLfToLf(rest) ==
            if CrLfAt(rest, 0) then head + [LF] + CrLfToLf(rest[2..]) else head + [rest[0]] + CrLfToLf(rest[1..])
  {
  }

  lemma PassEnd(rest: bytes)
    requires |rest| < 2
    ensures CrLfToLf(rest) == rest
  {
  }

  /** One step of the loop at index `at`, `end` being where the text ends. */
  method StripAt(buf: array<byte>, start: nat, at: nat, end: nat) returns (newEnd: nat)
    requires start <= at && at + 1 < end <= buf.Length
    modifies buf
    ensures at < newEnd <= end
    ensures buf[start..at + 1] + CrLfToLf(buf[at + 1..newEnd]) == old(buf[start..at] + CrLfToLf(buf[at..end]))
    ensures forall k :: 0 <= k < start || end <= k < buf.Length ==> buf[k] == old(buf[k])
  {
    hide CrLfToLf;
    ghost var head, rest := buf[start..at], buf[at..end];
    PassStep(head, rest);
    if buf[at] == CR && buf[at + 1] == LF {
      MyStrCopy(buf, at, end - at - 1);
      newEnd := end - 1;
      assert buf[start..at + 1] == head + [LF];
      assert buf[at + 1..newEnd] == rest[2..];
    } else {
      newEnd := end;
      assert buf[start..at + 1] == head + [rest[0]];
      assert buf[at + 1..newEnd] == rest[1..];
    }
  }

  /** The in-place loop over the n bytes at `start`; bytes outside them are not touched. */
  method StripCr(buf: array<byte>, start: nat, n: nat) returns (m: nat)
    requires start + n <= buf.Length
    modifies buf
    ensures m <= n
    ensures buf[start..start + m] == CrLfToLf(old(buf[start..start + n]))
    ensures forall k :: 0 <= k < start || start + n <= k < buf.Length ==> buf[k] == old(buf[k])
  {
    hide CrLfToLf;
    ghost var goal := CrLfToLf(buf[start..start + n]);
    m := n;
    var len := 0;
    assert buf[start..start] == [];
    while len + 1 < m
      invariant 0 <= len <= m <= n
      invariant buf[start..start + len] + CrLfToLf(buf[start + len..start + m]) == goal
      invariant forall k :: 0 <= k < start || start + n <= k < buf.Length ==> buf[k] == old(buf[k])
      decreases m - len
    {
      var newEnd := StripAt(buf, start, start + len, start + m);
      m := newEnd - start;
      len := len + 1;
    }
    PassEnd(buf[start + len..start + m]);
    assert buf[start..start + m] == buf[start..start + len] + buf[start + len..start + m];
  }
}
