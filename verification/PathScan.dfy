/**
  The loop of FSResolvRelativePath with its own scan pointer, which is not moved back after a
  deletion: what it leaves, and when that is what the stack fold leaves.
 */
module PathScan {
  import opened Wrappers
  import opened PathText

  // ----- the scan pointer -----

  /**
    The scan pointer of the in-place loop: no whole ".." lies before it, and it rests at
    the start or just behind two dots it has stepped over.
   */
  predicate ScanInv(t: string, s: nat) {
    && s <= |t|
    && NoWholeBefore(t, s)
    && (s == 0 || (s >= 2 && DotsAt(t, s - 2)))
  }

  /** Where the last name before index i lies; lo == hi if there is none. */
  lemma LastNameSpan(p: string, i: nat) returns (lo: nat, hi: nat)
    requires Whole(p, i)
    ensures ParentStart(p, i) <= lo <= hi <= i
    ensures forall k :: ParentStart(p, i) <= k < lo || hi <= k < i ==> p[k] == '/'
    ensures lo == hi <==> Comps(p[..i]) == []
    ensures lo < hi ==> Comps(p[..i])[|Comps(p[..i])| - 1] == p[lo..hi]
    ensures forall k :: lo <= k < hi ==> p[k] != '/'
  {
    hide Comps, SkipSlashes, RunStart;
    var b: int := SkipSlashes(p, i);
    var j := RunStart(p, b - 1);
    SkipSlashesComps(p, i);
    if b == 0 {
      CompsOfSlashes(p[..0]);
      lo, hi := 0, 0;
    } else if p[b - 1] == '/' {
      assert b == 1 && j == 0;
      CompsOfSlashes(p[..1]);
      lo, hi := 1, 1;
    } else {
      var m := LastName(p[..b], j);
      assert forall k :: m <= k < b ==> p[k] == p[..b][m..][k - m];
      assert p[..b][m..] == p[m..b];
      lo, hi := m, b;
    }
  }

  /** The next deletion stays at or behind the scan pointer exactly when the popped name is not dotted. */
  lemma PointerStaysBehind(t: string, s: nat, i: nat)
    requires ScanInv(t, s) && s <= i && Whole(t, i)
    requires forall k :: s <= k < i ==> !DotsAt(t, k)
    ensures var a := Comps(t[..i]);
            s <= ParentStart(t, i) <==> a == [] || !Dotted(a[|a| - 1])
  {
    var lo, hi := LastNameSpan(t, i);
    var b := ParentStart(t, i);
    var n := t[lo..hi];
    if s <= b {
      if lo < hi && Dotted(n) {
        var k :| 0 <= k < |n| && DotsAt(n, k);
        assert DotsAt(t, lo + k);
      }
    } else {
      assert DotsAt(t, s - 2);
      assert lo <= s - 2 && s <= hi;
      assert DotsAt(n, s - 2 - lo);
      if n == DOTDOT {
        DotsSpanIsWhole(t, i, lo, hi);
        assert false;
      }
    }
  }

  /** A span between slashes that holds two dots is a whole "..". */
  lemma DotsSpanIsWhole(t: string, i: nat, lo: nat, hi: nat)
    requires Whole(t, i) && lo < hi <= i && t[lo..hi] == DOTDOT
    requires ParentStart(t, i) <= lo
    requires forall k :: ParentStart(t, i) <= k < lo || hi <= k < i ==> t[k] == '/'
    ensures Whole(t, lo)
  {
    var j := RunStart(t, SkipSlashes(t, i) - 1);
    assert t[lo] == t[lo..hi][0] && t[lo + 1] == t[lo..hi][1];
  }

  lemma CutScanInv(t: string, s: nat, i: nat)
    requires ScanInv(t, s) && Whole(t, i) && s <= ParentStart(t, i)
    ensures ScanInv(CutParent(t, i), s)
  {
    var c, b := CutParent(t, i), ParentStart(t, i);
    assert c[..b] == t[..b];
    assert b < |c| ==> c[b] == '/';
    forall k | 0 <= k < s ensures !Whole(c, k) {
      if DotsAt(c, k) {
        assert k + 1 < b;
        assert c[..b][k] == t[k] && c[..b][k + 1] == t[k + 1];
        assert k > 0 ==> c[..b][k - 1] == t[k - 1];
        assert k + 2 < b ==> c[..b][k + 2] == t[k + 2];
        assert !Whole(t, k);
      }
    }
    if s > 0 {
      assert c[..b][s - 2] == t[s - 2] && c[..b][s - 1] == t[s - 1];
    }
  }

  // ----- the loop on texts -----

  /** strstr(t + s, ".."), or |t|. */
  function NextDots(t: string, s: nat): (i: nat)
    requires s <= |t|
    ensures s <= i <= |t|
    ensures forall k :: s <= k < i ==> !DotsAt(t, k)
    ensures i < |t| ==> DotsAt(t, i)
    decreases |t| - s
  {
    if s == |t| || DotsAt(t, s) then s else NextDots(t, s + 1)
  }

  /** The loop from pointer s on; None when a deletion leaves the pointer behind the end of the string. */
  function Scan(t: string, s: nat, permit: bool): Option<string>
    requires s <= |t|
    decreases |t|, |t| - s
  {
    var i := NextDots(t, s);
    if i == |t| then Some(t)
    else if !Whole(t, i) then Scan(t, i + 2, permit)
    else if permit && i + 2 == |t| then Some(t)
    else if s <= |CutParent(t, i)| then Scan(CutParent(t, i), s, permit)
    else None
  }

  /** One call of FSResolvRelativePath. */
  function ScanText(p: string, permit: bool): Option<string> {
    var r := Scan(p, 0, permit);
    if r.None? then None else Some(TrimDot(r.value, permit))
  }

  /** No deletion of the run starts before the pointer. */
  predicate StaysBehind(t: string, s: nat, permit: bool)
    requires s <= |t|
    decreases |t|, |t| - s
  {
    var i := NextDots(t, s);
    if i == |t| then true
    else if !Whole(t, i) then StaysBehind(t, i + 2, permit)
    else if permit && i + 2 == |t| then true
    else s <= ParentStart(t, i) && StaysBehind(CutParent(t, i), s, permit)
  }

  /** The next two dots are stepped over: the pointer's invariant holds behind them. */
  lemma StepKeeps(t: string, s: nat)
    requires ScanInv(t, s)
    ensures var i := NextDots(t, s);
            && NoWholeBefore(t, i)
            && (i < |t| && !Whole(t, i) ==> ScanInv(t, i + 2))
  {
    var i := NextDots(t, s);
    if i < |t| && !Whole(t, i) {
      assert !Whole(t, i + 1);
    }
  }

  lemma NothingToPop(t: string, permit: bool)
    requires NoWhole(t)
    ensures ScanSafe(t, permit)
  {
    NothingToRemove(t, permit);
    NamesPopNothing(Active(t, permit));
  }

  lemma NamesPopNothing(cs: seq<string>)
    requires DOTDOT !in cs
    ensures NoDottedPop(cs, [])
  {
    FoldNames(cs, [], []);
    assert cs + [] == cs;
  }

  /** In the whole run, every deletion starts at or behind the pointer exactly when no dotted name is popped. */
  lemma {:induction false} RunStaysBehind(t: string, s: nat, permit: bool)
    requires ScanInv(t, s)
    ensures StaysBehind(t, s, permit) <==> ScanSafe(t, permit)
    decreases |t|, |t| - s
  {
    hide ScanSafe, ScanInv, Comps, CutParent, ParentStart;
    assert s <= |t| by { PointerInside(t, s); }
    var i := NextDots(t, s);
    StepKeeps(t, s);
    if i == |t| {
      NothingToPop(t, permit);
    } else if !Whole(t, i) {
      RunStaysBehind(t, i + 2, permit);
    } else if permit && i + 2 == |t| {
      SafeBeforeEnd(t, i);
    } else {
      CutFold(t, i, permit);
      PointerStaysBehind(t, s, i);
      if s <= ParentStart(t, i) {
        CutScanInv(t, s, i);
        RunStaysBehind(CutParent(t, i), s, permit);
      }
    }
  }

  lemma PointerInside(t: string, s: nat)
    requires ScanInv(t, s)
    ensures s <= |t|
  {
  }

  lemma SafeBeforeEnd(t: string, i: nat)
    requires Whole(t, i) && i + 2 == |t| && NoWholeBefore(t, i)
    ensures ScanSafe(t, true)
  {
    ActiveBeforeEnd(t, i);
    NoWholeInPrefix(t, i);
    NamesPopNothing(Comps(t[..i]));
  }

  /** No whole ".." ever comes to lie before the pointer, and the pointer stays within the string. */
  predicate NoneMissed(t: string, s: nat, permit: bool)
    requires s <= |t|
    decreases |t|, |t| - s
  {
    && NoWholeBefore(t, s)
    && var i := NextDots(t, s);
       if i == |t| then true
       else if !Whole(t, i) then NoneMissed(t, i + 2, permit)
       else if permit && i + 2 == |t| then true
       else s <= |CutParent(t, i)| && NoneMissed(CutParent(t, i), s, permit)
  }

  /** One call on this path misses nothing. */
  predicate Unmissed(p: string, permit: bool) {
    NoneMissed(p, 0, permit)
  }

  /** A run that misses nothing takes out what the fold takes out, dotted names or not. */
  lemma {:induction false} NoneMissedScan(t: string, s: nat, permit: bool)
    requires s <= |t| && NoneMissed(t, s, permit)
    ensures Scan(t, s, permit) == Some(RemoveDotDot(t, permit))
    decreases |t|, |t| - s
  {
    hide CutParent;
    var i := NextDots(t, s);
    assert NoWholeBefore(t, i);
    if i == |t| {
      assert FirstWhole(t, 0) == |t|;
    } else if !Whole(t, i) {
      NoneMissedScan(t, i + 2, permit);
    } else {
      assert FirstWhole(t, 0) == i;
      if !(permit && i + 2 == |t|) {
        NoneMissedScan(CutParent(t, i), s, permit);
      }
    }
  }

  /** A safe run misses nothing. */
  lemma {:induction false} SafeMissesNone(t: string, s: nat, permit: bool)
    requires ScanInv(t, s) && ScanSafe(t, permit)
    ensures NoneMissed(t, s, permit)
    decreases |t|, |t| - s
  {
    hide ScanSafe, Comps, CutParent, ParentStart;
    var i := NextDots(t, s);
    StepKeeps(t, s);
    if i == |t| {
    } else if !Whole(t, i) {
      SafeMissesNone(t, i + 2, permit);
    } else if !(permit && i + 2 == |t|) {
      CutFold(t, i, permit);
      PointerStaysBehind(t, s, i);
      CutScanInv(t, s, i);
      SafeMissesNone(CutParent(t, i), s, permit);
    }
  }

  lemma SafeIsUnmissed(p: string, permit: bool)
    requires ScanSafe(p, permit)
    ensures Unmissed(p, permit)
  {
    hide ScanSafe;
    SafeMissesNone(p, 0, permit);
  }

  lemma NoWholeIsUnmissed(p: string, permit: bool)
    requires NoWhole(p)
    ensures Unmissed(p, permit)
  {
    hide ScanSafe;
    NothingToPop(p, permit);
    SafeIsUnmissed(p, permit);
  }

  /** One call that misses nothing gives the resolved text. */
  lemma ScanResolves(p: string, permit: bool)
    requires Unmissed(p, permit)
    ensures ScanText(p, permit) == Some(ResolveText(p, permit))
  {
    NoneMissedScan(p, 0, permit);
  }

  /** Every call keeps an absolute path absolute and makes no path longer, dotted names or not. */
  lemma {:induction false} ScanKeepsAbsolute(t: string, s: nat, permit: bool)
    requires s <= |t| && Scan(t, s, permit).Some?
    ensures |Scan(t, s, permit).value| <= |t|
    ensures IsAbsolute(t) ==> IsAbsolute(Scan(t, s, permit).value)
    decreases |t|, |t| - s
  {
    hide CutParent;
    var i := NextDots(t, s);
    if i < |t| && !Whole(t, i) {
      ScanKeepsAbsolute(t, i + 2, permit);
    } else if i < |t| && !(permit && i + 2 == |t|) {
      if IsAbsolute(t) {
        CutKeepsAbsolute(t, i);
      }
      ScanKeepsAbsolute(CutParent(t, i), s, permit);
    }
  }

  lemma {:induction false} PermittedEndStays(p: string)
    ensures EndsWhole(RemoveDotDot(p, true)) <==> EndsWhole(p)
    decreases |p|
  {
    hide EndsWhole, CutParent;
    var i := FirstWhole(p, 0);
    if i < |p| && i + 2 < |p| {
      CutKeepsPermittedEnd(p, i, true);
      PermittedEndStays(CutParent(p, i));
    }
  }

  /** What any path resolves to is safe. */
  lemma ResolvedIsSafe(p: string, permit: bool)
    ensures ScanSafe(ResolveText(p, permit), permit)
  {
    hide Comps, RemoveDotDot, Fold, NoDottedPop;
    var r, t := RemoveDotDot(p, permit), ResolveText(p, permit);
    RemovalIsFold(p, permit);
    if permit {
      var f := Fold(Active(p, true), []);
      FoldHasNoDotDot(Active(p, true), []);
      PermittedEndStays(p);
      assert DropLast(f + [DOTDOT]) == f && f + [] == f;
      NamesPopNothing(f);
    } else {
      forall k | Whole(t, k) ensures Whole(r, k) {}
      NothingToPop(t, false);
    }
  }

  /** A second call changes nothing after a first one that missed nothing. */
  lemma ScanTwice(p: string, permit: bool)
    requires Unmissed(p, permit)
    ensures var r := ResolveText(p, permit);
            ScanText(p, permit) == Some(r) && ScanText(r, permit) == Some(r)
  {
    hide ScanText, ScanSafe, ResolveText, Unmissed;
    ScanResolves(p, permit);
    ResolvedIsSafe(p, permit);
    SafeIsUnmissed(ResolveText(p, permit), permit);
    ScanResolves(ResolveText(p, permit), permit);
    ResolveIdempotent(p, permit);
  }

  /** After any first call, a second one that misses nothing is idle exactly when no whole ".." was left for it. */
  lemma SecondCallIdle(e: string)
    requires Unmissed(e, false) && !EndsSlashDot(e)
    ensures ScanText(e, false) == Some(e) <==> NoWhole(e)
  {
    ScanResolves(e, false);
    RemovalIsFold(e, false);
    if NoWhole(e) {
      assert FirstWhole(e, 0) == |e|;
    }
  }

  /** For an absolute path, one call that misses nothing computes the stack fold. */
  lemma ScanIsFold(p: string)
    requires IsAbsolute(p) && Unmissed(p, false)
    ensures ScanText(p, false).Some?
    ensures var r := ScanText(p, false).value;
            && IsAbsolute(r) && |r| <= |p| && DOTDOT !in Comps(r)
            && Comps(r) == var f := Fold(Comps(p), []);
                           if f != [] && f[|f| - 1] == "." && !EndsSlash(p) then DropLast(f) else f
  {
    hide ScanText, Unmissed, ResolveText, Comps, Fold;
    ScanResolves(p, false);
    ResolveIsFold(p);
  }

  // ----- what a miss does -----

  /** The fold in which a marked ".." is pushed like a name. */
  function MarkedFold(cs: seq<string>, m: seq<bool>, stack: seq<string>): seq<string>
    requires |m| == |cs|
    decreases |cs|
  {
    if cs == [] then stack
    else if cs[0] == DOTDOT && !m[0] then MarkedFold(cs[1..], m[1..], DropLast(stack))
    else MarkedFold(cs[1..], m[1..], stack + [cs[0]])
  }

  /** Some ".." is marked. */
  ghost predicate Marks(cs: seq<string>, m: seq<bool>)
    requires |m| == |cs|
  {
    exists j :: 0 <= j < |cs| && cs[j] == DOTDOT && m[j]
  }

  lemma {:induction false} MarkedNames(a: seq<string>, ma: seq<bool>, b: seq<string>, mb: seq<bool>, stack: seq<string>)
    requires |ma| == |a| && |mb| == |b| && forall j :: 0 <= j < |a| ==> ma[j]
    ensures MarkedFold(a + b, ma + mb, stack) == MarkedFold(b, mb, stack + a)
    decreases |a|
  {
    if a == [] {
      assert a + b == b && ma + mb == mb && stack + a == stack;
    } else {
      assert (a + b)[1..] == a[1..] + b && (ma + mb)[1..] == ma[1..] + mb;
      assert stack + [a[0]] + a[1..] == stack + a;
      MarkedNames(a[1..], ma[1..], b, mb, stack + [a[0]]);
    }
  }

  /** Nothing marked: the stack fold. */
  lemma {:induction false} UnmarkedIsFold(cs: seq<string>, m: seq<bool>, stack: seq<string>)
    requires |m| == |cs| && !Marks(cs, m)
    ensures MarkedFold(cs, m, stack) == Fold(cs, stack)
    decreases |cs|
  {
    if cs != [] {
      assert !(cs[0] == DOTDOT && m[0]);
      assert forall j :: 0 <= j < |cs| - 1 ==> cs[1..][j] == cs[j + 1] && m[1..][j] == m[j + 1];
      UnmarkedIsFold(cs[1..], m[1..], if cs[0] == DOTDOT then DropLast(stack) else stack + [cs[0]]);
    }
  }

  lemma {:induction false} MarksAppend(a: seq<string>, ma: seq<bool>, b: seq<string>, mb: seq<bool>)
    requires |ma| == |a| && |mb| == |b| && forall j :: 0 <= j < |a| ==> ma[j]
    ensures Marks(a + b, ma + mb) <==> DOTDOT in a || Marks(b, mb)
  {
    var c, m := a + b, ma + mb;
    if DOTDOT in a {
      var j :| 0 <= j < |a| && a[j] == DOTDOT;
      assert c[j] == DOTDOT && m[j];
    }
    if Marks(b, mb) {
      var j :| 0 <= j < |b| && b[j] == DOTDOT && mb[j];
      assert c[|a| + j] == DOTDOT && m[|a| + j];
    }
    if Marks(c, m) {
      var j :| 0 <= j < |c| && c[j] == DOTDOT && m[j];
      if j >= |a| {
        assert b[j - |a|] == DOTDOT && mb[j - |a|];
      }
    }
  }

  /** An unmarked ".." in front: it pops, and is no mark. */
  lemma DotDotFirst(b: seq<string>, mb: seq<bool>, stack: seq<string>)
    requires |mb| == |b|
    ensures MarkedFold([DOTDOT] + b, [false] + mb, stack) == MarkedFold(b, mb, DropLast(stack))
    ensures Marks([DOTDOT] + b, [false] + mb) <==> Marks(b, mb)
  {
    hide MarkedFold;
    var c, mc := [DOTDOT] + b, [false] + mb;
    PopFirst(c, mc, stack);
    assert c[1..] == b && mc[1..] == mb;
    assert forall j :: 0 <= j < |b| ==> c[j + 1] == b[j] && mc[j + 1] == mb[j];
    assert forall j :: 1 <= j < |c| ==> c[j] == b[j - 1] && mc[j] == mb[j - 1];
  }

  lemma PopFirst(c: seq<string>, mc: seq<bool>, stack: seq<string>)
    requires |mc| == |c| && c != [] && c[0] == DOTDOT && !mc[0]
    ensures MarkedFold(c, mc, stack) == MarkedFold(c[1..], mc[1..], DropLast(stack))
  {
  }

  lemma NamesAndDotDot(a: seq<string>, ma: seq<bool>, b: seq<string>, mb: seq<bool>)
    requires |ma| == |a| && |mb| == |b| && forall j :: 0 <= j < |a| ==> ma[j]
    ensures MarkedFold(a + [DOTDOT] + b, ma + ([false] + mb), []) == MarkedFold(b, mb, DropLast(a))
    ensures Marks(a + [DOTDOT] + b, ma + ([false] + mb)) <==> DOTDOT in a || Marks(b, mb)
  {
    hide MarkedFold, Marks;
    var c, mc := [DOTDOT] + b, [false] + mb;
    assert a + [DOTDOT] + b == a + c && [] + a == a;
    MarkedNames(a, ma, c, mc, []);
    MarksAppend(a, ma, c, mc);
    DotDotFirst(b, mb, a);
  }

  lemma DotsInPrefix(t: string, i: nat)
    requires Whole(t, i)
    ensures DOTDOT in Comps(t[..i]) <==> !NoWholeBefore(t, i)
  {
    hide Comps;
    var a := t[..i];
    NoWholeComps(a);
    forall k | 0 <= k < i ensures Whole(a, k) <==> Whole(t, k) {
    }
  }

  /** Before the place of the cut, the ".."s are those that were there. */
  lemma CutBefore(t: string, i: nat, k: nat)
    requires Whole(t, i) && k < ParentStart(t, i) && Whole(CutParent(t, i), k)
    ensures Whole(t, k)
  {
    var c, b := CutParent(t, i), ParentStart(t, i);
    assert forall j :: 0 <= j < b ==> c[j] == t[j];
    assert b < |c| ==> c[b] == t[i + 2] == '/';
  }

  /** The names before the cut are still there, and before the next ".." that will be seen. */
  lemma CutHead(t: string, s: nat, i: nat)
    requires Whole(t, i) && s <= i && (forall k :: s <= k < i ==> !DotsAt(t, k)) && s <= |CutParent(t, i)|
    ensures var c := CutParent(t, i);
            DropLast(Comps(t[..i])) <= Comps(c[..FirstWhole(c, s)])
  {
    hide Comps, ParentStart;
    var c, b := CutParent(t, i), ParentStart(t, i);
    var f := FirstWhole(c, s);
    assert f >= b by {
      if f < b {
        CutBefore(t, i, f);
      }
    }
    ParentComps(t, i);
    assert c[..b] == t[..b];
    assert c[..f] == c[..b] + c[b..f];
    assert Seam(c[..b], c[b..f]) by {
      assert b < |c| ==> c[b] == t[i + 2] == '/';
    }
    CompsAppend(c[..b], c[b..f]);
  }

  /**
    What any scan leaves that stays within its string: the fold in which the missed ".."s are pushed
    like names. Some ".." is marked as missed exactly when the run misses one.
   */
  lemma {:induction false} ScanMarks(t: string, s: nat) returns (m: seq<bool>)
    requires s <= |t| && Scan(t, s, false).Some?
    ensures |m| == |Comps(t)|
    ensures MarkedFold(Comps(t), m, []) == Comps(Scan(t, s, false).value)
    ensures Marks(Comps(t), m) <==> !NoneMissed(t, s, false)
    ensures |Comps(t[..FirstWhole(t, s)])| <= |m|
    ensures forall j :: 0 <= j < |Comps(t[..FirstWhole(t, s)])| ==> m[j]
    decreases |t|, |t| - s
  {
    hide Comps, CutParent, MarkedFold, Marks;
    var i := NextDots(t, s);
    if i == |t| {
      m := LastMarks(t, s);
    } else if !Whole(t, i) {
      assert !Whole(t, i + 1);
      assert FirstWhole(t, s) == FirstWhole(t, i + 2);
      m := ScanMarks(t, i + 2);
    } else {
      var m' := ScanMarks(CutParent(t, i), s);
      assert FirstWhole(t, s) == i;
      m := CutMarks(t, s, i, m');
    }
  }

  lemma LastMarks(t: string, s: nat) returns (m: seq<bool>)
    requires s <= |t| && NextDots(t, s) == |t|
    ensures |m| == |Comps(t)| && (forall j :: 0 <= j < |m| ==> m[j])
    ensures MarkedFold(Comps(t), m, []) == Comps(t)
    ensures Marks(Comps(t), m) <==> !NoneMissed(t, s, false)
    ensures FirstWhole(t, s) == |t| && t[..FirstWhole(t, s)] == t
  {
    hide Comps;
    var cs := Comps(t);
    m := seq(|cs|, _ => true);
    MarkedNames(cs, m, [], [], []);
    assert cs + [] == cs && m + [] == m && [] + cs == cs;
    NoWholeComps(t);
    assert NoWhole(t) <==> NoWholeBefore(t, s);
    assert DOTDOT in cs ==> exists j :: 0 <= j < |cs| && cs[j] == DOTDOT && m[j];
  }

  lemma CutMarks(t: string, s: nat, i: nat, m': seq<bool>) returns (m: seq<bool>)
    requires s <= |t| && NextDots(t, s) == i && Whole(t, i) && s <= |CutParent(t, i)| && Scan(CutParent(t, i), s, false).Some?
    requires |m'| == |Comps(CutParent(t, i))|
    requires MarkedFold(Comps(CutParent(t, i)), m', []) == Comps(Scan(CutParent(t, i), s, false).value)
    requires Marks(Comps(CutParent(t, i)), m') <==> !NoneMissed(CutParent(t, i), s, false)
    requires forall j :: 0 <= j < |m'| && j < |Comps(CutParent(t, i)[..FirstWhole(CutParent(t, i), s)])| ==> m'[j]
    ensures |m| == |Comps(t)|
    ensures MarkedFold(Comps(t), m, []) == Comps(Scan(t, s, false).value)
    ensures Marks(Comps(t), m) <==> !NoneMissed(t, s, false)
    ensures |Comps(t[..i])| <= |m| && forall j :: 0 <= j < |Comps(t[..i])| ==> m[j]
  {
    hide Comps, CutParent, MarkedFold, Marks, FirstWhole;
    var c, a, b := CutParent(t, i), Comps(t[..i]), Comps(t[i + 2..]);
    CutParts(t, i);
    CutHead(t, s, i);
    DotsInPrefix(t, i);
    var d := |DropLast(a)|;
    var ma, mb := seq(|a|, _ => true), m'[d..];
    assert m' == m'[..d] + mb;
    NamesAndDotDot(a, ma, b, mb);
    MarkedNames(DropLast(a), m'[..d], b, mb, []);
    assert [] + DropLast(a) == DropLast(a);
    MarksAppend(DropLast(a), m'[..d], b, mb);
    assert DOTDOT in DropLast(a) ==> DOTDOT in a;
    assert NoWholeBefore(t, i) <==> NoWholeBefore(t, s);
    m := ma + ([false] + mb);
  }

  /** One call on any path, as long as the pointer stays within the string. */
  lemma ScanIsMarkedFold(p: string) returns (m: seq<bool>)
    requires ScanText(p, false).Some?
    ensures |m| == |Comps(p)|
    ensures Comps(Scan(p, 0, false).value) == MarkedFold(Comps(p), m, [])
    ensures Marks(Comps(p), m) <==> !Unmissed(p, false)
    ensures !Marks(Comps(p), m) ==> Comps(Scan(p, 0, false).value) == Fold(Comps(p), [])
  {
    hide Comps, MarkedFold, Marks, Fold;
    m := ScanMarks(p, 0);
    if !Marks(Comps(p), m) {
      UnmarkedIsFold(Comps(p), m, []);
    }
  }

  // ----- a path that is not safe -----

  const MISSED := "/a../../../x"

  lemma ScanOver(t: string, s: nat, i: nat, permit: bool)
    requires s <= i && DotsAt(t, i) && !Whole(t, i) && forall k :: s <= k < i ==> !DotsAt(t, k)
    ensures Scan(t, s, permit) == Scan(t, i + 2, permit)
  {
  }

  lemma ScanCut(t: string, s: nat, i: nat)
    requires s <= i && Whole(t, i) && (forall k :: s <= k < i ==> !DotsAt(t, k)) && s <= |CutParent(t, i)|
    ensures Scan(t, s, false) == Scan(CutParent(t, i), s, false)
  {
  }

  lemma ScanStops(t: string, s: nat)
    requires s <= |t| && forall k :: s <= k < |t| ==> !DotsAt(t, k)
    ensures Scan(t, s, false) == Some(t)
  {
  }

  lemma MissedCut()
    ensures CutParent(MISSED, 5) == "//../x" && CutParent("//../x", 2) == "//x"
  {
    var p, q := MISSED, "//../x";
    assert RunStart(p, 0) == 0 && RunStart(p, 2) == RunStart(p, 1) == 0;
    assert SkipSlashes(p, 4) == 4 && RunStart(p, 3) == 0;
    assert SkipSlashes(q, 1) == 1 && RunStart(q, 0) == 0;
  }

  /** The name "a.." is popped, the pointer stays at index 4, and the ".." that moves to index 2 is missed. */
  lemma OneIsMissed()
    ensures ScanText(MISSED, false) == Some("//../x")
    ensures ScanText("//../x", false) == Some("//x")
    ensures !Unmissed(MISSED, false) && !ScanSafe(MISSED, false)
  {
    hide Scan, CutParent, ScanSafe, Unmissed;
    MissedCut();
    ScanOver(MISSED, 0, 2, false);
    ScanCut(MISSED, 4, 5);
    ScanStops("//../x", 4);
    ScanCut("//../x", 0, 2);
    ScanStops("//x", 0);
    if Unmissed(MISSED, false) {
      ScanTwice(MISSED, false);
    }
    if ScanSafe(MISSED, false) {
      SafeIsUnmissed(MISSED, false);
    }
  }

  const MISSED_AND_POPPED := "/p/q/a../../../../xyz"

  /** The missed ".." is popped by the next one, in place of a name: no ".." is left, and the names are not the fold. */
  lemma OneIsMissedAndPopped()
    ensures ScanText(MISSED_AND_POPPED, false) == Some("/p/q/xyz")
    ensures ResolveText(MISSED_AND_POPPED, false) == "//xyz"
  {
    hide Scan, CutParent, RemoveDotDot;
    var p := MISSED_AND_POPPED;
    PoppedCuts();
    ScanOver(p, 0, 6, false);
    ScanCut(p, 8, 9);
    ScanCut("/p/q/../../xyz", 8, 8);
    ScanStops("/p/q/xyz", 8);
    RemovalStep(p, 9);
    RemovalStep("/p/q/../../xyz", 5);
    RemovalStep("/p/../xyz", 3);
    RemovalStops("//xyz");
  }

  lemma RemovalStep(t: string, i: nat)
    requires Whole(t, i) && NoWholeBefore(t, i)
    ensures RemoveDotDot(t, false) == RemoveDotDot(CutParent(t, i), false)
  {
    assert FirstWhole(t, 0) == i;
  }

  lemma RemovalStops(t: string)
    requires NoWhole(t)
    ensures RemoveDotDot(t, false) == t
  {
  }

  lemma PoppedCuts()
    ensures CutParent(MISSED_AND_POPPED, 9) == "/p/q/../../xyz"
    ensures CutParent("/p/q/../../xyz", 8) == "/p/q/xyz"
    ensures CutParent("/p/q/../../xyz", 5) == "/p/../xyz"
    ensures CutParent("/p/../xyz", 3) == "//xyz"
  {
    hide ParentStart;
    FirstPoppedCut();
    var q, r := "/p/q/../../xyz", "/p/../xyz";
    ParentIs(q, 8, 7, 4);
    assert q[..4] + q[10..] == "/p/q/xyz";
    ParentIs(q, 5, 4, 2);
    assert q[..2] + q[7..] == r;
    ParentIs(r, 3, 2, 0);
    assert r[..1] + r[5..] == "//xyz";
  }

  lemma FirstPoppedCut()
    ensures CutParent(MISSED_AND_POPPED, 9) == "/p/q/../../xyz"
  {
    hide ParentStart;
    var p := MISSED_AND_POPPED;
    ParentIs(p, 9, 8, 4);
    assert p[..4] + p[11..] == "/p/q/../../xyz";
  }

  /** The start of the parent, from where the slashes before i begin and where its own slash stands. */
  lemma ParentIs(t: string, i: nat, b: nat, j: nat)
    requires j < b < i <= |t| && t[b - 1] != '/' && t[j] == '/' && (j == 0 || t[j - 1] != '/')
    requires forall k :: b <= k < i ==> t[k] == '/'
    requires forall k :: j < k < b ==> t[k] != '/'
    ensures ParentStart(t, i) == if j < 1 then 1 else j
  {
    hide SkipSlashes, RunStart;
    assert SkipSlashes(t, i) == b;
    assert RunStart(t, b - 1) == j by {
      var r := RunStart(t, b - 1);
      assert r >= j;
    }
  }

  /** After this deletion the pointer, at index 4, is behind the end of "//x". */
  lemma PointerOutside()
    ensures ScanText("/a../../x", false) == None
  {
    hide ParentStart;
    var p := "/a../../x";
    ParentIs(p, 5, 4, 0);
    ScanOver(p, 0, 2, false);
    assert CutParent(p, 5) == "//x";
    assert NextDots(p, 4) == 5 && Whole(p, 5);
  }
}
