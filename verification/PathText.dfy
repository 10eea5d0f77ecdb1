/** Paths as text and as component lists: what the resolver of FileSystem.c is meant to compute. */
module PathText {

  // ----- components -----

  /** The length of the longest slash-free prefix. */
  function NameEnd(p: string): (k: nat)
    ensures k <= |p|
    ensures '/' !in p[..k]
    ensures k < |p| ==> p[k] == '/'
  {
    if p == "" || p[0] == '/' then 0 else 1 + NameEnd(p[1..])
  }

  /** The non-empty names between slashes. */
  function Comps(p: string): seq<string>
    decreases |p|
  {
    if p == "" then []
    else if p[0] == '/' then Comps(p[1..])
    else [p[..NameEnd(p)]] + Comps(p[NameEnd(p)..])
  }

  predicate EndsSlash(p: string) {
    p != "" && p[|p| - 1] == '/'
  }

  predicate IsAbsolute(p: string) {
    p != "" && p[0] == '/'
  }

  /** A slash at the seam, or nothing on one side of it. */
  predicate Seam(a: string, b: string) {
    a == "" || b == "" || EndsSlash(a) || b[0] == '/'
  }

  lemma NameEndPrefix(p: string, b: string)
    ensures NameEnd(p) < |p| || b == "" || b[0] == '/' ==> NameEnd(p + b) == NameEnd(p)
  {
    if p == "" {
      assert p + b == b;
    } else if p[0] != '/' {
      assert (p + b)[1..] == p[1..] + b;
      NameEndPrefix(p[1..], b);
    }
  }

  lemma {:induction false} CompsAppend(a: string, b: string)
    requires Seam(a, b)
    ensures Comps(a + b) == Comps(a) + Comps(b)
    decreases |a|
  {
    if a == "" {
      assert a + b == b;
    } else if b == "" {
      assert a + b == a;
    } else if a[0] == '/' {
      assert (a + b)[1..] == a[1..] + b;
      CompsAppend(a[1..], b);
    } else {
      var k := NameEnd(a);
      NameEndPrefix(a, b);
      assert (a + b)[..k] == a[..k];
      assert (a + b)[k..] == a[k..] + b;
      CompsAppend(a[k..], b);
    }
  }

  lemma CompsOfName(n: string)
    requires n != "" && '/' !in n
    ensures Comps(n) == [n]
  {
    assert NameEnd(n) == |n|;
    assert n[..|n|] == n && n[|n|..] == "";
  }

  lemma {:induction false} CompsOfSlashes(p: string)
    requires forall k :: 0 <= k < |p| ==> p[k] == '/'
    ensures Comps(p) == []
  {
    if p != "" {
      CompsOfSlashes(p[1..]);
    }
  }

  /** No component is empty or holds a slash. */
  lemma {:induction false} CompsAreNames(p: string)
    ensures forall c :: c in Comps(p) ==> c != "" && '/' !in c
    decreases |p|
  {
    if p == "" {
    } else if p[0] == '/' {
      CompsAreNames(p[1..]);
    } else {
      CompsAreNames(p[NameEnd(p)..]);
    }
  }

  // ----- the stack fold -----

  const DOTDOT := ".."

  /** Push a name, pop on "..", and popping an empty stack is a no-op. */
  function Fold(cs: seq<string>, stack: seq<string>): seq<string>
    decreases |cs|
  {
    if cs == [] then stack
    else if cs[0] == DOTDOT then Fold(cs[1..], if stack == [] then [] else stack[..|stack| - 1])
    else Fold(cs[1..], stack + [cs[0]])
  }

  function DropLast(cs: seq<string>): seq<string> {
    if cs == [] then [] else cs[..|cs| - 1]
  }

  /** Two dots in a row at index i. */
  predicate DotsAt(p: string, i: int) {
    0 <= i <= |p| - 2 && p[i] == '.' && p[i + 1] == '.'
  }

  predicate HasDots(p: string) {
    exists i | 0 <= i < |p| :: DotsAt(p, i)
  }

  /** A name of which two dots in a row are only a part. */
  predicate Dotted(n: string) {
    n != DOTDOT && HasDots(n)
  }

  /** The fold never pops a dotted name. */
  predicate NoDottedPop(cs: seq<string>, stack: seq<string>)
    decreases |cs|
  {
    if cs == [] then true
    else if cs[0] == DOTDOT then
      (stack != [] ==> !Dotted(stack[|stack| - 1])) && NoDottedPop(cs[1..], DropLast(stack))
    else NoDottedPop(cs[1..], stack + [cs[0]])
  }

  lemma {:induction false} FoldNames(names: seq<string>, rest: seq<string>, stack: seq<string>)
    requires DOTDOT !in names
    ensures Fold(names + rest, stack) == Fold(rest, stack + names)
    ensures NoDottedPop(names + rest, stack) <==> NoDottedPop(rest, stack + names)
    decreases |names|
  {
    if names == [] {
      assert names + rest == rest && stack + names == stack;
    } else {
      assert (names + rest)[1..] == names[1..] + rest;
      assert stack + [names[0]] + names[1..] == stack + names;
      FoldNames(names[1..], rest, stack + [names[0]]);
    }
  }

  /** Taking out a ".." together with the name before it does not change the fold. */
  lemma FoldCancels(a: seq<string>, b: seq<string>)
    requires DOTDOT !in a
    ensures Fold(a + [DOTDOT] + b, []) == Fold(DropLast(a) + b, [])
    ensures NoDottedPop(a + [DOTDOT] + b, []) <==> (a == [] || !Dotted(a[|a| - 1])) && NoDottedPop(DropLast(a) + b, [])
  {
    var c := [DOTDOT] + b;
    assert a + [DOTDOT] + b == a + c;
    FoldNames(a, c, []);
    assert [] + a == a;
    assert c[1..] == b;
    FoldNames(DropLast(a), b, []);
    assert [] + DropLast(a) == DropLast(a);
  }

  lemma {:induction false} FoldHasNoDotDot(cs: seq<string>, stack: seq<string>)
    requires DOTDOT !in stack
    ensures DOTDOT !in Fold(cs, stack)
    decreases |cs|
  {
    if cs != [] {
      FoldHasNoDotDot(cs[1..], if cs[0] != DOTDOT then stack + [cs[0]] else DropLast(stack));
    }
  }

  // ----- the text the resolver leaves -----

  /** A ".." at index i that is a whole component. */
  predicate Whole(p: string, i: int) {
    && DotsAt(p, i)
    && (i == 0 || p[i - 1] == '/')
    && (i + 2 == |p| || p[i + 2] == '/')
  }

  predicate NoWholeBefore(p: string, n: int) {
    forall k :: 0 <= k < n ==> !Whole(p, k)
  }

  predicate NoWhole(p: string) {
    NoWholeBefore(p, |p|)
  }

  /** The first whole ".." at or after index i, or |p|. */
  function FirstWhole(p: string, i: nat): (r: nat)
    requires i <= |p|
    ensures i <= r <= |p|
    ensures forall k :: i <= k < r ==> !Whole(p, k)
    ensures r < |p| ==> Whole(p, r)
    decreases |p| - i
  {
    if i == |p| || Whole(p, i) then i else FirstWhole(p, i + 1)
  }

  /** Steps back over slashes, but not below index 1. */
  function SkipSlashes(p: string, i: nat): (r: nat)
    requires i <= |p|
    ensures r <= i
    ensures r > 1 ==> p[r - 1] != '/'
    ensures i >= 1 ==> r >= 1
    ensures forall k :: r <= k < i ==> p[k] == '/'
  {
    if i > 1 && p[i - 1] == '/' then SkipSlashes(p, i - 1) else i
  }

  /** The last index up to i at which a run of slashes starts, or -1. */
  function RunStart(p: string, i: int): (r: int)
    requires -1 <= i < |p|
    ensures -1 <= r <= i
    ensures r >= 0 ==> p[r] == '/' && (r == 0 || p[r - 1] != '/')
    ensures forall k :: r < k <= i && p[k] == '/' ==> k > 0 && p[k - 1] == '/'
    decreases i + 1
  {
    if i < 0 || (p[i] == '/' && (i == 0 || p[i - 1] != '/')) then i else RunStart(p, i - 1)
  }

  /** Where the component before index i starts, with its slash unless that is the root's. */
  function ParentStart(p: string, i: nat): (r: nat)
    requires i <= |p|
    ensures r <= i
    ensures r > 1 ==> r < |p| && p[r] == '/'
  {
    var j := RunStart(p, SkipSlashes(p, i) - 1);
    if j < 0 then 0 else if j < 1 then 1 else j
  }

  /** The text without the ".." at index i and the component before it. */
  function CutParent(p: string, i: nat): (r: string)
    requires i + 2 <= |p|
    ensures |r| < |p|
  {
    p[..ParentStart(p, i)] + p[i + 2..]
  }

  /** Every whole ".." taken out from left to right; with `permit`, one at the very end stays. */
  function RemoveDotDot(p: string, permit: bool): (r: string)
    ensures |r| <= |p|
    decreases |p|
  {
    var i := FirstWhole(p, 0);
    if i == |p| || (permit && i + 2 == |p|) then p
    else RemoveDotDot(CutParent(p, i), permit)
  }

  predicate EndsSlashDot(p: string) {
    |p| >= 2 && p[|p| - 2] == '/' && p[|p| - 1] == '.'
  }

  function TrimDot(p: string, permit: bool): (r: string)
    ensures |r| <= |p|
  {
    if !permit && EndsSlashDot(p) then p[..|p| - 1] else p
  }

  function ResolveText(p: string, permit: bool): (r: string)
    ensures |r| <= |p|
  {
    TrimDot(RemoveDotDot(p, permit), permit)
  }

  /** The components the resolver works on: a final ".." stays out of it when permitted. */
  function Active(p: string, permit: bool): seq<string> {
    if permit && EndsWhole(p) then DropLast(Comps(p)) else Comps(p)
  }

  predicate EndsWhole(p: string) {
    Whole(p, |p| - 2)
  }

  /** What a caller of the resolver has to check: no dotted name is popped. */
  predicate ScanSafe(p: string, permit: bool) {
    NoDottedPop(Active(p, permit), [])
  }

  // ----- one removal -----

  /** Below a slash at m - 1, everything back to the run's start j is slashes. */
  lemma {:induction false} RunIsSlashes(q: string, j: int, m: nat)
    requires -1 <= j < m <= |q|
    requires forall k :: j < k < |q| && q[k] == '/' ==> k > 0 && q[k - 1] == '/'
    requires m > 0 ==> q[m - 1] == '/'
    ensures j >= 0 || m == 0
    ensures forall k :: j <= k < m && 0 <= k ==> q[k] == '/'
    decreases m
  {
    if m > 0 && j < m - 1 {
      RunIsSlashes(q, j, m - 1);
    }
  }

  /** The index after the last slash. */
  function NameStart(q: string): (m: nat)
    ensures m <= |q|
    ensures m > 0 ==> q[m - 1] == '/'
    ensures forall k :: m <= k < |q| ==> q[k] != '/'
  {
    if q == "" || q[|q| - 1] == '/' then |q| else NameStart(q[..|q| - 1])
  }

  /** Splits a text that does not end in a slash at its last run of slashes. */
  lemma LastName(q: string, j: int) returns (m: nat)
    requires q != "" && !EndsSlash(q)
    requires -1 <= j < |q|
    requires j >= 0 ==> q[j] == '/'
    requires forall k :: j < k < |q| && q[k] == '/' ==> k > 0 && q[k - 1] == '/'
    ensures j < m < |q| && '/' !in q[m..]
    ensures j < 0 ==> m == 0
    ensures forall k :: j <= k < m && 0 <= k ==> q[k] == '/'
    ensures Comps(q) == Comps(if j < 0 then "" else q[..j]) + [q[m..]]
  {
    m := NameStart(q);
    RunIsSlashes(q, j, m);
    CompsOfName(q[m..]);
    if j < 0 {
      assert q[0..] == q;
    } else {
      CompsOfSlashes(q[j..m]);
      assert q == q[..j] + (q[j..m] + q[m..]);
      CompsAppend(q[j..m], q[m..]);
      CompsAppend(q[..j], q[j..m] + q[m..]);
    }
  }

  lemma SkipSlashesComps(p: string, i: nat)
    requires i <= |p|
    ensures Comps(p[..SkipSlashes(p, i)]) == Comps(p[..i])
  {
    var r := SkipSlashes(p, i);
    CompsOfSlashes(p[r..i]);
    assert p[..i] == p[..r] + p[r..i];
    CompsAppend(p[..r], p[r..i]);
  }

  /** Cutting at the parent's start drops the last component, and nothing else. */
  lemma ParentComps(p: string, i: nat)
    requires Whole(p, i)
    ensures Comps(p[..ParentStart(p, i)]) == DropLast(Comps(p[..i]))
  {
    hide Comps;
    var b: int := SkipSlashes(p, i);
    var j := RunStart(p, b - 1);
    SkipSlashesComps(p, i);
    if b == 0 {
      CompsOfSlashes(p[..0]);
    } else if p[b - 1] == '/' {
      assert b == 1 && j == 0;
      CompsOfSlashes(p[..1]);
    } else {
      var q := p[..b];
      var m := LastName(q, j);
      if j == 0 {
        CompsOfSlashes(p[..1]);
        CompsOfSlashes(q[..0]);
      } else if j > 0 {
        assert q[..j] == p[..j];
      } else {
        CompsOfSlashes(p[..0]);
      }
    }
  }

  lemma SplitAtDots(p: string, i: nat)
    requires Whole(p, i)
    ensures Comps(p) == Comps(p[..i]) + [DOTDOT] + Comps(p[i + 2..])
  {
    hide Comps;
    var a, b := p[..i], p[i + 2..];
    assert p == a + (DOTDOT + b) by {
      assert p[i..i + 2] == DOTDOT;
    }
    CompsOfName(DOTDOT);
    CompsAppend(DOTDOT, b);
    CompsAppend(a, DOTDOT + b);
  }

  /** The components around a whole "..", and those left when it is cut out with its parent. */
  lemma CutParts(p: string, i: nat)
    requires Whole(p, i)
    ensures Comps(p) == Comps(p[..i]) + [DOTDOT] + Comps(p[i + 2..])
    ensures Comps(CutParent(p, i)) == DropLast(Comps(p[..i])) + Comps(p[i + 2..])
  {
    hide Comps, ParentStart;
    SplitAtDots(p, i);
    ParentComps(p, i);
    CompsAppend(p[..ParentStart(p, i)], p[i + 2..]);
  }

  lemma WholeAtStart(p: string)
    requires Whole(p, 0)
    ensures NameEnd(p) == 2 && p[..2] == DOTDOT
  {
    assert p[1..][1..] == p[2..];
    assert NameEnd(p[2..]) == 0;
  }

  /** A text is free of whole ".."s exactly when its component list is. */
  lemma {:induction false} NoWholeComps(p: string)
    ensures NoWhole(p) <==> DOTDOT !in Comps(p)
    decreases |p|
  {
    if p == "" {
    } else if p[0] == '/' {
      NoWholeComps(p[1..]);
      forall k | Whole(p, k) ensures Whole(p[1..], k - 1) {}
      forall k | Whole(p[1..], k) ensures Whole(p, k + 1) {}
    } else {
      var n := NameEnd(p);
      var name, rest := p[..n], p[n..];
      NoWholeComps(rest);
      forall k | Whole(rest, k) ensures Whole(p, k + n) {
        assert k > 0;
      }
      if name == DOTDOT {
        assert p[0] == name[0] && p[1] == name[1];
        assert Whole(p, 0);
      } else {
        assert !Whole(p, 0) by {
          if Whole(p, 0) {
            WholeAtStart(p);
          }
        }
        forall k | Whole(p, k) ensures Whole(rest, k - n) {
          assert k > 0 && p[k - 1] == '/';
        }
      }
      assert Comps(p) == [name] + Comps(rest);
    }
  }

  /** How a text ends is decided by a suffix that starts with a slash. */
  lemma SuffixEnds(a: string, b: string)
    requires b != "" && b[0] == '/'
    ensures EndsWhole(a + b) <==> EndsWhole(b)
    ensures EndsSlash(a + b) <==> EndsSlash(b)
  {
    var p := a + b;
    assert p[|p| - 1] == b[|b| - 1];
    if |b| >= 2 {
      assert p[|p| - 2] == b[|b| - 2];
      if |b| >= 3 {
        assert p[|p| - 3] == b[|b| - 3];
      }
    }
  }

  /** A removal before the end leaves alone how the text ends. */
  lemma CutKeepsEnd(p: string, i: nat)
    requires Whole(p, i) && i + 2 < |p|
    ensures EndsWhole(CutParent(p, i)) <==> EndsWhole(p)
    ensures EndsSlash(CutParent(p, i)) <==> EndsSlash(p)
    ensures EndsWhole(p) ==> Comps(p[i + 2..]) != []
  {
    var b := p[i + 2..];
    SuffixEnds(p[..ParentStart(p, i)], b);
    SuffixEnds(p[..i + 2], b);
    assert p[..i + 2] + b == p;
    if EndsWhole(b) {
      NoWholeComps(b);
    }
  }

  lemma NoWholeInPrefix(p: string, i: nat)
    requires Whole(p, i) && NoWholeBefore(p, i)
    ensures DOTDOT !in Comps(p[..i])
  {
    var a := p[..i];
    forall k | Whole(a, k) ensures Whole(p, k) {
      assert a[k] == p[k] && a[k + 1] == p[k + 1];
    }
    NoWholeComps(a);
  }

  /** The active components around the first whole "..", before and after its removal. */
  lemma CutActive(p: string, i: nat, permit: bool)
    requires Whole(p, i)
    requires !(permit && i + 2 == |p|)
    ensures var b := if permit && EndsWhole(p) then DropLast(Comps(p[i + 2..])) else Comps(p[i + 2..]);
            && Active(p, permit) == Comps(p[..i]) + [DOTDOT] + b
            && Active(CutParent(p, i), permit) == DropLast(Comps(p[..i])) + b
  {
    hide Comps, CutParent, EndsWhole;
    var a, b := Comps(p[..i]), Comps(p[i + 2..]);
    CutParts(p, i);
    if permit {
      CutKeepsEnd(p, i);
      if EndsWhole(p) {
        assert DropLast(a + [DOTDOT] + b) == a + [DOTDOT] + DropLast(b);
        assert DropLast(DropLast(a) + b) == DropLast(a) + DropLast(b);
      }
    }
  }

  /** One removal does not change the fold; the text is safe when the popped name is not dotted and the rest is safe. */
  lemma CutFold(p: string, i: nat, permit: bool)
    requires Whole(p, i) && NoWholeBefore(p, i)
    requires !(permit && i + 2 == |p|)
    ensures Fold(Active(CutParent(p, i), permit), []) == Fold(Active(p, permit), [])
    ensures var a := Comps(p[..i]);
            ScanSafe(p, permit) <==> (a == [] || !Dotted(a[|a| - 1])) && ScanSafe(CutParent(p, i), permit)
  {
    hide Comps, CutParent, Fold, NoDottedPop, EndsWhole, Active, DropLast, Dotted;
    CutActive(p, i, permit);
    NoWholeInPrefix(p, i);
    FoldCancels(Comps(p[..i]), if permit && EndsWhole(p) then DropLast(Comps(p[i + 2..])) else Comps(p[i + 2..]));
  }

  // ----- the resolver's text and the fold -----

  lemma FoldOfNames(cs: seq<string>)
    requires DOTDOT !in cs
    ensures Fold(cs, []) == cs
  {
    FoldNames(cs, [], []);
    assert cs + [] == cs && [] + cs == cs;
  }

  /** A final whole "..", the only one, is left out of the active components. */
  lemma ActiveBeforeEnd(p: string, i: nat)
    requires Whole(p, i) && i + 2 == |p| && NoWholeBefore(p, i)
    ensures Active(p, true) == Comps(p[..i]) && Comps(p) == Comps(p[..i]) + [DOTDOT]
    ensures Fold(Comps(p[..i]), []) == Comps(p[..i])
  {
    hide Comps, Fold;
    SplitAtDots(p, i);
    CompsOfSlashes(p[i + 2..]);
    NoWholeInPrefix(p, i);
    FoldOfNames(Comps(p[..i]));
  }

  lemma NothingToRemove(p: string, permit: bool)
    requires NoWhole(p)
    ensures !EndsWhole(p) && DOTDOT !in Comps(p)
    ensures Fold(Active(p, permit), []) == Comps(p)
  {
    hide Comps, Fold;
    NoWholeComps(p);
    FoldOfNames(Comps(p));
    assert EndsWhole(p) ==> Whole(p, |p| - 2);
  }

  /**
    The resolver's removals compute the stack fold. With `permit` a final ".." is left
    as it is; without it no ".." remains.
   */
  lemma {:induction false} RemovalIsFold(p: string, permit: bool)
    ensures Comps(RemoveDotDot(p, permit)) ==
            Fold(Active(p, permit), []) + if permit && EndsWhole(p) then [DOTDOT] else []
    ensures permit || NoWhole(RemoveDotDot(p, permit))
    decreases |p|
  {
    hide Comps, Fold, Active, CutParent, EndsWhole, NoWhole;
    var i := FirstWhole(p, 0);
    if i == |p| {
      assert NoWhole(p) by { AllBefore(p); }
      NothingToRemove(p, permit);
    } else if permit && i + 2 == |p| {
      ActiveBeforeEnd(p, i);
      EndsHere(p, i);
    } else {
      CutFold(p, i, permit);
      CutKeepsPermittedEnd(p, i, permit);
      RemovalIsFold(CutParent(p, i), permit);
    }
  }

  lemma AllBefore(p: string)
    requires FirstWhole(p, 0) == |p|
    ensures NoWhole(p)
  {
  }

  lemma EndsHere(p: string, i: nat)
    requires Whole(p, i) && i + 2 == |p|
    ensures EndsWhole(p)
  {
  }

  lemma CutKeepsPermittedEnd(p: string, i: nat, permit: bool)
    requires Whole(p, i) && !(permit && i + 2 == |p|)
    ensures permit ==> (EndsWhole(CutParent(p, i)) <==> EndsWhole(p))
  {
    if permit {
      CutKeepsEnd(p, i);
    }
  }

  /** Resolving twice is resolving once, whichever way a final ".." is treated. */
  lemma {:induction false} ResolveIdempotent(p: string, permit: bool)
    ensures ResolveText(ResolveText(p, permit), permit) == ResolveText(p, permit)
  {
    var r := RemoveDotDot(p, permit);
    RemovalIsStable(p, permit);
    var t := TrimDot(r, permit);
    if t != r {
      forall k | Whole(t, k) ensures Whole(r, k) {}
      assert NoWhole(t) by { RemovalIsFold(p, permit); }
      assert FirstWhole(t, 0) == |t|;
    }
  }

  lemma {:induction false} RemovalIsStable(p: string, permit: bool)
    ensures RemoveDotDot(RemoveDotDot(p, permit), permit) == RemoveDotDot(p, permit)
    decreases |p|
  {
    var i := FirstWhole(p, 0);
    if i < |p| && !(permit && i + 2 == |p|) {
      RemovalIsStable(CutParent(p, i), permit);
    }
  }

  lemma {:induction false} ResolveKeepsAbsolute(p: string, permit: bool)
    requires IsAbsolute(p)
    ensures IsAbsolute(ResolveText(p, permit))
    decreases |p|
  {
    var i := FirstWhole(p, 0);
    if i < |p| && !(permit && i + 2 == |p|) {
      CutKeepsAbsolute(p, i);
      ResolveKeepsAbsolute(CutParent(p, i), permit);
    }
  }

  lemma CutKeepsAbsolute(p: string, i: nat)
    requires IsAbsolute(p) && Whole(p, i)
    ensures IsAbsolute(CutParent(p, i))
    ensures ParentStart(p, i) >= 1
  {
    var j := RunStart(p, SkipSlashes(p, i) - 1);
    assert i > 0;
  }

  /** One removal does not change whether the end is a slash or the fold is empty. */
  lemma CutEndsSlash(p: string, i: nat)
    requires IsAbsolute(p) && Whole(p, i) && NoWholeBefore(p, i)
    ensures EndsSlash(CutParent(p, i)) || Fold(Comps(p), []) == [] <==> EndsSlash(p) || Fold(Comps(p), []) == []
  {
    if i + 2 < |p| {
      CutKeepsEnd(p, i);
    } else {
      CutFold(p, i, false);
      assert CutParent(p, i) == p[..ParentStart(p, i)];
      CutAtEnd(p, i);
    }
  }

  /** The removals end in a slash exactly when the text did or nothing but the root is left. */
  lemma {:induction false} RemovalEndsSlash(p: string)
    requires IsAbsolute(p)
    ensures EndsSlash(RemoveDotDot(p, false)) <==> EndsSlash(p) || Fold(Comps(p), []) == []
    decreases |p|
  {
    var i := FirstWhole(p, 0);
    if i == |p| {
      RemovalIsFold(p, false);
      if Comps(p) == [] {
        NoNamesEndsSlash(p);
      }
    } else {
      CutKeepsAbsolute(p, i);
      CutFold(p, i, false);
      CutEndsSlash(p, i);
      RemovalEndsSlash(CutParent(p, i));
    }
  }

  lemma {:induction false} NoNamesEndsSlash(p: string)
    requires p != "" && Comps(p) == []
    ensures EndsSlash(p)
  {
    if |p| > 1 {
      NoNamesEndsSlash(p[1..]);
    }
  }

  /** What is left before a final ".." and its parent ends in a slash only at the root. */
  lemma CutAtEnd(p: string, i: nat)
    requires IsAbsolute(p) && Whole(p, i) && NoWholeBefore(p, i)
    ensures EndsSlash(p[..ParentStart(p, i)]) ==> Fold(Comps(p[..ParentStart(p, i)]), []) == []
  {
    var c := p[..ParentStart(p, i)];
    if EndsSlash(c) {
      assert |c| == 1;
      assert Comps(c) == [] by { CompsOfSlashes(c); }
    }
  }

  /**
    The clean contract for an absolute path: the result is absolute, no longer, free of
    "..", and its components are the stack fold, less one final "." with no slash after it.
   */
  lemma ResolveIsFold(p: string)
    requires IsAbsolute(p)
    ensures IsAbsolute(ResolveText(p, false))
    ensures |ResolveText(p, false)| <= |p|
    ensures DOTDOT !in Comps(ResolveText(p, false))
    ensures Comps(ResolveText(p, false)) ==
            var f := Fold(Comps(p), []);
            if f != [] && f[|f| - 1] == "." && !EndsSlash(p) then DropLast(f) else f
  {
    hide Comps, RemoveDotDot, Fold, NoWhole;
    var r, f := RemoveDotDot(p, false), Fold(Comps(p), []);
    ResolveKeepsAbsolute(p, false);
    RemovalIsFold(p, false);
    FoldHasNoDotDot(Comps(p), []);
    RemovalEndsSlash(p);
    assert IsAbsolute(r) by { RemovalKeepsAbsolute(p); }
    FinalDot(r);
  }

  lemma {:induction false} RemovalKeepsAbsolute(p: string)
    requires IsAbsolute(p)
    ensures IsAbsolute(RemoveDotDot(p, false))
    decreases |p|
  {
    var i := FirstWhole(p, 0);
    if i < |p| {
      CutKeepsAbsolute(p, i);
      RemovalKeepsAbsolute(CutParent(p, i));
    }
  }

  /** The trim takes exactly a final component "." off. */
  lemma FinalDot(r: string)
    requires IsAbsolute(r)
    ensures EndsSlashDot(r) <==> Comps(r) != [] && Comps(r)[|Comps(r)| - 1] == "." && !EndsSlash(r)
    ensures EndsSlashDot(r) ==> Comps(r[..|r| - 1]) == DropLast(Comps(r))
  {
    if !EndsSlash(r) {
      var m := NameStart(r);
      assert m > 0;
      assert r == r[..m] + r[m..];
      CompsAppend(r[..m], r[m..]);
      CompsOfName(r[m..]);
      if EndsSlashDot(r) {
        assert m == |r| - 1;
        assert r[m..] == ".";
      }
    }
  }
}
