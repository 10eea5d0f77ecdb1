/** What FSBuildPath and FSResolvePath compute, and what that means for the exposed and the real path. */
module PathResolve {
  import opened Wrappers
  import opened PathText
  import opened PathScan

  // ----- joining two paths -----

  /** The text with every run of slashes shortened to one; `last` is the character before it. */
  function Collapse(s: string, last: char): (r: string)
    ensures |r| <= |s|
  {
    if s == "" then ""
    else if last == '/' && s[0] == '/' then Collapse(s[1..], last)
    else [s[0]] + Collapse(s[1..], s[0])
  }

  function LastOf(s: string, last: char): char {
    if s == "" then last else s[|s| - 1]
  }

  const START: char := '\0'

  function BuildPath(a: string, b: string): string {
    Collapse(a + "/" + b, START)
  }

  predicate Collapsed(s: string) {
    forall i :: 0 < i < |s| ==> !(s[i - 1] == '/' && s[i] == '/')
  }

  lemma {:induction false} CollapseAppend(a: string, b: string, last: char)
    ensures Collapse(a + b, last) == Collapse(a, last) + Collapse(b, LastOf(a, last))
  {
    if a == "" {
      assert a + b == b;
    } else {
      assert (a + b)[1..] == a[1..] + b;
      CollapseAppend(a[1..], b, a[0]);
    }
  }

  lemma {:induction false} CollapseName(n: string, last: char)
    requires '/' !in n
    ensures Collapse(n, last) == n
  {
    if n != "" {
      CollapseName(n[1..], n[0]);
    }
  }

  /** Collapsing keeps the components. */
  lemma {:induction false} CollapseComps(s: string, last: char)
    ensures Comps(Collapse(s, last)) == Comps(s)
    decreases |s|
  {
    if s == "" {
    } else if s[0] == '/' {
      CollapseComps(s[1..], '/');
      if last != '/' {
        assert Collapse(s, last)[1..] == Collapse(s[1..], '/');
      }
    } else {
      var k := NameEnd(s);
      var n, rest := s[..k], s[k..];
      assert s == n + rest;
      CollapseAppend(n, rest, last);
      CollapseName(n, last);
      CollapseComps(rest, LastOf(n, last));
      CompsAppend(n, Collapse(rest, LastOf(n, last)));
      CompsOfName(n);
    }
  }

  /** Collapsing leaves no two slashes in a row, and the first one alone. */
  lemma {:induction false} CollapseIsCollapsed(s: string, last: char)
    ensures Collapsed(Collapse(s, last))
    ensures last == '/' && Collapse(s, last) != "" ==> Collapse(s, last)[0] != '/'
  {
    if s != "" {
      CollapseIsCollapsed(s[1..], s[0]);
    }
  }

  lemma {:induction false} CollapsedIsFixed(s: string, last: char)
    requires Collapsed(s)
    requires s != "" && last == '/' ==> s[0] != '/'
    ensures Collapse(s, last) == s
  {
    if s != "" {
      var t := s[1..];
      assert t != "" ==> t[0] == s[1];
      assert Collapsed(t) by {
        forall i | 0 < i < |t| ensures !(t[i - 1] == '/' && t[i] == '/') {
          assert t[i - 1] == s[i] && t[i] == s[i + 1];
        }
      }
      CollapsedIsFixed(t, s[0]);
    }
  }

  /** A collapse that drops nothing changes nothing. */
  lemma {:induction false} CollapseSameLength(s: string, last: char)
    requires |Collapse(s, last)| == |s|
    ensures Collapse(s, last) == s
  {
    if s != "" {
      CollapseSameLength(s[1..], s[0]);
    }
  }

  /** The components of a joined path are those of its two parts. */
  lemma BuildComps(a: string, b: string)
    ensures Comps(BuildPath(a, b)) == Comps(a) + Comps(b)
    ensures Collapsed(BuildPath(a, b))
  {
    CollapseComps(a + "/" + b, START);
    CollapseIsCollapsed(a + "/" + b, START);
    CompsAppend(a, "/");
    CompsOfSlashes("/");
    CompsAppend(a + "/", b);
  }

  lemma BuildAbsolute(a: string, b: string)
    requires a == "" || IsAbsolute(a)
    ensures IsAbsolute(BuildPath(a, b))
  {
    var s := a + "/" + b;
    assert s[0] == '/';
  }

  /** A join ends in "/." only when its second part does, or is ".". */
  lemma BuildEndsSlashDot(a: string, b: string)
    requires IsAbsolute(b) && !EndsSlashDot(b)
    ensures !EndsSlashDot(BuildPath(a, b))
  {
    var r := BuildPath(a, b);
    CollapseAppend(a, "/" + b, START);
    assert a + ("/" + b) == a + "/" + b;
    var last := LastOf(a, START);
    var c := Collapse("/" + b, last);
    if EndsSlash(b) {
      CollapseEnd(a + "/" + b, START);
    } else {
      CollapseEnd(a + "/" + b, START);
      var s := a + "/" + b;
      assert s[|s| - 1] == b[|b| - 1] && s[|s| - 2] == b[|b| - 2];
      CollapseBeforeEnd(s, START);
    }
  }

  lemma {:induction false} CollapseEnd(s: string, last: char)
    requires s != ""
    ensures Collapse(s, last) == "" ==> last == '/' && s[|s| - 1] == '/'
    ensures Collapse(s, last) != "" ==> Collapse(s, last)[|Collapse(s, last)| - 1] == s[|s| - 1]
  {
    if |s| > 1 {
      CollapseEnd(s[1..], s[0]);
    }
  }

  /** If the last character is no slash, the one before it survives too. */
  lemma CollapseBeforeEnd(s: string, last: char)
    requires |s| >= 2 && s[|s| - 1] != '/'
    ensures var r := Collapse(s, last);
            && |r| >= 1 && r[|r| - 1] == s[|s| - 1]
            && (|r| >= 2 ==> r[|r| - 2] == s[|s| - 2])
  {
    var a, b := s[..|s| - 1], s[|s| - 1..];
    assert s == a + b;
    CollapseAppend(a, b, last);
    CollapseEnd(a, last);
    assert Collapse(b, LastOf(a, last)) == b by {
      CollapseName(b, LastOf(a, last));
    }
  }

  // ----- resolving a request -----

  /** The session's home: its real directory, and under a virtual root the exposed one. */
  datatype Home = Home(realPath: string, exposedPath: Option<string>)

  datatype Resolved = Resolved(exposedPath: string, realPath: string)

  function StartPath(h: Home, path1: string): string {
    if IsAbsolute(path1) then path1
    else BuildPath(if h.exposedPath.None? then h.realPath else h.exposedPath.value, path1)
  }

  /** Exposed and real path after the first pass, before path2; `start` is where that pass began, `exposed` its result. */
  function AfterFirst(h: Home, start: string, exposed: string): Resolved {
    Resolved(exposed, if h.exposedPath.None? then start else BuildPath(h.realPath, exposed))
  }

  function JoinName(h: Home, r: Resolved, path2: Option<string>): Resolved {
    match path2
    case None => r
    case Some(name) =>
      var exposed := BuildPath(r.exposedPath, name);
      Resolved(exposed, if h.exposedPath.Some? then BuildPath(r.realPath, name) else exposed)
  }

  /** Both strings as they are before the final pass, as the code computes them. */
  function ScanFirst(h: Home, path1: string, path2: Option<string>, permit: bool): Option<Resolved> {
    var start := StartPath(h, path1);
    var e := ScanText(start, permit);
    if e.None? then None else Some(JoinName(h, AfterFirst(h, start, e.value), path2))
  }

  /** FSResolvePath as the code computes it; None when a scan pointer gets behind the end of its string. */
  function ScanPath(h: Home, path1: string, path2: Option<string>, permit: bool): Option<Resolved> {
    var r := ScanFirst(h, path1, path2, permit);
    if r.None? then None
    else
      var e, t := ScanText(r.value.exposedPath, permit), ScanText(r.value.realPath, permit);
      if e.None? || t.None? then None else Some(Resolved(e.value, t.value))
  }

  /** The same with every pass computing the stack fold. */
  function Joined(h: Home, path1: string, path2: Option<string>, permit: bool): Resolved {
    var start := StartPath(h, path1);
    JoinName(h, AfterFirst(h, start, ResolveText(start, permit)), path2)
  }

  function ResolvePath(h: Home, path1: string, path2: Option<string>, permit: bool): Resolved {
    var r := Joined(h, path1, path2, permit);
    Resolved(ResolveText(r.exposedPath, permit), ResolveText(r.realPath, permit))
  }

  /** The name shown for a path: what follows the last slash, a final one not counted. */
  function BaseName(e: string): string {
    var i := RSlash(e, |e| - 2);
    if i < 0 then e
    else if EndsSlash(e) then e[i + 1..|e| - 1]
    else e[i + 1..]
  }

  function RSlash(e: string, i: int): (r: int)
    requires i < |e|
    ensures r <= i
    ensures r >= 0 ==> e[r] == '/'
    ensures forall k :: r < k <= i && 0 <= k ==> e[k] != '/'
    decreases i + 1
  {
    if i < 0 then i else if e[i] == '/' then i else RSlash(e, i - 1)
  }

  /** In none of the resolver's calls for this request a ".." is missed. */
  predicate CallSafe(h: Home, path1: string, path2: Option<string>, permit: bool) {
    var r := Joined(h, path1, path2, permit);
    && Unmissed(StartPath(h, path1), permit)
    && Unmissed(r.exposedPath, permit)
    && Unmissed(r.realPath, permit)
  }

  /** What the code computes for a safe call. */
  lemma ScanPathResolves(h: Home, path1: string, path2: Option<string>, permit: bool)
    requires CallSafe(h, path1, path2, permit)
    ensures ScanPath(h, path1, path2, permit) == Some(ResolvePath(h, path1, path2, permit))
  {
    hide ScanText, Unmissed, ResolveText, StartPath, JoinName;
    var r := Joined(h, path1, path2, permit);
    ScanResolves(StartPath(h, path1), permit);
    ScanResolves(r.exposedPath, permit);
    ScanResolves(r.realPath, permit);
  }

  lemma NoWholeIsSafe(p: string, permit: bool)
    requires NoWhole(p)
    ensures Unmissed(p, permit)
    ensures RemoveDotDot(p, permit) == p
    ensures !EndsWhole(p)
  {
    NoWholeIsUnmissed(p, permit);
    assert FirstWhole(p, 0) == |p|;
    assert EndsWhole(p) ==> Whole(p, |p| - 2);
  }

  lemma BuildNoWhole(a: string, b: string)
    requires NoWhole(a) && NoWhole(b)
    ensures NoWhole(BuildPath(a, b))
  {
    NoWholeComps(a);
    NoWholeComps(b);
    BuildComps(a, b);
    NoWholeComps(BuildPath(a, b));
  }

  lemma ResolvedHasNoWhole(p: string)
    ensures NoWhole(ResolveText(p, false))
    ensures !EndsSlashDot(ResolveText(p, false))
    ensures ResolveText(ResolveText(p, false), false) == ResolveText(p, false)
    ensures Unmissed(ResolveText(p, false), false)
  {
    var r := RemoveDotDot(p, false);
    RemovalIsFold(p, false);
    var t := TrimDot(r, false);
    forall k | Whole(t, k) ensures Whole(r, k) {}
    NoWholeIsSafe(t, false);
    ResolveIdempotent(p, false);
  }

  /** Without a path2, no call misses a ".." as soon as the first, on the starting path, does not. */
  lemma RequestIsSafe(h: Home, path1: string)
    requires NoWhole(h.realPath)
    requires Unmissed(StartPath(h, path1), false)
    ensures CallSafe(h, path1, None, false)
  {
    ResolvedHasNoWhole(StartPath(h, path1));
    BuildNoWhole(h.realPath, ResolveText(StartPath(h, path1), false));
    NoWholeIsSafe(BuildPath(h.realPath, ResolveText(StartPath(h, path1), false)), false);
  }

  // ----- what the two paths mean -----

  /** Without a virtual root the two paths are equal strings, though one was resolved twice. */
  lemma SamePathWithoutRoot(h: Home, path1: string, path2: Option<string>, permit: bool)
    requires h.exposedPath.None? && ScanPath(h, path1, path2, permit).Some?
    requires path2.Some? || Unmissed(StartPath(h, path1), permit)
    ensures var r := ScanPath(h, path1, path2, permit).value;
            r.realPath == r.exposedPath
  {
    hide ScanText, Unmissed, ResolveText, StartPath;
    if path2.None? {
      ScanTwice(StartPath(h, path1), permit);
    }
  }

  /**
    For a request of one part, when the second pass misses nothing: exactly if the first left no "..".
    The condition is on the string between the two passes, whatever the first one missed; that the
    request misses nothing suffices for it, but a missed ".." may also be popped by another.
   */
  lemma SamePathIff(h: Home, path1: string)
    requires h.exposedPath.None? && ScanText(StartPath(h, path1), false).Some?
    requires Unmissed(ScanText(StartPath(h, path1), false).value, false)
    ensures ScanPath(h, path1, None, false).Some?
    ensures var r := ScanPath(h, path1, None, false).value;
            r.realPath == r.exposedPath <==> NoWhole(ScanText(StartPath(h, path1), false).value)
  {
    hide Scan, Unmissed, ResolveText, StartPath, NoWhole;
    var e := ScanText(StartPath(h, path1), false).value;
    ScanResolves(e, false);
    SecondCallIdle(e);
  }

  /** Under a virtual root the real path of a request that misses nothing is the home joined with the exposed path. */
  lemma RealIsHomeJoined(h: Home, path1: string)
    requires h.exposedPath.Some? && IsAbsolute(h.exposedPath.value)
    requires NoWhole(h.realPath) && Unmissed(StartPath(h, path1), false)
    ensures ScanPath(h, path1, None, false).Some?
    ensures var r := ScanPath(h, path1, None, false).value;
            && r.exposedPath == ResolveText(StartPath(h, path1), false)
            && IsAbsolute(r.exposedPath)
            && r.realPath == BuildPath(h.realPath, r.exposedPath)
  {
    hide ScanText, Unmissed, ScanPath, CallSafe;
    RequestIsSafe(h, path1);
    ScanPathResolves(h, path1, None, false);
    var start := StartPath(h, path1);
    var e := ResolveText(start, false);
    StartIsAbsolute(h, path1);
    ResolveKeepsAbsolute(start, false);
    ResolvedHasNoWhole(start);
    BuildNoWhole(h.realPath, e);
    NoWholeIsSafe(BuildPath(h.realPath, e), false);
    BuildEndsSlashDot(h.realPath, e);
  }

  lemma StartIsAbsolute(h: Home, path1: string)
    requires h.exposedPath.Some? && IsAbsolute(h.exposedPath.value)
    ensures IsAbsolute(StartPath(h, path1))
  {
    if !IsAbsolute(path1) {
      BuildAbsolute(h.exposedPath.value, path1);
    }
  }

  /** The names of a request as the client means it: a relative one goes on from the home that the client sees. */
  function RequestNames(h: Home, path1: string): seq<string> {
    if IsAbsolute(path1) then Comps(path1)
    else Comps(if h.exposedPath.Some? then h.exposedPath.value else h.realPath) + Comps(path1)
  }

  /** A virtual root is absolute, and the real home below it has no "..". */
  predicate NormalHome(h: Home) {
    h.exposedPath.Some? ==> IsAbsolute(h.exposedPath.value) && NoWhole(h.realPath)
  }

  lemma StartNames(h: Home, path1: string)
    ensures Comps(StartPath(h, path1)) == RequestNames(h, path1)
    ensures EndsSlash(StartPath(h, path1)) <==> path1 == "" || EndsSlash(path1)
  {
    hide Comps, BuildPath;
    if !IsAbsolute(path1) {
      var home := if h.exposedPath.Some? then h.exposedPath.value else h.realPath;
      BuildComps(home, path1);
      if path1 == "" {
        CollapseEnd(home + "/", START);
        assert home + "/" + "" == home + "/";
        EmptyBuild(home);
      } else {
        BuildEndsSlash(home, path1);
      }
    }
  }

  lemma EmptyBuild(home: string)
    ensures EndsSlash(BuildPath(home, ""))
  {
    var s := home + "/" + "";
    CollapseEnd(s, START);
  }

  /**
    A relative request of which nothing is missed: its exposed path has the names that the fold makes
    of the home's, the real one's without a virtual root, the exposed one's with it, and the request's.
   */
  lemma RelativeIsFold(h: Home, path1: string)
    requires !IsAbsolute(path1) && NormalHome(h)
    requires var home := if h.exposedPath.Some? then h.exposedPath.value else h.realPath;
             IsAbsolute(home) && Unmissed(BuildPath(home, path1), false)
    ensures ScanPath(h, path1, None, false).Some?
    ensures var home := if h.exposedPath.Some? then h.exposedPath.value else h.realPath;
            var r, f := ScanPath(h, path1, None, false).value, Fold(Comps(home) + Comps(path1), []);
            && Comps(r.exposedPath) == (if f != [] && f[|f| - 1] == "." && path1 != "" && !EndsSlash(path1) then DropLast(f) else f)
            && Comps(r.realPath) == (if h.exposedPath.Some? then Comps(h.realPath) else []) + Comps(r.exposedPath)
            && IsAbsolute(r.exposedPath)
  {
    hide ScanText, Unmissed, ScanPath, Comps, Fold, BuildPath, NoWhole, EndsSlash;
    BuildAbsolute(if h.exposedPath.Some? then h.exposedPath.value else h.realPath, path1);
    RequestIsFold(h, path1);
  }

  /** An absolute request of which nothing is missed: the fold of its own names alone. */
  lemma AbsoluteIsFold(h: Home, path1: string)
    requires IsAbsolute(path1) && Unmissed(path1, false) && NormalHome(h)
    ensures ScanPath(h, path1, None, false).Some?
    ensures var r, f := ScanPath(h, path1, None, false).value, Fold(Comps(path1), []);
            && Comps(r.exposedPath) == (if f != [] && f[|f| - 1] == "." && !EndsSlash(path1) then DropLast(f) else f)
            && Comps(r.realPath) == (if h.exposedPath.Some? then Comps(h.realPath) else []) + Comps(r.exposedPath)
            && IsAbsolute(r.exposedPath)
  {
    hide ScanText, Unmissed, ScanPath, Comps, Fold, BuildPath, NoWhole, EndsSlash;
    RequestIsFold(h, path1);
  }

  /** Both kinds of requests. */
  lemma RequestIsFold(h: Home, path1: string)
    requires IsAbsolute(StartPath(h, path1)) && Unmissed(StartPath(h, path1), false) && NormalHome(h)
    ensures ScanPath(h, path1, None, false).Some?
    ensures var r, f := ScanPath(h, path1, None, false).value, Fold(RequestNames(h, path1), []);
            && Comps(r.exposedPath) ==
               (if f != [] && f[|f| - 1] == "." && path1 != "" && !EndsSlash(path1) then DropLast(f) else f)
            && Comps(r.realPath) == (if h.exposedPath.Some? then Comps(h.realPath) else []) + Comps(r.exposedPath)
            && IsAbsolute(r.exposedPath)
  {
    hide ScanText, Unmissed, ScanPath, Comps, Fold, BuildPath, NoWhole, EndsSlash, ResolveText, StartPath, RequestNames;
    var start := StartPath(h, path1);
    StartNames(h, path1);
    ResolveIsFold(start);
    if h.exposedPath.None? {
      WithoutRootResolves(h, path1);
    } else {
      RealIsHomeJoined(h, path1);
      BuildComps(h.realPath, ResolveText(start, false));
    }
  }

  lemma WithoutRootResolves(h: Home, path1: string)
    requires h.exposedPath.None? && Unmissed(StartPath(h, path1), false)
    ensures var e := ResolveText(StartPath(h, path1), false);
            ScanPath(h, path1, None, false) == Some(Resolved(e, e))
  {
    hide ScanText, Unmissed, ResolveText, StartPath;
    ScanResolves(StartPath(h, path1), false);
    ScanTwice(StartPath(h, path1), false);
  }

  /**
    Containment: under a virtual root the components of the real path are the home's,
    followed by the stack fold of the request, and no ".." is among them.
   */
  lemma RealStaysUnderHome(h: Home, path1: string)
    requires h.exposedPath.Some? && IsAbsolute(h.exposedPath.value)
    requires NoWhole(h.realPath) && Unmissed(StartPath(h, path1), false)
    ensures ScanPath(h, path1, None, false).Some?
    ensures var r := ScanPath(h, path1, None, false).value;
            && Comps(r.realPath) == Comps(h.realPath) + Comps(r.exposedPath)
            && DOTDOT !in Comps(r.realPath)
            && DOTDOT !in Comps(r.exposedPath)
    ensures var r, f := ScanPath(h, path1, None, false).value, Fold(RequestNames(h, path1), []);
            Comps(r.exposedPath) ==
            if f != [] && f[|f| - 1] == "." && path1 != "" && !EndsSlash(path1) then DropLast(f) else f
  {
    hide ScanText, Unmissed, ScanPath, Comps, Fold, StartPath, NoWhole, EndsSlash, RequestNames;
    StartIsAbsolute(h, path1);
    RequestIsFold(h, path1);
    NoWholeComps(h.realPath);
    FoldHasNoDotDot(RequestNames(h, path1), []);
  }

  /** How many of n names at the bottom are left when d more lie above them: each ".." that finds none above takes one. */
  function Remaining(cs: seq<string>, n: nat, d: nat): (r: nat)
    ensures r <= n
    decreases |cs|
  {
    if cs == [] then n
    else if cs[0] != DOTDOT then Remaining(cs[1..], n, d + 1)
    else if d > 0 then Remaining(cs[1..], n, d - 1)
    else Remaining(cs[1..], if n > 0 then n - 1 else 0, 0)
  }

  /** Some ".." finds nothing to pop. */
  predicate Climbs(cs: seq<string>, d: nat)
    decreases |cs|
  {
    if cs == [] then false
    else if cs[0] != DOTDOT then Climbs(cs[1..], d + 1)
    else d == 0 || Climbs(cs[1..], d - 1)
  }

  lemma {:induction false} RemainsIff(cs: seq<string>, n: nat, d: nat)
    ensures Remaining(cs, n, d) == n <==> n == 0 || !Climbs(cs, d)
    decreases |cs|
  {
    if cs == [] {
    } else if cs[0] != DOTDOT {
      RemainsIff(cs[1..], n, d + 1);
    } else if d > 0 {
      RemainsIff(cs[1..], n, d - 1);
    } else if n == 0 {
      RemainsIff(cs[1..], 0, 0);
    }
  }

  /** The fold above a base: what the base loses, and the fold without it. */
  lemma {:induction false} FoldAbove(cs: seq<string>, base: seq<string>, stack: seq<string>)
    ensures Fold(cs, base + stack) == base[..Remaining(cs, |base|, |stack|)] + Fold(cs, stack)
    ensures NoDottedPop(cs, base + stack) ==> NoDottedPop(cs, stack)
    decreases |cs|
  {
    var all := base + stack;
    if cs == [] {
    } else if cs[0] != DOTDOT {
      assert all + [cs[0]] == base + (stack + [cs[0]]);
      FoldAbove(cs[1..], base, stack + [cs[0]]);
    } else if stack != [] {
      assert DropLast(all) == base + DropLast(stack) && all[|all| - 1] == stack[|stack| - 1];
      FoldAbove(cs[1..], base, DropLast(stack));
    } else {
      assert DropLast(all) == DropLast(base) + [];
      FoldAbove(cs[1..], DropLast(base), []);
      assert DropLast(base)[..Remaining(cs[1..], |DropLast(base)|, 0)] == base[..Remaining(cs, |base|, 0)];
    }
  }

  lemma FoldAboveNames(cs: seq<string>, base: seq<string>)
    requires DOTDOT !in base
    ensures Fold(base + cs, []) == base[..Remaining(cs, |base|, 0)] + Fold(cs, [])
    ensures NoDottedPop(base + cs, []) ==> NoDottedPop(cs, [])
  {
    FoldNames(base, cs, []);
    assert [] + base == base + [];
    FoldAbove(cs, base, []);
  }

  lemma BuildEndsSlash(a: string, b: string)
    requires b != ""
    ensures EndsSlash(BuildPath(a, b)) <==> EndsSlash(b)
  {
    CollapseEnd(a + "/" + b, START);
  }

  /**
    The real path of any request, whatever its first pass missed, when the second pass misses nothing:
    the home loses one name for each ".." of the first pass's result that finds nothing to pop.
   */
  lemma RealAboveHome(h: Home, path1: string)
    requires h.exposedPath.Some? && IsAbsolute(h.exposedPath.value)
    requires IsAbsolute(h.realPath) && NoWhole(h.realPath) && "." !in Comps(h.realPath)
    requires ScanText(StartPath(h, path1), false).Some?
    requires Unmissed(ScanText(StartPath(h, path1), false).value, false)
    requires Unmissed(BuildPath(h.realPath, ScanText(StartPath(h, path1), false).value), false)
    ensures ScanPath(h, path1, None, false).Some?
    ensures var e := ScanText(StartPath(h, path1), false).value;
            var r, home := ScanPath(h, path1, None, false).value, Comps(h.realPath);
            Comps(r.realPath) == home[..Remaining(Comps(e), |home|, 0)] + Comps(r.exposedPath)
  {
    hide Comps, BuildPath, ResolveText, NoWhole, Fold, Remaining, StartPath, Scan, EndsSlash, NoDottedPop;
    var start := StartPath(h, path1);
    var e := ScanText(start, false).value;
    var b, home := BuildPath(h.realPath, e), Comps(h.realPath);
    StartIsAbsolute(h, path1);
    ScanKeepsAbsolute(start, 0, false);
    assert IsAbsolute(e);
    NoWholeComps(h.realPath);
    BuildComps(h.realPath, e);
    BuildAbsolute(h.realPath, e);
    BuildEndsSlash(h.realPath, e);
    FoldAboveNames(Comps(e), home);
    ScanResolves(e, false);
    ScanResolves(b, false);
    ResolveIsFold(e);
    ResolveIsFold(b);
    TrimAbove(home[..Remaining(Comps(e), |home|, 0)], Fold(Comps(e), []));
  }

  /** Cutting a last "." off two lists that end alike. */
  lemma TrimAbove(base: seq<string>, f: seq<string>)
    requires "." !in base
    ensures var g := base + f;
            && (g != [] && g[|g| - 1] == "." <==> f != [] && f[|f| - 1] == ".")
            && (f != [] ==> DropLast(g) == base + DropLast(f))
  {
  }

  /**
    Containment fails exactly when the first pass's result climbs: some ".." in it finds nothing to pop.
    Requests whose second pass misses a ".." are not covered; what it leaves then is ScanIsMarkedFold's.
   */
  lemma ContainedIff(h: Home, path1: string)
    requires h.exposedPath.Some? && IsAbsolute(h.exposedPath.value)
    requires IsAbsolute(h.realPath) && NoWhole(h.realPath) && "." !in Comps(h.realPath) && Comps(h.realPath) != []
    requires ScanText(StartPath(h, path1), false).Some?
    requires Unmissed(ScanText(StartPath(h, path1), false).value, false)
    requires Unmissed(BuildPath(h.realPath, ScanText(StartPath(h, path1), false).value), false)
    ensures ScanPath(h, path1, None, false).Some?
    ensures var e, r := ScanText(StartPath(h, path1), false).value, ScanPath(h, path1, None, false).value;
            Comps(r.realPath) == Comps(h.realPath) + Comps(r.exposedPath) <==> !Climbs(Comps(e), 0)
  {
    hide Comps, BuildPath, NoWhole, Remaining, StartPath, ScanText, ScanPath, Unmissed, Climbs;
    var e, home := ScanText(StartPath(h, path1), false).value, Comps(h.realPath);
    RealAboveHome(h, path1);
    RemainsIff(Comps(e), |home|, 0);
    assert home[..|home|] == home;
  }

  lemma MissedJoined()
    ensures BuildPath("/h", "//../x") == "/h/../x" && CutParent("/h/../x", 3) == "//x"
  {
    hide SkipSlashes, RunStart;
    var s := "/h/../x";
    assert BuildPath("/h", "//../x") == s by {
      assert "/h" + "/" + "//../x" == "/h/" + "//../x";
      CollapseAppend("/h/", "//../x", START);
      CollapsedIsFixed("/h/", START);
      CollapsedIsFixed("../x", '/');
      assert Collapse("//../x", '/') == Collapse("/../x", '/') == "../x";
      assert "/h/" + "../x" == s;
    }
    assert SkipSlashes(s, 3) == 2 by { assert s[1] == 'h' && s[2] == '/'; }
    assert RunStart(s, 1) == 0 by { assert s[0] == '/' && s[1] == 'h'; }
  }

  /** With the home "/h", the request of OneIsMissed is resolved to "//x": containment does not hold for it. */
  lemma MissedIsNotContained()
    ensures var h := Home("/h", Some("/"));
            && ScanPath(h, MISSED, None, false) == Some(Resolved("//x", "//x"))
            && Comps("//x") != Comps(h.realPath) + Comps("//x")
  {
    hide Scan, BuildPath, CutParent, Comps;
    var s := "/h/../x";
    OneIsMissed();
    MissedJoined();
    ScanCut(s, 0, 3);
    ScanStops("//x", 0);
    CompsOfName("h");
    CompsAppend("/", "h");
    assert "/" + "h" == "/h";
  }

  // ----- directory entries -----

  /** What FSOpenDir makes of the path it is given, and what is kept for reading the directory. */
  function OpenedDir(h: Home, dir: string): string {
    if h.exposedPath.Some? && ScanText(dir, false).Some? then ScanText(dir, false).value else dir
  }

  /** Resolving a join with one name, a final ".." being permitted. */
  lemma NameIsLast(a: string, name: string)
    requires name != "" && '/' !in name
    ensures Comps(ResolveText(BuildPath(a, name), true)) == Fold(Comps(a), []) + [name]
  {
    hide Comps, Fold, RemoveDotDot, EndsWhole;
    var p := BuildPath(a, name);
    BuildComps(a, name);
    CompsOfName(name);
    JoinEndsWhole(a, name);
    RemovalIsFold(p, true);
    if name != DOTDOT {
      FoldSnoc(Comps(a), name, []);
    } else {
      assert DropLast(Comps(a) + [name]) == Comps(a);
    }
    assert Fold(Comps(a) + [name], []) + [] == Fold(Comps(a) + [name], []);
  }

  lemma {:induction false} FoldSnoc(cs: seq<string>, name: string, stack: seq<string>)
    requires name != DOTDOT
    ensures Fold(cs + [name], stack) == Fold(cs, stack) + [name]
    decreases |cs|
  {
    if cs == [] {
      assert Fold([], stack + [name]) == stack + [name];
    } else {
      assert (cs + [name])[1..] == cs[1..] + [name];
      FoldSnoc(cs[1..], name, if cs[0] != DOTDOT then stack + [cs[0]] else DropLast(stack));
    }
  }

  lemma JoinEndsWhole(a: string, name: string)
    requires name != "" && '/' !in name
    ensures EndsWhole(BuildPath(a, name)) <==> name == DOTDOT
  {
    hide Collapse;
    var q := Collapse(a + "/", START);
    CollapseAppend(a + "/", name, START);
    CollapseName(name, '/');
    CollapseEnd(a + "/", START);
    var p := BuildPath(a, name);
    assert p == q + name && q[|q| - 1] == '/';
    if EndsWhole(p) {
      assert |name| >= 2 by { assert p[|p| - 2] != '/'; }
      assert name == DOTDOT;
    }
  }

  /**
    Where FSReadDir looks an entry up, ".." included: behind the names that the directory's path
    has without a root, and behind those it has below the home.
   */
  lemma EntryPath(h: Home, path1: string, name: string)
    requires name != "" && '/' !in name
    requires CallSafe(h, path1, Some(name), true)
    ensures ScanPath(h, path1, Some(name), true).Some?
    ensures var r, d := ScanPath(h, path1, Some(name), true).value, Comps(ResolveText(StartPath(h, path1), true));
            && Comps(r.exposedPath) == Fold(d, []) + [name]
            && Comps(r.realPath) == Fold((if h.exposedPath.Some? then Comps(h.realPath) else []) + d, []) + [name]
  {
    hide ResolveText, BuildPath, Comps, StartPath, Fold, ScanPath, CallSafe;
    var e := ResolveText(StartPath(h, path1), true);
    ScanPathResolves(h, path1, Some(name), true);
    NameIsLast(e, name);
    if h.exposedPath.Some? {
      NameIsLast(BuildPath(h.realPath, e), name);
      BuildComps(h.realPath, e);
    } else {
      assert [] + Comps(e) == Comps(e);
    }
  }

  /**
    The entry lies below the home at its exposed path exactly when the directory's path does not
    come to the ".." of the root. The entry ".." of the root itself is looked up as home/.. .
   */
  lemma EntryUnderHomeIff(h: Home, path1: string, name: string)
    requires h.exposedPath.Some? && name != "" && '/' !in name
    requires NoWhole(h.realPath) && Comps(h.realPath) != []
    requires CallSafe(h, path1, Some(name), true)
    ensures ScanPath(h, path1, Some(name), true).Some?
    ensures var r, d := ScanPath(h, path1, Some(name), true).value, Comps(ResolveText(StartPath(h, path1), true));
            && (Comps(r.realPath) == Comps(h.realPath) + Comps(r.exposedPath) <==> d != [DOTDOT])
            && (d == [] ==> Comps(r.realPath) == Comps(h.realPath) + [name])
  {
    hide ResolveText, Comps, StartPath, Fold, ScanPath, CallSafe, NoWhole, Climbs, Remaining;
    EntryPath(h, path1, name);
    var start, home := StartPath(h, path1), Comps(h.realPath);
    var d, f := Comps(ResolveText(start, true)), Fold(Active(start, true), []);
    NoWholeComps(h.realPath);
    FoldAboveNames(d, home);
    RemainsIff(d, |home|, 0);
    assert d == f || d == f + [DOTDOT] by { ResolvedNames(start); }
    FoldHasNoDotDot(Active(start, true), []);
    ClimbsAtRoot(f);
    var k := Remaining(d, |home|, 0);
    assert home[..|home|] == home;
    assert home[..k] + Fold(d, []) + [name] == home[..k] + (Fold(d, []) + [name]);
    if d == [] {
      assert home + [] == home && Fold([], []) == [] by { FoldOfNames([]); }
    }
  }

  lemma ResolvedNames(p: string)
    ensures var f := Fold(Active(p, true), []);
            Comps(ResolveText(p, true)) == f || Comps(ResolveText(p, true)) == f + [DOTDOT]
  {
    hide Comps, Fold, RemoveDotDot, EndsWhole;
    RemovalIsFold(p, true);
    assert Fold(Active(p, true), []) + [] == Fold(Active(p, true), []);
  }

  /** Names with at most one ".." at their end climb only when they are that ".." alone. */
  lemma ClimbsAtRoot(f: seq<string>)
    requires DOTDOT !in f
    ensures !Climbs(f, 0) && (Climbs(f + [DOTDOT], 0) <==> f == [])
  {
    NamesDoNotClimb(f, [], 0);
    assert f + [] == f;
    NamesDoNotClimb(f, [DOTDOT], 0);
  }

  lemma {:induction false} NamesDoNotClimb(f: seq<string>, t: seq<string>, d: nat)
    requires DOTDOT !in f
    ensures Climbs(f + t, d) <==> Climbs(t, d + |f|)
    decreases |f|
  {
    if f == [] {
      assert f + t == t;
    } else {
      assert (f + t)[1..] == f[1..] + t;
      NamesDoNotClimb(f[1..], t, d + 1);
    }
  }

  lemma OpenedDirStarts(h: Home, dir: string)
    requires h.exposedPath.Some? && NoWhole(h.exposedPath.value) && Unmissed(dir, false)
    ensures NoWhole(StartPath(h, OpenedDir(h, dir)))
  {
    hide ScanText, Unmissed, ResolveText, BuildPath, NoWhole;
    ScanResolves(dir, false);
    ResolvedHasNoWhole(dir);
    BuildNoWhole(h.exposedPath.value, ResolveText(dir, false));
  }

  lemma JoinIsUnmissed(a: string, name: string)
    requires NoWhole(a) && name != "" && '/' !in name
    ensures Unmissed(BuildPath(a, name), true)
  {
    hide Comps, NoDottedPop, NoWhole, BuildPath;
    NoWholeComps(a);
    BuildComps(a, name);
    CompsOfName(name);
    JoinEndsWhole(a, name);
    if name == DOTDOT {
      assert DropLast(Comps(a) + [name]) == Comps(a);
      NamesPopNothing(Comps(a));
    } else {
      NamesPopNothing(Comps(a) + [name]);
    }
    SafeIsUnmissed(BuildPath(a, name), true);
  }

  /**
    Where the entries of a directory are looked up whose path has no "..": at the home, which under a virtual
    root is the real one, the directory's names and the entry's name.
   */
  lemma EntryBehind(h: Home, path1: string, name: string)
    requires h.exposedPath.Some? ==> NoWhole(h.realPath)
    requires NoWhole(StartPath(h, path1)) && name != "" && '/' !in name
    ensures ScanPath(h, path1, Some(name), true).Some?
    ensures var r, d := ScanPath(h, path1, Some(name), true).value, RequestNames(h, path1);
            && DOTDOT !in d
            && Comps(r.exposedPath) == d + [name]
            && Comps(r.realPath) == (if h.exposedPath.Some? then Comps(h.realPath) else []) + d + [name]
  {
    hide ScanText, Unmissed, ScanPath, Comps, Fold, NoWhole, StartPath, BuildPath, RemoveDotDot, RequestNames;
    var start := StartPath(h, path1);
    StartNames(h, path1);
    NoWholeIsSafe(start, true);
    assert ResolveText(start, true) == start;
    JoinIsUnmissed(start, name);
    NoWholeComps(start);
    FoldOfNames(Comps(start));
    if h.exposedPath.Some? {
      BuildNoWhole(h.realPath, start);
      JoinIsUnmissed(BuildPath(h.realPath, start), name);
      NoWholeComps(h.realPath);
      FoldOfNames(Comps(h.realPath) + Comps(start));
    }
    EntryPath(h, path1, name);
    assert [] + Comps(start) == Comps(start);
  }

  /**
    Where the entries of a directory are looked up whose path missed nothing: at the home, the
    directory's path and the entry's name; its ".." as that name, so the root's as home/.. .
   */
  lemma EntryLookedUpAt(h: Home, dir: string, name: string)
    requires h.exposedPath.Some? && NoWhole(h.exposedPath.value) && NoWhole(h.realPath)
    requires Unmissed(dir, false) && name != "" && '/' !in name
    ensures ScanPath(h, OpenedDir(h, dir), Some(name), true).Some?
    ensures var r, d := ScanPath(h, OpenedDir(h, dir), Some(name), true).value, RequestNames(h, OpenedDir(h, dir));
            && DOTDOT !in d
            && Comps(r.exposedPath) == d + [name]
            && Comps(r.realPath) == Comps(h.realPath) + d + [name]
  {
    hide *;
    OpenedDirStarts(h, dir);
    EntryBehind(h, OpenedDir(h, dir), name);
  }

  lemma LastComp(head: string, n: string, tail: string)
    requires EndsSlash(head) && n != "" && '/' !in n && (tail == "" || tail == "/")
    ensures Comps(head + n + tail) == Comps(head) + [n]
  {
    CompsOfName(n);
    CompsOfSlashes(tail);
    CompsAppend(head, n);
    CompsAppend(head + n, tail);
  }

  /** The parts of a path around its base name. */
  lemma BaseNameParts(e: string) returns (head: string, tail: string)
    requires IsAbsolute(e) && !EndsTwoSlashes(e) && |e| > 1
    ensures e == head + BaseName(e) + tail
    ensures EndsSlash(head) && (tail == "" || tail == "/")
    ensures BaseName(e) != "" && '/' !in BaseName(e)
  {
    hide RSlash;
    var i, n := RSlash(e, |e| - 2), |e| - if EndsSlash(e) then 1 else 0;
    assert i >= 0 by { assert e[0] == '/'; }
    head, tail := e[..i + 1], e[n..];
    assert BaseName(e) == e[i + 1..n];
    NoSlashIn(e, i + 1, n);
    SplitThree(e, i + 1, n);
  }

  lemma SplitThree(e: string, i: nat, n: nat)
    requires i <= n <= |e|
    ensures e == e[..i] + e[i..n] + e[n..]
  {
  }

  lemma NoSlashIn(e: string, lo: nat, hi: nat)
    requires lo <= hi <= |e|
    requires forall k :: lo <= k < hi ==> e[k] != '/'
    ensures '/' !in e[lo..hi]
  {
  }

  predicate EndsTwoSlashes(e: string) {
    |e| >= 2 && e[|e| - 2] == '/' && e[|e| - 1] == '/'
  }

  /** The last component of a path, or "/" for the root. */
  function FinalName(e: string): string {
    if Comps(e) == [] then "/" else Comps(e)[|Comps(e)| - 1]
  }

  /** The base name of an absolute path is its last component exactly when it does not end in two slashes. */
  lemma BaseNameIsLastIff(e: string)
    requires IsAbsolute(e)
    ensures BaseName(e) == FinalName(e) <==> !EndsTwoSlashes(e)
  {
    hide Comps;
    if EndsTwoSlashes(e) {
      assert BaseName(e) == "";
      CompsAreNames(e);
      assert Comps(e) != [] ==> Comps(e)[|Comps(e)| - 1] in Comps(e);
    } else if |e| == 1 {
      CompsOfSlashes(e);
    } else {
      var head, tail := BaseNameParts(e);
      LastComp(head, BaseName(e), tail);
    }
  }

  /** An absolute request is not collapsed: this one keeps both slashes, and its base name is empty. */
  lemma EmptyBaseName()
    ensures var h, p := Home("/h", Some("/")), "/.s//";
            && ScanPath(h, p, None, false).Some?
            && ScanPath(h, p, None, false).value.exposedPath == p && BaseName(p) == "" && FinalName(p) == ".s"
  {
    hide ScanPath, Comps, BuildPath;
    var h, p := Home("/h", Some("/")), "/.s//";
    NoWholeIsUnmissed(p, false);
    NoWholeIsUnmissed("/h", false);
    RealIsHomeJoined(h, p);
    assert NoWhole(p) && FirstWhole(p, 0) == |p|;
    assert ResolveText(p, false) == p;
    LastComp("/", ".s", "/");
    assert "/" + ".s" + "/" == "/.s/";
    CompsAppend("/.s/", "/");
    CompsOfSlashes("/");
    assert "/.s/" + "/" == p;
  }

  // ----- symbolic links -----

  /** The link text shown to a client under a virtual root: the home's length is cut off. */
  function StripHome(homeLength: nat, text: string): string {
    if homeLength < |text| then text[homeLength..] else ""
  }

  /**
    Cutting strlen(home) characters undoes the home prefix of every exposed path exactly
    when the home has no double slash and no final one.
   */
  lemma StripUndoesJoin(home: string, e: string)
    requires IsAbsolute(e)
    ensures StripHome(|home|, BuildPath(home, e)) == Collapse(e, START) <==> Collapsed(home) && !EndsSlash(home)
  {
    var last := LastOf(home, START);
    var rest := Collapse(e, '/');
    assert home + "/" + e == home + ("/" + e);
    CollapseAppend(home, "/" + e, START);
    assert e == ['/'] + e[1..];
    assert ("/" + e)[1..] == e;
    assert Collapse(e, START) == "/" + rest;
    assert BuildPath(home, e) == Collapse(home, START) + if last == '/' then rest else "/" + rest;
    if Collapsed(home) && !EndsSlash(home) {
      CollapsedIsFixed(home, START);
    } else if StripHome(|home|, BuildPath(home, e)) == "/" + rest {
      assert |BuildPath(home, e)| == |home| + |rest| + 1;
      assert |Collapse(home, START)| == |home|;
      CollapseSameLength(home, START);
      CollapseIsCollapsed(home, START);
      assert false;
    }
  }

  /** What a link created for `target` holds, read back and stripped, is the target's exposed path. */
  lemma LinkReadsBack(h: Home, target: string)
    requires h.exposedPath.Some? && IsAbsolute(h.exposedPath.value)
    requires NoWhole(h.realPath) && Unmissed(StartPath(h, target), false)
    ensures ScanPath(h, target, None, false).Some?
    ensures var r := ScanPath(h, target, None, false).value;
            StripHome(|h.realPath|, r.realPath) == Collapse(r.exposedPath, START)
            <==> Collapsed(h.realPath) && !EndsSlash(h.realPath)
  {
    hide ScanPath, Unmissed, ResolveText, StripHome, BuildPath, Collapse, Collapsed, NoWhole;
    RealIsHomeJoined(h, target);
    StripUndoesJoin(h.realPath, ScanPath(h, target, None, false).value.exposedPath);
  }

  // ----- the precondition that every ".." is a whole component -----

  predicate AllDotsWhole(p: string) {
    forall i :: 0 <= i < |p| && DotsAt(p, i) ==> Whole(p, i)
  }

  lemma {:induction false} WholeDotsNames(p: string)
    requires AllDotsWhole(p)
    ensures forall c :: c in Comps(p) ==> !Dotted(c)
    decreases |p|
  {
    if p == "" {
    } else if p[0] == '/' {
      var t := p[1..];
      forall i | 0 <= i < |t| && DotsAt(t, i) ensures Whole(t, i) {
        assert DotsAt(p, i + 1);
      }
      WholeDotsNames(t);
    } else {
      var k := NameEnd(p);
      var n, t := p[..k], p[k..];
      forall i | 0 <= i < |t| && DotsAt(t, i) ensures Whole(t, i) {
        assert DotsAt(p, i + k) && i > 0;
      }
      WholeDotsNames(t);
      if Dotted(n) {
        var i :| 0 <= i < |n| && DotsAt(n, i);
        assert i > 0 ==> p[i - 1] == n[i - 1];
        assert DotsAt(p, i) && Whole(p, i);
        WholeAtStart(p);
      }
    }
  }

  lemma {:induction false} PlainNamesAreSafe(cs: seq<string>, stack: seq<string>)
    requires forall c :: c in cs || c in stack ==> !Dotted(c)
    ensures NoDottedPop(cs, stack)
    decreases |cs|
  {
    if cs != [] {
      PlainNamesAreSafe(cs[1..], if cs[0] == DOTDOT then DropLast(stack) else stack + [cs[0]]);
    }
  }

  /** Whole ".."s only: the scan is safe, and the result holds no ".." at all. */
  lemma WholeDotsResolve(p: string, permit: bool)
    requires AllDotsWhole(p)
    ensures ScanSafe(p, permit) && Unmissed(p, permit)
    ensures !HasDots(ResolveText(p, false))
  {
    WholeDotsNames(p);
    PlainNamesAreSafe(Active(p, permit), []);
    SafeIsUnmissed(p, permit);
    WholeDotsRemoval(p);
    var r := ResolveText(p, false);
    ResolvedHasNoWhole(p);
    if HasDots(r) {
      var i :| 0 <= i < |r| && DotsAt(r, i);
      assert DotsAt(RemoveDotDot(p, false), i);
      RemovalIsFold(p, false);
      assert false;
    }
  }

  lemma {:induction false} WholeDotsRemoval(p: string)
    requires AllDotsWhole(p)
    ensures AllDotsWhole(RemoveDotDot(p, false))
    decreases |p|
  {
    var i := FirstWhole(p, 0);
    if i < |p| {
      var c, b := CutParent(p, i), ParentStart(p, i);
      CutPlaces(p, i);
      WholeDotsRemoval(c);
    }
  }

  /** A removal moves each remaining ".." without splitting or gluing it. */
  lemma CutPlaces(p: string, i: nat)
    requires AllDotsWhole(p) && Whole(p, i)
    ensures AllDotsWhole(CutParent(p, i))
  {
    hide ParentStart;
    var c, b := CutParent(p, i), ParentStart(p, i);
    var d := i + 2 - b;
    assert forall k :: 0 <= k < b ==> c[k] == p[k];
    assert forall k :: b <= k < |c| ==> c[k] == p[k + d];
    forall k | 0 <= k < |c| && DotsAt(c, k) ensures Whole(c, k) {
      if k + 1 < b {
        assert DotsAt(p, k) && Whole(p, k);
      } else if k >= b {
        assert DotsAt(p, k + d) && Whole(p, k + d);
        assert k > b;
      }
    }
  }
}
