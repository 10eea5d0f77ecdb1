/** FSCheckSecurity: what the administrator's switches let through, and whether that lies below the home. */
module Security {
  import opened Wrappers
  import opened PathText
  import opened PathScan
  import opened PathResolve

  datatype Switches = Switches(stayAtHome: bool, ignoreHidden: bool, hideNoAccess: bool)

  /** What the owner and the rights of a file say, and what FileSpecCheckRights says. */
  datatype Answer = Answer(visible: bool, allowed: bool)

  datatype Verdict = Permitted | Denied | NoSuchFile

  /** A final dot alone, or two dots in front, do not hide a name. */
  predicate IsHidden(name: string) {
    |name| > 1 && name[0] == '.' && name[1] != '.'
  }

  /** The verdict on a resolved path, and the paths that the system is asked about for it. */
  function Check(home: string, sw: Switches, full: string, name: string, a: Answer): (r: (Verdict, seq<string>))
    ensures sw.stayAtHome && (r.0.Permitted? || r.1 != []) ==> home <= full
    ensures r.1 == [] || r.1 == [full]
  {
    if sw.stayAtHome && !(home <= full) then (Denied, [])
    else if sw.ignoreHidden && IsHidden(name) then (NoSuchFile, [])
    else if sw.hideNoAccess && !a.visible then (NoSuchFile, [full])
    else (if a.allowed then Permitted else Denied, if sw.hideNoAccess then [full] else [])
  }

  /**
    Exactly what is permitted, and what is asked for that: nothing, unless files without rights are hidden
    and the path has passed the other switches.
   */
  lemma PermittedIff(home: string, sw: Switches, full: string, name: string, a: Answer)
    ensures Check(home, sw, full, name, a).0.Permitted? <==>
            && (sw.stayAtHome ==> |home| <= |full| && full[..|home|] == home)
            && (sw.ignoreHidden ==> name == "" || name == "." || name[0] != '.' || name[1] == '.')
            && (sw.hideNoAccess ==> a.visible)
            && a.allowed
    ensures Check(home, sw, full, name, a).1 ==
            if sw.hideNoAccess && (sw.stayAtHome ==> |home| <= |full| && full[..|home|] == home)
               && (sw.ignoreHidden ==> name == "" || name == "." || name[0] != '.' || name[1] == '.')
            then [full] else []
  {
    assert home <= full <==> |home| <= |full| && full[..|home|] == home;
    assert |name| == 1 && name[0] == '.' ==> name == ".";
  }

  // ----- the comparison with the home, by names -----

  /** The last of these names may go on. */
  predicate NamesPass(hs: seq<string>, fs: seq<string>) {
    && |hs| <= |fs|
    && (hs != [] ==> DropLast(hs) <= fs && hs[|hs| - 1] <= fs[|hs| - 1])
  }

  predicate RootedText(p: string) {
    Collapsed(p) && (p == "" || IsAbsolute(p))
  }

  /** A rooted text is a slash, a name, and a rooted text. */
  lemma FirstName(p: string) returns (n: string, t: string)
    requires RootedText(p) && |p| > 1
    ensures n != "" && '/' !in n && RootedText(t) && p == "/" + n + t && |t| < |p|
    ensures Comps(p) == [n] + Comps(t)
    ensures EndsSlash(t) <==> EndsSlash(p)
  {
    var q := p[1..];
    var k := NameEnd(q);
    assert q[0] == p[1] && p[0] == '/';
    n, t := q[..k], q[k..];
    assert p == "/" + n + t;
    assert t == p[k + 1..];
    if EndsSlash(p) {
      assert k < |q| by {
        assert q[|q| - 1] == '/';
      }
    }
  }

  lemma SlashAfterName(n: string, t: string)
    requires '/' !in n && (t == "" || IsAbsolute(t))
    ensures forall k :: 0 <= k < |n| ==> (n + t)[k] == n[k] != '/'
    ensures t != "" ==> (n + t)[|n|] == '/'
  {
  }

  lemma PrefixOfParts(n: string, t: string, m: string, u: string)
    requires '/' !in n && '/' !in m && IsAbsolute(t) && (u == "" || IsAbsolute(u))
    ensures n + t <= m + u <==> n == m && t <= u
  {
    SlashAfterName(n, t);
    SlashAfterName(m, u);
    if n + t <= m + u {
      assert (m + u)[|n|] == '/';
      assert |n| == |m|;
      assert n == (m + u)[..|n|] == m;
      assert t == (n + t)[|n|..] && u == (m + u)[|n|..];
    }
  }

  lemma PrefixOfName(n: string, m: string, u: string)
    requires '/' !in n && (u == "" || IsAbsolute(u)) && '/' !in m
    ensures n <= m + u <==> n <= m
  {
    SlashAfterName(m, u);
    if n <= m + u {
      assert forall k :: 0 <= k < |n| ==> n[k] == (m + u)[k];
      assert n == (m + u)[..|n|];
    }
  }

  lemma NamesPassOn(n: string, ts: seq<string>, m: string, us: seq<string>)
    ensures NamesPass([n] + ts, [m] + us) <==> if ts == [] then n <= m else n == m && NamesPass(ts, us)
  {
    var hs, fs := [n] + ts, [m] + us;
    if ts != [] {
      assert hs[|hs| - 1] == ts[|ts| - 1];
      assert DropLast(hs) == [n] + DropLast(ts);
      assert |ts| <= |us| ==> fs[|hs| - 1] == us[|ts| - 1];
      assert DropLast(hs) <= fs <==> n == m && DropLast(ts) <= us by {
        ConsPrefix(n, DropLast(ts), m, us);
      }
    }
  }

  lemma ConsPrefix(n: string, a: seq<string>, m: string, b: seq<string>)
    ensures [n] + a <= [m] + b <==> n == m && a <= b
  {
    if [n] + a <= [m] + b {
      assert n == ([n] + a)[0] == ([m] + b)[0] == m;
      assert a == ([n] + a)[1..] && b == ([m] + b)[1..];
    }
  }

  /**
    strncmp lets a path through exactly if it has the home's names, of which the last may go on:
    for a home without doubled slashes and no final one, and a path without doubled slashes.
   */
  lemma {:induction false} PassesIff(home: string, full: string)
    requires RootedText(home) && !EndsSlash(home) && RootedText(full)
    ensures home <= full <==> NamesPass(Comps(home), Comps(full))
    decreases |home|
  {
    hide Comps, Collapsed;
    if home == "" {
      CompsOfSlashes(home);
    } else if |full| <= 1 {
      CompsOfSlashes(full);
      var n, t := FirstName(home);
    } else {
      var n, t := FirstName(home);
      var m, u := FirstName(full);
      assert home == "/" + (n + t) && full == "/" + (m + u);
      assert home[1..] == n + t && full[1..] == m + u;
      assert home <= full <==> n + t <= m + u;
      NamesPassOn(n, Comps(t), m, Comps(u));
      if t == "" {
        CompsOfSlashes(t);
        PrefixOfName(n, m, u);
      } else {
        var n', t' := FirstName(t);
        PrefixOfParts(n, t, m, u);
        PassesIff(t, u);
      }
    }
  }

  /** A path that is let through lies below the home exactly if the home's text ends at the end of a name. */
  lemma PrefixIsBelowIff(home: string, full: string)
    requires home <= full
    ensures Comps(home) <= Comps(full) <==> Seam(home, full[|home|..])
  {
    hide Comps;
    var rest := full[|home|..];
    assert full == home + rest;
    if Seam(home, rest) {
      CompsAppend(home, rest);
    } else {
      NameGoesOn(home, rest);
    }
  }

  lemma {:induction false} NameGoesOn(home: string, rest: string)
    requires !Seam(home, rest)
    ensures !(Comps(home) <= Comps(home + rest))
    decreases |home|
  {
    var p := home + rest;
    assert home == [home[0]] + home[1..];
    if home[0] == '/' {
      assert p[1..] == home[1..] + rest;
      NameGoesOn(home[1..], rest);
    } else if NameEnd(home) < |home| {
      var k := NameEnd(home);
      NameEndPrefix(home, rest);
      assert p[..k] == home[..k] && p[k..] == home[k..] + rest;
      NameGoesOn(home[k..], rest);
      ConsPrefix(home[..k], Comps(home[k..]), p[..k], Comps(p[k..]));
    } else {
      LongerName(home, rest);
    }
  }

  lemma LongerName(home: string, rest: string)
    requires home != "" && rest != "" && '/' !in home && rest[0] != '/'
    ensures Comps(home) == [home] && !(Comps(home) <= Comps(home + rest))
  {
    CompsOfName(home);
    NameEndOver(home, rest);
    var p := home + rest;
    assert Comps(p)[0] == p[..NameEnd(p)];
  }

  lemma {:induction false} NameEndOver(n: string, rest: string)
    requires '/' !in n && rest != "" && rest[0] != '/'
    ensures NameEnd(n + rest) > |n|
  {
    if n == "" {
      assert n + rest == rest;
    } else {
      assert (n + rest)[1..] == n[1..] + rest;
      NameEndOver(n[1..], rest);
    }
  }

  // ----- the comparison for resolved requests -----

  /** In the home "/home/bob", a user is let into "/home/bobby". */
  lemma NeighbourPasses()
    ensures var h := Home("/home/bob", None);
            && Unmissed("/home/bobby", false)
            && ScanPath(h, "/home/bobby", None, false) == Some(Resolved("/home/bobby", "/home/bobby"))
            && h.realPath <= "/home/bobby"
            && !(Comps(h.realPath) <= Comps("/home/bobby"))
  {
    hide Scan, Unmissed, Comps;
    ScanStops("/home/bobby", 0);
    NoWholeIsUnmissed("/home/bobby", false);
    PrefixIsBelowIff("/home/bob", "/home/bobby");
  }

  /** And is kept out of the home when its path is written with a doubled slash, which nothing takes out. */
  lemma DoubledSlashIsRefused()
    ensures var h := Home("/home/bob", None);
            && ScanPath(h, "/home//bob", None, false) == Some(Resolved("/home//bob", "/home//bob"))
            && !(h.realPath <= "/home//bob")
            && Comps(h.realPath) == Comps("/home//bob")
  {
    hide Scan, Comps;
    ScanStops("/home//bob", 0);
    assert "/home//bob"[6] != "/home/bob"[6];
    assert "/home/" + "bob" == "/home/bob" && "/home/" + "/bob" == "/home//bob" && "/" + "bob" == "/bob";
    CompsAppend("/home/", "bob");
    CompsAppend("/home/", "/bob");
    CompsAppend("/", "bob");
    CompsOfSlashes("/");
  }

  /** Under a virtual root every request that misses nothing passes, exactly if the home has no doubled slash. */
  lemma RootPassesIff(h: Home, path1: string)
    requires h.exposedPath.Some? && IsAbsolute(h.exposedPath.value)
    requires NoWhole(h.realPath) && Unmissed(StartPath(h, path1), false)
    ensures ScanPath(h, path1, None, false).Some?
    ensures h.realPath <= ScanPath(h, path1, None, false).value.realPath <==> Collapsed(h.realPath)
  {
    hide ScanPath, Unmissed, NoWhole, StartPath, ResolveText, Comps;
    RealIsHomeJoined(h, path1);
    var home, e := h.realPath, ResolveText(StartPath(h, path1), false);
    BuildComps(home, e);
    if Collapsed(home) {
      assert home + "/" + e == home + ("/" + e);
      CollapseAppend(home, "/" + e, START);
      CollapsedIsFixed(home, START);
    }
  }
}
