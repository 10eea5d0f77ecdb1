/** Where a session reaches: what its handlers hand to FileSystem.c, over whole runs under a virtual root. */
module Reach {
  import opened Wrappers
  import opened Bytes
  import opened Handles
  import opened Replies
  import opened Accesses
  import opened Protocol
  import opened SessionRuns
  import opened PathText
  import opened PathScan
  import opened PathResolve
  import Security
  import FileSystem

  // ----- one access -----

  /** The names without the "."s among them. */
  function Steps(cs: seq<string>): seq<string> {
    if cs == [] then [] else (if cs[0] == "." then [] else [cs[0]]) + Steps(cs[1..])
  }

  /** Where the system gets to from "/" by these names. */
  function Place(cs: seq<string>): seq<string> {
    Fold(Steps(cs), [])
  }

  /** The string that the system is asked about. */
  function LookedUp(h: Home, a: Access): Option<string> {
    match a
    case PathAccess(p) =>
      var r := ScanPath(h, CPath(p), None, false);
      if r.Some? then Some(r.value.realPath) else None
    case EntryAccess(dir, name) =>
      var r := ScanPath(h, CPath(dir), Some(CPath(name)), true);
      if r.Some? then Some(r.value.realPath) else None
    case ShownAccess(p) =>
      var r := ScanPath(h, CPath(p), None, false);
      if r.Some? then Some(r.value.exposedPath) else None
  }

  /** The system is asked about the home or something below it. */
  predicate LiesBelow(h: Home, a: Access) {
    var p := LookedUp(h, a);
    p.Some? && Place(Comps(h.realPath)) <= Place(Comps(p.value))
  }

  /** The client sees this directory as "/". */
  predicate IsRoot(h: Home, dir: text) {
    Steps(RequestNames(h, CPath(dir))) == []
  }

  /** The client itself names a path that starts with the home's real names. */
  predicate NamesHome(h: Home, p: text) {
    Place(Comps(h.realPath)) <= Steps(Fold(RequestNames(h, CPath(p)), []))
  }

  predicate Harmless(h: Home, a: Access) {
    match a
    case PathAccess(_) => true
    case EntryAccess(dir, name) => CPath(name) != DOTDOT || !IsRoot(h, dir) || Place(Comps(h.realPath)) == []
    case ShownAccess(p) => NamesHome(h, p)
  }

  predicate Rooted(h: Home) {
    && h.exposedPath.Some? && IsAbsolute(h.exposedPath.value)
    && NoWhole(h.exposedPath.value) && NoWhole(h.realPath)
  }

  predicate SafePath(h: Home, p: text) {
    Unmissed(StartPath(h, CPath(p)), false)
  }

  predicate SafeDir(h: Home, dir: text) {
    NoWhole(StartPath(h, CPath(dir)))
  }

  predicate IsName(n: text) {
    CPath(n) != "" && '/' !in CPath(n)
  }

  predicate SafeAccess(h: Home, a: Access) {
    match a
    case PathAccess(p) => SafePath(h, p)
    case EntryAccess(dir, name) => SafeDir(h, dir) && IsName(name)
    case ShownAccess(p) => SafePath(h, p)
  }

  lemma {:induction false} StepsAppend(a: seq<string>, b: seq<string>)
    ensures Steps(a + b) == Steps(a) + Steps(b)
    decreases |a|
  {
    if a == [] {
      assert a + b == b;
    } else {
      assert (a + b)[1..] == a[1..] + b;
      StepsAppend(a[1..], b);
    }
  }

  lemma {:induction false} StepsKeepNames(cs: seq<string>)
    requires DOTDOT !in cs
    ensures DOTDOT !in Steps(cs)
  {
    if cs != [] {
      StepsKeepNames(cs[1..]);
    }
  }

  /** Without "..", the system gets where the names say. */
  lemma PlaceOfNames(cs: seq<string>)
    requires DOTDOT !in cs
    ensures Place(cs) == Steps(cs)
  {
    StepsKeepNames(cs);
    FoldOfNames(Steps(cs));
  }

  lemma PlaceOfParent(cs: seq<string>)
    requires DOTDOT !in cs
    ensures Place(cs + [DOTDOT]) == DropLast(Steps(cs))
  {
    StepsAppend(cs, [DOTDOT]);
    assert Steps([DOTDOT]) == [DOTDOT];
    StepsKeepNames(cs);
    var t := Steps(cs);
    FoldNames(t, [DOTDOT], []);
    assert [] + t == t;
  }

  lemma PathLiesBelow(h: Home, p: text)
    requires Rooted(h) && SafePath(h, p)
    ensures LiesBelow(h, PathAccess(p))
  {
    hide Unmissed, ScanPath, Comps, StartPath, NoWhole, Fold, Place;
    RealStaysUnderHome(h, CPath(p));
    var r := ScanPath(h, CPath(p), None, false).value;
    NoWholeComps(h.realPath);
    PlaceOfNames(Comps(h.realPath));
    PlaceOfNames(Comps(r.realPath));
    StepsAppend(Comps(h.realPath), Comps(r.exposedPath));
  }

  /** The entry ".." of the root, and no other, leads out of the home. */
  lemma EntryBelowIff(h: Home, dir: text, name: text)
    requires Rooted(h) && SafeDir(h, dir) && IsName(name)
    ensures LiesBelow(h, EntryAccess(dir, name)) <==> Harmless(h, EntryAccess(dir, name))
  {
    hide Unmissed, ScanPath, Comps, StartPath, NoWhole, Fold, Place, CPath, RequestNames;
    var path1, n := CPath(dir), CPath(name);
    EntryBehind(h, path1, n);
    var home, d := Comps(h.realPath), RequestNames(h, path1);
    NoWholeComps(h.realPath);
    PlaceOfNames(home);
    StepsAppend(home, d);
    StepsAppend(home + d, [n]);
    if n == DOTDOT {
      PlaceOfParent(home + d);
    } else {
      PlaceOfNames(home + d + [n]);
    }
  }

  lemma DotIsNoStep()
    ensures Steps(["."]) == []
  {
  }

  lemma StepsOfTrimmed(f: seq<string>)
    requires f != [] && f[|f| - 1] == "."
    ensures Steps(DropLast(f)) == Steps(f)
  {
    hide Steps;
    DotIsNoStep();
    StepsAppend(DropLast(f), ["."]);
    assert DropLast(f) + ["."] == f;
  }

  /** A path shown to the client lies below the home only if it starts with the home's names. */
  lemma ShownBelowIff(h: Home, p: text)
    requires Rooted(h) && SafePath(h, p)
    ensures LiesBelow(h, ShownAccess(p)) <==> NamesHome(h, p)
  {
    hide Unmissed, ScanPath, Comps, StartPath, NoWhole, Fold, Place, EndsSlash, RequestNames;
    RealStaysUnderHome(h, CPath(p));
    var r, f := ScanPath(h, CPath(p), None, false).value, Fold(RequestNames(h, CPath(p)), []);
    PlaceOfNames(Comps(r.exposedPath));
    if f != [] && f[|f| - 1] == "." {
      StepsOfTrimmed(f);
    }
  }

  /** What is asked for an access that misses no ".." lies below the home exactly if the access is harmless. */
  lemma AccessBelowIff(h: Home, a: Access)
    requires Rooted(h) && SafeAccess(h, a)
    ensures LiesBelow(h, a) <==> Harmless(h, a)
  {
    hide LiesBelow, SafePath, SafeDir, IsName, Rooted, NamesHome, IsRoot;
    match a {
      case PathAccess(p) => PathLiesBelow(h, p);
      case EntryAccess(dir, name) => EntryBelowIff(h, dir, name);
      case ShownAccess(p) => ShownBelowIff(h, p);
    }
  }

  // ----- what the functions of FileSystem.c ask the system about -----

  lemma CheckAsksOfItsPath(home: string, sw: Security.Switches, full: string, name: string, a: Security.Answer)
    ensures forall p <- Security.Check(home, sw, full, name, a).1 :: p == full
  {
  }

  /**
    Whatever the switches are, a call on one path asks about the path it is looked up at, and about no other:
    last of all when it is permitted, and without a check for rights not at all when it is not.
   */
  lemma AskedIsLookedUp(h: Home, sw: Security.Switches, q: text, a: Security.Answer)
    requires ScanPath(h, CPath(q), None, false).Some?
    ensures var (v, asked) := FileSystem.Asked(h, sw, CPath(q), a);
            && (forall p <- asked :: LookedUp(h, PathAccess(q)) == Some(p))
            && (v.Permitted? ==> asked != [] && asked[|asked| - 1] == ScanPath(h, CPath(q), None, false).value.realPath)
            && (!v.Permitted? && !sw.hideNoAccess ==> asked == [])
  {
    hide ScanPath, Security.Check, BaseName;
    var r := ScanPath(h, CPath(q), None, false).value;
    CheckAsksOfItsPath(h.realPath, sw, r.realPath, BaseName(r.exposedPath), a);
    Security.PermittedIff(h.realPath, sw, r.realPath, BaseName(r.exposedPath), a);
  }

  /**
    So under a virtual root, whatever the switches are, the system is asked about nothing for a request that
    misses no ".." but the home with the fold of the request behind it.
   */
  lemma AskedLiesBelow(h: Home, sw: Security.Switches, q: text, a: Security.Answer)
    requires Rooted(h) && SafePath(h, q)
    ensures ScanPath(h, CPath(q), None, false).Some?
    ensures forall p <- FileSystem.Asked(h, sw, CPath(q), a).1 ::
              && Place(Comps(h.realPath)) <= Place(Comps(p))
              && Steps(Comps(p)) == Steps(Comps(h.realPath)) + Steps(Fold(RequestNames(h, CPath(q)), []))
              && DOTDOT !in Comps(p)
  {
    hide ScanPath, Unmissed, StartPath, Comps, NoWhole, Fold, Place, RequestNames, FileSystem.Asked, EndsSlash;
    RealStaysUnderHome(h, CPath(q));
    AskedIsLookedUp(h, sw, q, a);
    PathLiesBelow(h, q);
    var r, f := ScanPath(h, CPath(q), None, false).value, Fold(RequestNames(h, CPath(q)), []);
    StepsAppend(Comps(h.realPath), Comps(r.exposedPath));
    if f != [] && f[|f| - 1] == "." {
      StepsOfTrimmed(f);
    }
  }

  /** A rename or a link asks about its two paths; the check before it about no others. */
  lemma BothAskedAreLookedUp(h: Home, sw: Security.Switches, q: text, q': text, a: Security.Answer, b: Security.Answer)
    requires ScanPath(h, CPath(q), None, false).Some? && ScanPath(h, CPath(q'), None, false).Some?
    ensures var r, r' := ScanPath(h, CPath(q), None, false).value, ScanPath(h, CPath(q'), None, false).value;
            forall p <- FileSystem.BothAsked(h, sw, r.realPath, BaseName(r.exposedPath), r'.realPath, BaseName(r'.exposedPath), a, b).1 ::
              LookedUp(h, PathAccess(q)) == Some(p) || LookedUp(h, PathAccess(q')) == Some(p)
  {
    hide ScanPath, Security.Check, BaseName;
    var r, r' := ScanPath(h, CPath(q), None, false).value, ScanPath(h, CPath(q'), None, false).value;
    CheckAsksOfItsPath(h.realPath, sw, r.realPath, BaseName(r.exposedPath), a);
    CheckAsksOfItsPath(h.realPath, sw, r'.realPath, BaseName(r'.exposedPath), b);
  }

  /** A listing asks about its entries where they are looked up. */
  lemma ListingIsLookedUp(h: Home, sw: Security.Switches, dir: text, ns: seq<text>, es: seq<FileSystem.DirEntry>)
    requires |ns| == |es| && forall i :: 0 <= i < |es| ==> es[i].name == CPath(ns[i])
    requires forall e <- es :: ScanPath(h, CPath(dir), Some(e.name), true).Some?
    ensures forall p <- FileSystem.ListingAsked(h, sw, CPath(dir), es).1 ::
              exists n <- ns :: LookedUp(h, EntryAccess(dir, n)) == Some(p)
  {
    hide ScanPath, CPath, FileSystem.ListingAsked;
    FileSystem.ListingAsksOfEntries(h, sw, CPath(dir), es);
    forall p <- FileSystem.ListingAsked(h, sw, CPath(dir), es).1
      ensures exists n <- ns :: LookedUp(h, EntryAccess(dir, n)) == Some(p)
    {
      var i :| 0 <= i < |es| && p == ScanPath(h, CPath(dir), Some(es[i].name), true).value.realPath;
      assert ns[i] in ns && LookedUp(h, EntryAccess(dir, ns[i])) == Some(p);
    }
  }

  // ----- two accesses that do not lie below the home -----

  const SLASH_HOME := Home("/h", Some("/"))

  lemma {:induction false} CPathOfAscii(s: string)
    requires forall k :: 0 <= k < |s| ==> s[k] != '\0' && s[k] as int < 0x80
    ensures CPath(Ascii(s)) == s
  {
    if s != "" {
      assert Ascii(s)[1..] == Ascii(s[1..]);
      CPathOfAscii(s[1..]);
    }
  }

  lemma RootListing()
    ensures CPath(Ascii("/")) == "/" && CPath(Ascii("..")) == DOTDOT
    ensures Rooted(SLASH_HOME) && OpenedDir(SLASH_HOME, "/") == StartPath(SLASH_HOME, "/") == "/"
    ensures SafeAccess(SLASH_HOME, EntryAccess(Ascii("/"), Ascii("..")))
  {
    hide Scan, Ascii, CPath;
    CPathOfAscii("/");
    CPathOfAscii("..");
    ScanStops("/", 0);
  }

  /** READDIR of the root looks its ".." up beside the home. */
  lemma RootsParentIsReached()
    ensures var a := EntryAccess(Ascii("/"), Ascii(".."));
            && OpenedDir(SLASH_HOME, "/") == CPath(a.dir) == "/"
            && Rooted(SLASH_HOME) && SafeAccess(SLASH_HOME, a)
            && LookedUp(SLASH_HOME, a).Some? && Comps(LookedUp(SLASH_HOME, a).value) == ["h", ".."]
            && !LiesBelow(SLASH_HOME, a)
  {
    hide ScanPath, ScanText, Comps, Fold, BuildPath, NoWhole, Ascii, CPath, StartPath, OpenedDir, Place, Steps;
    RootListing();
    EntryBehind(SLASH_HOME, "/", "..");
    HomeNames();
    PlacesAtRoot();
  }

  lemma PlacesAtRoot()
    ensures Place(["h"]) == ["h"] && Place(["h", ".."]) == [] && Place(["etc"]) == ["etc"]
    ensures !(["h"] <= ["etc"])
  {
    assert |"h"| != |"etc"|;
    assert ["h"][0] == "h" && ["etc"][0] == "etc";
    PlaceOfNames(["etc"]);
    PlaceOfParent(["h"]);
    PlaceOfNames(["h"]);
    assert ["h"] + [DOTDOT] == ["h", ".."];
  }

  lemma HomeNames()
    ensures Comps("/h") == ["h"] && Comps("/") == [] && Comps("/etc") == ["etc"]
  {
    hide Comps;
    CompsOfName("h");
    CompsOfName("etc");
    CompsOfSlashes("/");
    CompsAppend("/", "h");
    CompsAppend("/", "etc");
    assert "/" + "h" == "/h" && "/" + "etc" == "/etc";
  }

  lemma EtcRequest()
    ensures CPath(Ascii("/etc")) == "/etc" && Rooted(SLASH_HOME)
    ensures ScanSafe("/etc", false) && Unmissed("/etc", false) && StartPath(SLASH_HOME, "/etc") == "/etc"
    ensures ScanText("/etc", false) == Some("/etc")
  {
    hide Scan, Ascii, CPath, ScanSafe, Unmissed;
    CPathOfAscii("/etc");
    ScanStops("/etc", 0);
    NoWholeIsUnmissed("/etc", false);
    EtcIsSafe();
  }

  lemma EtcIsSafe()
    ensures ScanSafe("/etc", false)
  {
    hide Comps, NoDottedPop;
    HomeNames();
    NamesPopNothing(["etc"]);
  }

  /** REALPATH asks the system about the path that it shows, here the system's own. */
  lemma ShownIsNotBelow()
    ensures var p := Ascii("/etc");
            && CPath(p) == "/etc" && OfShown(SLASH_HOME, Some(p)) == [ShownAccess(p)]
            && Rooted(SLASH_HOME) && SafePath(SLASH_HOME, p) && ScanSafe("/etc", false)
            && LookedUp(SLASH_HOME, ShownAccess(p)) == Some("/etc")
            && !LiesBelow(SLASH_HOME, ShownAccess(p))
  {
    hide ScanText, ScanPath, Comps, Fold, BuildPath, NoWhole, Ascii, CPath, StartPath, ScanSafe, Unmissed, Place, Steps, ResolveText;
    EtcRequest();
    ScanResolves("/etc", false);
    RealIsHomeJoined(SLASH_HOME, "/etc");
    HomeNames();
    PlacesAtRoot();
  }

  // ----- one request -----

  ghost predicate SafeHandles(h: Home, hs: Handles) {
    forall i :: 0 <= i < |hs| && hs[i].path.Some? ==> SafePath(h, hs[i].path.value) && (hs[i].state == DIR ==> SafeDir(h, hs[i].path.value))
  }

  predicate SafeOption(h: Home, p: Option<text>) {
    p.Some? ==> SafePath(h, p.value)
  }

  /** No path of the request misses a "..", an OPENDIR's string at either of its resolutions; and readdir() lists names. */
  ghost predicate AsksSafely(h: Home, r: Request, e: Env) {
    match r
    case Open(_, path, _, _) => SafeOption(h, path)
    case OpenDir(_, path) =>
      && path.Some? && Unmissed(CPath(path.value), false)
      && e.dir.Some? && CPath(e.dir.value) == OpenedDir(h, CPath(path.value))
    case ReadDir(_, _) => forall n <- e.met :: IsName(n)
    case Stat(_, path, _) => SafeOption(h, path)
    case SetStat(_, path) => SafeOption(h, path)
    case PathOp(_, _, path, other) => SafeOption(h, path) && SafeOption(h, other)
    case RealPath(_, path) => SafeOption(h, path)
    case ReadLink(_, path) => SafeOption(h, path)
    case Extended(_, _, path, other) => SafeOption(h, path) && SafeOption(h, other)
    case _ => true
  }

  lemma DirIsSafe(h: Home, r: Request, e: Env)
    requires Rooted(h) && r.OpenDir? && AsksSafely(h, r, e)
    ensures SafeDir(h, e.dir.value) && SafePath(h, e.dir.value)
  {
    hide Unmissed, OpenedDir, StartPath, NoWhole, CPath;
    OpenedDirStarts(h, CPath(r.path.value));
    NoWholeIsUnmissed(StartPath(h, OpenedDir(h, CPath(r.path.value))), false);
  }

  lemma AccessesAreSafe(s: Sess, r: Request, e: Env, cfg: Config)
    requires Rooted(cfg.home) && SafeHandles(cfg.home, s.hs) && AsksSafely(cfg.home, r, e)
    ensures forall a <- AccessesOf(s, r, e, cfg) :: SafeAccess(cfg.home, a)
  {
    hide SafePath, SafeDir, IsName, Rooted, OpenFlags, IsAppend, IsUpload, OpenedDir, CPath, Unmissed, ScanPath, EndsSlash;
    if r.OpenDir? {
      DirIsSafe(cfg.home, r, e);
    }
  }

  lemma StepKeepsSafe(s: Sess, r: Request, e: Env, cfg: Config)
    requires Rooted(cfg.home) && SafeHandles(cfg.home, s.hs) && AsksSafely(cfg.home, r, e) && (r.Write? ==> r.data.Some?)
    ensures SafeHandles(cfg.home, React(s, r, e, cfg).0.hs)
  {
    hide SafePath, SafeDir, IsName, Rooted, OpenFlags, TextFlag, IsAppend, IsUpload, UpdateInfo, Delivered, ToWrite, OpenedDir, CPath, Unmissed;
    if r.OpenDir? {
      DirIsSafe(cfg.home, r, e);
    }
  }

  /** No READDIR of the root meets "..", and no REALPATH asks for a path that does not start with the home's names. */
  predicate HarmlessRequest(s: Sess, r: Request, e: Env, cfg: Config) {
    match r
    case ReadDir(_, k) =>
      cfg.noReadDir || !IsDir(s.hs, k) || s.hs[k].path.None?
      || !IsRoot(cfg.home, s.hs[k].path.value) || Place(Comps(cfg.home.realPath)) == []
      || forall n <- e.met :: CPath(n) != DOTDOT
    case RealPath(_, path) => OfShown(cfg.home, path) == [] || NamesHome(cfg.home, path.value)
    case _ => true
  }

  lemma ListingHarmlessIff(h: Home, dir: text, names: seq<text>)
    ensures (forall a <- OfEntries(Some(dir), names) :: Harmless(h, a)) <==>
            !IsRoot(h, dir) || Place(Comps(h.realPath)) == [] || forall n <- names :: CPath(n) != DOTDOT
  {
    hide IsRoot, Place, Comps, CPath;
    var as' := OfEntries(Some(dir), names);
    assert forall i :: 0 <= i < |names| ==> as'[i] == EntryAccess(dir, names[i]);
    if !IsRoot(h, dir) || Place(Comps(h.realPath)) == [] || forall n <- names :: CPath(n) != DOTDOT {
      forall a <- as' ensures Harmless(h, a) {
        var i :| 0 <= i < |names| && as'[i] == a;
        assert names[i] in names;
      }
    } else {
      var i :| 0 <= i < |names| && CPath(names[i]) == DOTDOT;
      assert as'[i] in as' && !Harmless(h, as'[i]);
    }
  }

  lemma RequestHarmlessIff(s: Sess, r: Request, e: Env, cfg: Config)
    ensures (forall a <- AccessesOf(s, r, e, cfg) :: Harmless(cfg.home, a)) <==> HarmlessRequest(s, r, e, cfg)
  {
    hide IsRoot, NamesHome, Place, Comps, OpenFlags, IsAppend, IsUpload, CPath, ScanPath, EndsSlash, OfEntries;
    var as' := AccessesOf(s, r, e, cfg);
    if r.ReadDir? && !cfg.noReadDir && IsDir(s.hs, r.h) {
      if s.hs[r.h].path.Some? {
        ListingHarmlessIff(cfg.home, s.hs[r.h].path.value, e.met);
      } else {
        assert as' == [] by { NoEntries(e.met); }
      }
    } else if r.RealPath? && as' != [] {
      assert as' == [ShownAccess(r.path.value)];
      assert as'[0] in as';
    }
  }

  lemma NoEntries(names: seq<text>)
    ensures OfEntries(None, names) == []
  {
  }

  /** One request reaches nothing outside the home exactly if it is harmless. */
  lemma RequestBelowIff(s: Sess, r: Request, e: Env, cfg: Config)
    requires Rooted(cfg.home) && SafeHandles(cfg.home, s.hs) && AsksSafely(cfg.home, r, e)
    ensures (forall a <- AccessesOf(s, r, e, cfg) :: LiesBelow(cfg.home, a)) <==> HarmlessRequest(s, r, e, cfg)
  {
    hide SafeAccess, SafeHandles, AsksSafely, AccessesOf, LiesBelow, Harmless, HarmlessRequest, Rooted;
    AccessesAreSafe(s, r, e, cfg);
    RequestHarmlessIff(s, r, e, cfg);
    forall a <- AccessesOf(s, r, e, cfg) ensures LiesBelow(cfg.home, a) <==> Harmless(cfg.home, a) {
      AccessBelowIff(cfg.home, a);
    }
  }

  // ----- runs -----

  ghost predicate RunAsksSafely(s0: Sess, ins: seq<Input>, cfg: Config) {
    forall k :: 0 <= k < |ins| ==> AsksSafely(cfg.home, RequestOf(PhaseAfter(PhaseOf(s0), Msgs(ins)[..k]), ins[k].msg), ins[k].env)
  }

  /** Message number k of the run is harmless in the state it meets. */
  ghost predicate HarmlessAt(s0: Sess, ins: seq<Input>, cfg: Config, dbs: Databases, k: nat)
    requires Legal(s0, ins, cfg, dbs) && k < |ins|
  {
    Legal(s0, ins[..k], cfg, dbs) &&
    var s := Run(s0, ins[..k], cfg, dbs).0;
    HarmlessRequest(s, RequestOf(PhaseOf(s), ins[k].msg), ins[k].env, cfg)
  }

  ghost predicate AllHarmless(s0: Sess, ins: seq<Input>, cfg: Config, dbs: Databases)
    requires Legal(s0, ins, cfg, dbs)
  {
    forall k :: 0 <= k < |ins| ==> HarmlessAt(s0, ins, cfg, dbs, k)
  }

  ghost predicate AllBelow(h: Home, as': seq<Access>) {
    forall a <- as' :: LiesBelow(h, a)
  }

  /** One message: its handles, and what was handed over before and by it. */
  lemma ReadableHere(s: Sess, i: Input, cfg: Config, dbs: Databases)
    requires LegalStep(s, i, cfg, dbs)
    ensures var r := RequestOf(PhaseOf(s), i.msg);
            && (r.Write? ==> r.data.Some?)
            && Act(s, i, cfg, dbs).0.hs == React(s, r, i.env, cfg).0.hs
            && Act(s, i, cfg, dbs).0.accesses == s.accesses + AccessesOf(s, r, i.env, cfg)
  {
    hide ReadRequest, Possible, AccessesOf, Payload;
    StepRecords(s, RequestOf(PhaseOf(s), i.msg), i.env, cfg);
  }

  /**
    In every run under a virtual root whose requests miss no "..": the handles keep such paths, and
    everything that any handler hands over, its request's paths, an open handle's, or the entries
    of a listing, is looked up below the home, exactly if every READDIR and REALPATH is harmless.
   */
  lemma {:induction false} RunReachesUnderHome(s0: Sess, ins: seq<Input>, cfg: Config, dbs: Databases)
    requires Rooted(cfg.home) && SafeHandles(cfg.home, s0.hs) && AllBelow(cfg.home, s0.accesses)
    requires Legal(s0, ins, cfg, dbs) && RunAsksSafely(s0, ins, cfg)
    ensures SafeHandles(cfg.home, Run(s0, ins, cfg, dbs).0.hs)
    ensures AllBelow(cfg.home, Run(s0, ins, cfg, dbs).0.accesses) <==>
            AllHarmless(s0, ins, cfg, dbs)
    decreases |ins|
  {
    hide Run, Legal, Act, RequestOf, AsksSafely, SafeHandles, Rooted, PhaseAfter, LegalStep, AllBelow, HarmlessAt, AllHarmless;
    if ins == [] {
      RunEmpty(s0, cfg, dbs);
      NothingAsked(s0, ins, cfg, dbs);
    } else {
      var n := |ins| - 1;
      var t := ins[..n];
      RunSnoc(s0, ins, cfg, dbs);
      assert forall k :: 0 <= k <= n ==> Msgs(ins)[..k] == Msgs(t)[..k];
      RunReachesUnderHome(s0, t, cfg, dbs);
      HarmlessBefore(s0, ins, cfg, dbs);
      OneReplyEach(s0, t, cfg, dbs);
      assert Msgs(t)[..n] == Msgs(t);
      MessageReaches(s0, ins, cfg, dbs);
    }
  }

  /** The last message of a run. */
  lemma MessageReaches(s0: Sess, ins: seq<Input>, cfg: Config, dbs: Databases)
    requires ins != [] && Legal(s0, ins, cfg, dbs) && Legal(s0, ins[..|ins| - 1], cfg, dbs)
    requires var s, i := Run(s0, ins[..|ins| - 1], cfg, dbs).0, ins[|ins| - 1];
             Rooted(cfg.home) && SafeHandles(cfg.home, s.hs) && AsksSafely(cfg.home, RequestOf(PhaseOf(s), i.msg), i.env)
    ensures SafeHandles(cfg.home, Run(s0, ins, cfg, dbs).0.hs)
    ensures AllBelow(cfg.home, Run(s0, ins, cfg, dbs).0.accesses) <==>
            AllBelow(cfg.home, Run(s0, ins[..|ins| - 1], cfg, dbs).0.accesses) && HarmlessAt(s0, ins, cfg, dbs, |ins| - 1)
  {
    hide Run, Legal, Act, RequestOf, AsksSafely, SafeHandles, Rooted, LegalStep, React, AccessesOf, HarmlessRequest, LiesBelow;
    var s, i := Run(s0, ins[..|ins| - 1], cfg, dbs).0, ins[|ins| - 1];
    var r := RequestOf(PhaseOf(s), i.msg);
    RunSnoc(s0, ins, cfg, dbs);
    ReadableHere(s, i, cfg, dbs);
    StepKeepsSafe(s, r, i.env, cfg);
    RequestBelowIff(s, r, i.env, cfg);
  }

  lemma NothingAsked(s0: Sess, ins: seq<Input>, cfg: Config, dbs: Databases)
    requires ins == [] && Legal(s0, ins, cfg, dbs)
    ensures AllHarmless(s0, ins, cfg, dbs)
  {
    hide Legal, HarmlessAt;
  }

  lemma HarmlessBefore(s0: Sess, ins: seq<Input>, cfg: Config, dbs: Databases)
    requires ins != [] && Legal(s0, ins, cfg, dbs) && Legal(s0, ins[..|ins| - 1], cfg, dbs)
    ensures AllHarmless(s0, ins, cfg, dbs) <==>
            AllHarmless(s0, ins[..|ins| - 1], cfg, dbs) && HarmlessAt(s0, ins, cfg, dbs, |ins| - 1)
  {
    hide Run, Legal, RequestOf, HarmlessRequest;
    var n := |ins| - 1;
    forall k: nat | k < n ensures HarmlessAt(s0, ins, cfg, dbs, k) <==> HarmlessAt(s0, ins[..n], cfg, dbs, k) {
      assert ins[..n][..k] == ins[..k];
    }
    if AllHarmless(s0, ins[..n], cfg, dbs) && HarmlessAt(s0, ins, cfg, dbs, n) {
      forall k: nat | k < |ins| ensures HarmlessAt(s0, ins, cfg, dbs, k) {
        assert k < n ==> HarmlessAt(s0, ins[..n], cfg, dbs, k);
      }
    }
  }
}
