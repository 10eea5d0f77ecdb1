/** FileSystem.c: the path resolver on character arrays, in place. */
module FileSystem {
  import opened Wrappers
  import opened CStrings
  import opened PathScan
  import opened PathText
  import opened PathResolve
  import opened Security

  /** The array holds a string of n characters. */
  predicate Holds(a: array<char>, n: nat)
    reads a
  {
    n < a.Length && a[n] == NUL && NUL !in a[..n]
  }

  lemma HoldsText(a: array<char>, n: nat)
    requires Holds(a, n)
    ensures Terminated(a[..]) && Text(a[..]) == a[..n]
  {
    forall k | 0 <= k < n ensures a[k] != NUL {
      assert a[k] == a[..n][k];
    }
    TextIs(a[..], n);
  }

  lemma HoldsFrom(a: array<char>, n: nat, k: nat)
    requires Holds(a, n) && k <= n
    ensures Terminated(a[k..]) && TextLen(a[k..]) == n - k
  {
    forall i | 0 <= i < n ensures a[i] != NUL {
      assert a[i] == a[..n][i];
    }
    TextIs(a[k..], n - k);
  }

  // ----- the removal of ".." components -----

  /** strstr(path + s, ".."), or len when there is none. */
  method FindDots(path: array<char>, s: nat, len: nat) returns (ptr: nat)
    requires Holds(path, len) && s <= len
    ensures ptr == NextDots(path[..len], s)
  {
    hide NextDots;
    ptr := s;
    while path[ptr] != NUL
      invariant s <= ptr <= len
      invariant forall k :: s <= k < ptr ==> !DotsAt(path[..len], k)
      decreases len - ptr
    {
      assert ptr < len;
      if path[ptr] == '.' && path[ptr + 1] == '.' {
        assert DotsAt(path[..len], ptr);
        return;
      }
      ptr := ptr + 1;
    }
  }

  /** The two backward loops: over trailing slashes, then to the start of the name before them. */
  method FindParent(path: array<char>, end: nat) returns (beg: nat)
    requires end <= path.Length
    ensures beg == ParentStart(path[..], end)
  {
    beg := end;
    while beg > 1 && path[beg - 1] == '/'
      invariant beg <= end
      invariant SkipSlashes(path[..], beg) == SkipSlashes(path[..], end)
    {
      beg := beg - 1;
    }
    var i: int := beg - 1;
    while i >= 0 && !(path[i] == '/' && (i == 0 || path[i - 1] != '/'))
      invariant -1 <= i < beg
      invariant RunStart(path[..], i) == RunStart(path[..], beg - 1)
    {
      i := i - 1;
    }
    beg := if i < 1 then (if i < 0 then 0 else 1) else i;
  }

  /** Moves the string from `end` on down to `beg`. */
  method DeleteRange(path: array<char>, beg: nat, end: nat, len: nat)
    requires Holds(path, len) && beg <= end <= len
    modifies path
    ensures Holds(path, len - (end - beg))
    ensures path[..len - (end - beg)] == old(path[..beg]) + old(path[end..len])
  {
    ghost var was := path[..];
    var i := 0;
    while end + i < len
      invariant end + i <= len
      invariant forall k :: 0 <= k < beg || beg + i <= k < path.Length ==> path[k] == was[k]
      invariant forall k :: beg <= k < beg + i ==> path[k] == was[k + (end - beg)]
    {
      path[beg + i] := path[end + i];
      i := i + 1;
    }
    path[beg + i] := NUL;
    Moved(was, path[..], beg, end, len);
  }

  lemma Moved(was: string, now: string, beg: nat, end: nat, len: nat)
    requires beg <= end <= len < |was| == |now| && NUL !in was[..len]
    requires forall k :: 0 <= k < beg ==> now[k] == was[k]
    requires forall k :: beg <= k < len - (end - beg) ==> now[k] == was[k + (end - beg)]
    ensures now[..len - (end - beg)] == was[..beg] + was[end..len]
    ensures NUL !in now[..len - (end - beg)]
  {
    var r := was[..beg] + was[end..len];
    assert now[..len - (end - beg)] == r;
    forall k | 0 <= k < |r| ensures r[k] != NUL {
      assert r[k] in was[..len];
    }
  }

  /** Deletes the ".." at ptr with the name before it. */
  method RemoveAt(path: array<char>, ptr: nat, len: nat) returns (newLen: nat)
    requires Holds(path, len) && ptr + 2 <= len
    modifies path
    ensures newLen < len && Holds(path, newLen)
    ensures path[..newLen] == CutParent(old(path[..len]), ptr)
  {
    ghost var t := path[..len];
    var beg := FindParent(path, ptr);
    SameParent(path[..], t, ptr);
    DeleteRange(path, beg, ptr + 2, len);
    newLen := len - (ptr + 2 - beg);
  }

  /** The test of the loop: the two dots at ptr are a whole component. */
  method IsWhole(path: array<char>, ptr: nat, len: nat) returns (whole: bool, atEnd: bool)
    requires Holds(path, len) && DotsAt(path[..len], ptr)
    ensures whole == Whole(path[..len], ptr)
    ensures atEnd == (ptr + 2 == len)
  {
    hide TextLen, Terminated;
    HoldsFrom(path, len, ptr);
    var rest := StrLen(path, ptr);
    var beg := len - rest;
    var end := beg + 2;
    ghost var t := path[..len];
    assert beg > 0 ==> path[beg - 1] == t[beg - 1];
    assert end < len ==> path[end] == t[end] && t[end] in t;
    whole := (beg == 0 || path[beg - 1] == '/') && (path[end] == NUL || path[end] == '/');
    atEnd := path[end] == NUL;
  }

  /** FSResolvRelativePath: as long as its pointer stays within the string, its text is the scan's. */
  method FSResolvRelativePath(path: array<char>, permitDotDirectory: bool)
    requires Terminated(path[..])
    requires ScanText(Text(path[..]), permitDotDirectory).Some?
    modifies path
    ensures Terminated(path[..])
    ensures Text(path[..]) == ScanText(old(Text(path[..])), permitDotDirectory).value
  {
    hide TrimDot, Scan, CutParent, NextDots;
    ghost var goal := Scan(Text(path[..]), 0, permitDotDirectory);
    var s: nat := 0;
    assert path[0..] == path[..];
    var len: nat := StrLen(path, 0);
    assert path[..len] == Text(path[..]);
    var ptr := FindDots(path, s, len);
    while ptr < len
      invariant Holds(path, len) && s <= len && ptr == NextDots(path[..len], s)
      invariant Scan(path[..len], s, permitDotDirectory) == goal
      decreases len, len - s
    {
      ScanStep(path[..len], s, permitDotDirectory);
      var whole, atEnd := IsWhole(path, ptr, len);
      if whole {
        if atEnd && permitDotDirectory {
          break;
        }
        len := RemoveAt(path, ptr, len);
      } else {
        s := ptr + 2;
      }
      ptr := FindDots(path, s, len);
    }
    ScanStep(path[..len], s, permitDotDirectory);
    TrimFinalDot(path, len, permitDotDirectory);
  }

  /** One turn of the loop. */
  lemma ScanStep(t: string, s: nat, permit: bool)
    requires s <= |t| && Scan(t, s, permit).Some?
    ensures var i := NextDots(t, s);
            if i == |t| || (Whole(t, i) && permit && i + 2 == |t|) then Scan(t, s, permit) == Some(t)
            else if Whole(t, i) then s <= |CutParent(t, i)| && Scan(t, s, permit) == Scan(CutParent(t, i), s, permit)
            else Scan(t, s, permit) == Scan(t, i + 2, permit)
  {
  }

  /** Cuts the "." off a final "/." unless it is permitted. */
  method TrimFinalDot(path: array<char>, len: nat, permitDotDirectory: bool)
    requires Holds(path, len)
    modifies path
    ensures Terminated(path[..])
    ensures Text(path[..]) == TrimDot(old(path[..len]), permitDotDirectory)
  {
    hide TextLen, Text;
    HoldsText(path, len);
    ghost var t := path[..len];
    if len >= 2 && path[len - 2] == '/' && path[len - 1] == '.' {
      if !permitDotDirectory {
        path[len - 1] := NUL;
        assert path[..len - 1] == t[..len - 1];
        HoldsText(path, len - 1);
      }
    }
  }

  /** The parent search looks only at the string, not behind it. */
  lemma {:induction false} SameParent(a: string, t: string, i: nat)
    requires t <= a && i <= |t|
    ensures ParentStart(a, i) == ParentStart(t, i)
  {
    SameSkip(a, t, i);
    SameRun(a, t, SkipSlashes(t, i) - 1);
  }

  lemma SameSkip(a: string, t: string, i: nat)
    requires t <= a && i <= |t|
    ensures SkipSlashes(a, i) == SkipSlashes(t, i)
  {
  }

  lemma SameRun(a: string, t: string, i: int)
    requires t <= a && -1 <= i < |t|
    ensures RunStart(a, i) == RunStart(t, i)
    decreases i + 1
  {
  }

  // ----- joining -----

  /** FSBuildPath: a fresh string without doubled slashes. */
  method FSBuildPath(path1: array<char>, path2: array<char>) returns (path: array<char>)
    requires Terminated(path1[..]) && Terminated(path2[..])
    ensures fresh(path) && Terminated(path[..])
    ensures Text(path[..]) == BuildPath(Text(path1[..]), Text(path2[..]))
  {
    assert path1[0..] == path1[..] && path2[0..] == path2[..];
    ghost var a, b := Text(path1[..]), Text(path2[..]);
    var len1 := StrLen(path1, 0);
    var len2 := StrLen(path2, 0);
    path := new char[len1 + 1 + len2 + 1];
    var lastChar := START;
    var len := 0;
    len, lastChar := CopyCollapsed(path1, len1, path, len, lastChar, "");
    assert "" + path1[..len1] == a;
    if lastChar != '/' {
      ghost var was := path[..len];
      lastChar := '/';
      path[len] := lastChar;
      len := len + 1;
      assert path[..len] == was + "/";
    }
    CollapseSnoc(a, '/');
    assert path[..len] == Collapse(a + "/", START);
    len, lastChar := CopyCollapsed(path2, len2, path, len, lastChar, a + "/");
    path[len] := NUL;
    CollapseNoNul(a + "/" + b, START);
    HoldsText(path, len);
  }

  lemma {:induction false} CollapseNoNul(s: string, last: char)
    requires NUL !in s
    ensures NUL !in Collapse(s, last)
  {
    if s != "" {
      CollapseNoNul(s[1..], s[0]);
    }
  }

  /** One copying loop: appends n characters of src, dropping each slash after a slash. */
  method CopyCollapsed(src: array<char>, n: nat, path: array<char>, len: nat, last: char, ghost prefix: string)
    returns (newLen: nat, lastChar: char)
    requires Holds(src, n) && src != path
    requires len + n < path.Length
    requires path[..len] == Collapse(prefix, START) && last == LastOf(prefix, START)
    modifies path
    ensures newLen <= len + n
    ensures path[..newLen] == Collapse(prefix + src[..n], START)
    ensures lastChar == LastOf(prefix + src[..n], START)
  {
    newLen, lastChar := len, last;
    assert prefix + src[..0] == prefix;
    for i := 0 to n
      invariant newLen <= len + i
      invariant path[..newLen] == Collapse(prefix + src[..i], START)
      invariant lastChar == LastOf(prefix + src[..i], START)
    {
      var currentChar := src[i];
      CollapseSnoc(prefix + src[..i], currentChar);
      assert prefix + src[..i + 1] == prefix + src[..i] + [currentChar];
      if !(lastChar == '/' && currentChar == '/') {
        ghost var was := path[..newLen];
        path[newLen] := currentChar;
        newLen := newLen + 1;
        lastChar := currentChar;
        assert path[..newLen] == was + [currentChar];
      }
    }
  }

  lemma CollapseSnoc(s: string, c: char)
    ensures Collapse(s + [c], START) ==
            Collapse(s, START) + if LastOf(s, START) == '/' && c == '/' then "" else [c]
  {
    CollapseAppend(s, [c], START);
    assert [c][1..] == "";
  }

  // ----- resolving a request -----

  /** The three strings of a resolved path. */
  class FSPath {
    var realPath: array<char>
    var exposedPath: array<char>
    var path: array<char>

    constructor (realPath: array<char>, exposedPath: array<char>, path: array<char>)
      ensures this.realPath == realPath && this.exposedPath == exposedPath && this.path == path
    {
      this.realPath, this.exposedPath, this.path := realPath, exposedPath, path;
    }

    /** The strings are those of r, with the base name of its exposed path. */
    ghost predicate Holds(r: Resolved)
      reads this, realPath, exposedPath, path
    {
      && Terminated(realPath[..]) && Text(realPath[..]) == r.realPath
      && Terminated(exposedPath[..]) && Text(exposedPath[..]) == r.exposedPath
      && Terminated(path[..]) && Text(path[..]) == BaseName(r.exposedPath)
    }
  }

  /** The last slash before the final character, searched backwards. */
  method LastSlash(path: array<char>, len: nat) returns (idx: int)
    requires Holds(path, len)
    ensures idx == RSlash(path[..len], len - 2)
  {
    ghost var e := path[..len];
    idx := len - 2;
    while idx >= 0 && path[idx] != '/'
      invariant idx < len
      invariant RSlash(e, idx) == RSlash(e, len - 2)
    {
      assert path[idx] == e[idx];
      idx := idx - 1;
    }
    assert idx >= 0 ==> path[idx] == e[idx];
  }

  /** What follows the last slash of the exposed path, without a final one. */
  method BaseNameOf(exposedPath: array<char>) returns (path: array<char>)
    requires Terminated(exposedPath[..])
    ensures fresh(path) && Terminated(path[..])
    ensures Text(path[..]) == BaseName(Text(exposedPath[..]))
  {
    hide RSlash;
    assert exposedPath[0..] == exposedPath[..];
    var len: nat := StrLen(exposedPath, 0);
    ghost var e := exposedPath[..len];
    assert e == Text(exposedPath[..]);
    var idx := LastSlash(exposedPath, len);
    if idx < 0 {
      path := StrDup(exposedPath);
    } else {
      assert exposedPath[len - 1] == e[len - 1];
      var stop := if exposedPath[len - 1] == '/' then len - 1 else len;
      path := CopyRange(exposedPath, idx + 1, stop);
      assert exposedPath[idx + 1..stop] == e[idx + 1..stop];
    }
  }

  /** A fresh string of the characters from lo up to hi. */
  method CopyRange(a: array<char>, lo: nat, hi: nat) returns (r: array<char>)
    requires lo <= hi <= a.Length
    requires forall k :: lo <= k < hi ==> a[k] != NUL
    ensures fresh(r) && Terminated(r[..]) && Text(r[..]) == a[lo..hi]
  {
    r := new char[hi - lo + 1];
    for i := 0 to hi - lo
      invariant forall k :: 0 <= k < i ==> r[k] == a[lo + k]
    {
      r[i] := a[lo + i];
    }
    r[hi - lo] := NUL;
    TextIs(r[..], hi - lo);
  }

  class FileSystem {
    const homeReal: array<char>
    const homeExposed: array?<char>
    const sw: Switches
    /** The symbolic links on disk, by the real path they are found at. */
    var links: map<string, string>
    /** The paths that have been handed to the system, in order. */
    var calls: seq<string>

    constructor (realPath: array<char>, exposedPath: array?<char>, sw: Switches)
      ensures homeReal == realPath && homeExposed == exposedPath && this.sw == sw && links == map[] && calls == []
    {
      homeReal, homeExposed, this.sw, links, calls := realPath, exposedPath, sw, map[], [];
    }

    ghost predicate Valid()
      reads homeReal, homeExposed
    {
      Terminated(homeReal[..]) && (homeExposed != null ==> Terminated(homeExposed[..]))
    }

    ghost function Root(): Home
      requires Valid()
      reads homeReal, homeExposed
    {
      Home(Text(homeReal[..]), if homeExposed == null then None else Some(Text(homeExposed[..])))
    }

    static ghost predicate MaybeText(path2: array?<char>)
      reads path2
    {
      path2 != null ==> Terminated(path2[..])
    }

    static ghost function NameOf(path2: array?<char>): Option<string>
      requires MaybeText(path2)
      reads path2
    {
      if path2 == null then None else Some(Text(path2[..]))
    }

    method StartOf(path1: array<char>) returns (start: array<char>)
      requires Valid() && Terminated(path1[..])
      ensures fresh(start) && Terminated(start[..])
      ensures Text(start[..]) == StartPath(Root(), Text(path1[..]))
    {
      if path1[0] == '/' {
        start := StrDup(path1);
      } else if homeExposed == null {
        start := FSBuildPath(homeReal, path1);
      } else {
        start := FSBuildPath(homeExposed, path1);
      }
    }

    /** The part of FSResolvePath before path2 is looked at. */
    method FirstPaths(path1: array<char>, permitDotDirectory: bool) returns (exposedPath: array<char>, realPath: array<char>)
      requires Valid() && Terminated(path1[..])
      requires ScanText(StartPath(Root(), Text(path1[..])), permitDotDirectory).Some?
      ensures fresh(exposedPath) && fresh(realPath) && exposedPath != realPath
      ensures Terminated(exposedPath[..]) && Terminated(realPath[..])
      ensures var start := StartPath(Root(), Text(path1[..]));
              Resolved(Text(exposedPath[..]), Text(realPath[..]))
              == AfterFirst(Root(), start, ScanText(start, permitDotDirectory).value)
    {
      exposedPath := StartOf(path1);
      if homeExposed == null {
        realPath := StrDup(exposedPath);
        FSResolvRelativePath(exposedPath, permitDotDirectory);
      } else {
        FSResolvRelativePath(exposedPath, permitDotDirectory);
        realPath := FSBuildPath(homeReal, exposedPath);
      }
    }

    /** The part of FSResolvePath that appends path2. */
    method AppendName(exposed0: array<char>, real0: array<char>, path2: array<char>)
      returns (exposedPath: array<char>, realPath: array<char>)
      requires Valid() && Terminated(exposed0[..]) && Terminated(real0[..]) && Terminated(path2[..])
      ensures fresh(exposedPath) && fresh(realPath) && exposedPath != realPath
      ensures Terminated(exposedPath[..]) && Terminated(realPath[..])
      ensures Resolved(Text(exposedPath[..]), Text(realPath[..]))
              == JoinName(Root(), Resolved(Text(exposed0[..]), Text(real0[..])), Some(Text(path2[..])))
    {
      exposedPath := FSBuildPath(exposed0, path2);
      if homeExposed != null {
        realPath := FSBuildPath(real0, path2);
      } else {
        realPath := StrDup(exposedPath);
      }
    }

    /** Both strings as FSResolvePath hands them to the final pass. */
    method JoinedPaths(path1: array<char>, path2: array?<char>, permitDotDirectory: bool)
      returns (exposedPath: array<char>, realPath: array<char>)
      requires Valid() && Terminated(path1[..]) && MaybeText(path2)
      requires ScanFirst(Root(), Text(path1[..]), NameOf(path2), permitDotDirectory).Some?
      ensures fresh(exposedPath) && fresh(realPath) && exposedPath != realPath
      ensures Terminated(exposedPath[..]) && Terminated(realPath[..])
      ensures Resolved(Text(exposedPath[..]), Text(realPath[..]))
              == ScanFirst(Root(), Text(path1[..]), NameOf(path2), permitDotDirectory).value
    {
      exposedPath, realPath := FirstPaths(path1, permitDotDirectory);
      if path2 != null {
        exposedPath, realPath := AppendName(exposedPath, realPath, path2);
      }
    }

    /** The final pass over both strings, and the base name. */
    method FinalPass(exposedPath: array<char>, realPath: array<char>, permitDotDirectory: bool) returns (newPath: FSPath)
      requires exposedPath != realPath && Terminated(exposedPath[..]) && Terminated(realPath[..])
      requires ScanText(Text(exposedPath[..]), permitDotDirectory).Some? && ScanText(Text(realPath[..]), permitDotDirectory).Some?
      modifies exposedPath, realPath
      ensures fresh(newPath)
      ensures newPath.Holds(Resolved(ScanText(old(Text(exposedPath[..])), permitDotDirectory).value,
                                     ScanText(old(Text(realPath[..])), permitDotDirectory).value))
    {
      FSResolvRelativePath(exposedPath, permitDotDirectory);
      FSResolvRelativePath(realPath, permitDotDirectory);
      var path := BaseNameOf(exposedPath);
      newPath := new FSPath(realPath, exposedPath, path);
    }

    /** FSResolvePath: the exposed path, the real path and the base name of a request. */
    method FSResolvePath(path1: array<char>, path2: array?<char>, permitDotDirectory: bool) returns (newPath: FSPath)
      requires Valid() && Terminated(path1[..]) && MaybeText(path2)
      requires ScanPath(Root(), Text(path1[..]), NameOf(path2), permitDotDirectory).Some?
      ensures fresh(newPath)
      ensures newPath.Holds(ScanPath(Root(), Text(path1[..]), NameOf(path2), permitDotDirectory).value)
    {
      hide ScanText, ScanFirst, StartPath;
      ghost var h, p1, p2 := Root(), Text(path1[..]), NameOf(path2);
      var exposedPath, realPath := JoinedPaths(path1, path2, permitDotDirectory);
      assert Resolved(Text(exposedPath[..]), Text(realPath[..])) == ScanFirst(h, p1, p2, permitDotDirectory).value;
      newPath := FinalPass(exposedPath, realPath, permitDotDirectory);
      assert newPath.Holds(ScanPath(h, p1, p2, permitDotDirectory).value);
      assert Root() == h && Text(path1[..]) == p1 && NameOf(path2) == p2;
    }

    // ----- calls to the system -----

    /** A request without a second part, resolved: its real path and its base name. */
    method Resolve(file: array<char>) returns (full: string, name: string)
      requires Valid() && Terminated(file[..])
      requires ScanPath(Root(), Text(file[..]), None, false).Some?
      ensures var r := ScanPath(Root(), Text(file[..]), None, false).value;
              full == r.realPath && name == BaseName(r.exposedPath)
    {
      hide ScanPath;
      var path := FSResolvePath(file, null, false);
      full := AsText(path.realPath);
      name := AsText(path.path);
    }

    /** FSCheckSecurity; `a` is what the system and FileSpecCheckRights say about the path. */
    method FSCheckSecurity(fullPath: string, name: string, a: Answer) returns (v: Verdict)
      requires Valid()
      modifies this`calls
      ensures var (w, asked) := Check(Root().realPath, sw, fullPath, name, a);
              v == w && calls == old(calls) + asked
    {
      if sw.stayAtHome {
        var home := AsText(homeReal);
        if !(home <= fullPath) {
          return Denied;
        }
      }
      if sw.ignoreHidden && IsHidden(name) {
        return NoSuchFile;
      }
      if sw.hideNoAccess {
        calls := calls + [fullPath];
        if !a.visible {
          return NoSuchFile;
        }
      }
      return if a.allowed then Permitted else Denied;
    }

    /**
      What FSOpenFile, FSStat, FSUnlink, FSMkdir and FSRmdir have in common: only a path that
      FSCheckSecurity permits is handed on.
     */
    method FSCall(file: array<char>, a: Answer) returns (v: Verdict)
      requires Valid() && Terminated(file[..])
      requires ScanPath(Root(), Text(file[..]), None, false).Some?
      modifies this`calls
      ensures (v, calls) == (Asked(Root(), sw, Text(file[..]), a).0, old(calls) + Asked(Root(), sw, Text(file[..]), a).1)
    {
      hide ScanPath, Check, BaseName;
      var full, name := Resolve(file);
      v := FSCheckSecurity(full, name, a);
      if v.Permitted? {
        calls := calls + [full];
      }
      assert calls == old(calls) + Asked(Root(), sw, Text(file[..]), a).1;
    }

    /** FSOpenDir: under a virtual root the caller's string is resolved in place first. */
    method FSOpenDir(dir: array<char>, a: Answer) returns (v: Verdict)
      requires Valid() && Terminated(dir[..]) && dir != homeReal && dir != homeExposed
      requires homeExposed != null ==> ScanText(Text(dir[..]), false).Some?
      requires ScanPath(Root(), OpenedDir(Root(), Text(dir[..])), None, false).Some?
      modifies dir, this`calls
      ensures Terminated(dir[..]) && Text(dir[..]) == OpenedDir(old(Root()), old(Text(dir[..])))
      ensures (v, calls) == (Asked(old(Root()), sw, Text(dir[..]), a).0, old(calls) + Asked(old(Root()), sw, Text(dir[..]), a).1)
    {
      hide ScanPath, ScanText, Check;
      if homeExposed != null {
        FSResolvRelativePath(dir, false);
      }
      v := FSCall(dir, a);
    }

    /** FSRealPath: asks about the path that it shows, and adds a slash to it unless that is a file. */
    method FSRealPath(file: array<char>, found: bool, isFile: bool) returns (shown: string)
      requires Valid() && Terminated(file[..])
      requires ScanPath(Root(), Text(file[..]), None, false).Some?
      modifies this`calls
      ensures var e := ScanPath(Root(), Text(file[..]), None, false).value.exposedPath;
              var asks := e != "" && !EndsSlash(e);
              && shown == (if asks && found && !isFile then e + "/" else e)
              && calls == old(calls) + if asks then [e] else []
    {
      hide ScanPath;
      var path := FSResolvePath(file, null, false);
      shown := AsText(path.exposedPath);
      var len := |shown|;
      if len >= 1 && shown[len - 1] != '/' {
        calls := calls + [shown];
        if found && !isFile {
          shown := shown + "/";
        }
      }
    }

    method ResolveEntry(readDir: array<char>, name: string) returns (full: string, base: string)
      requires Valid() && Terminated(readDir[..]) && NUL !in name
      requires ScanPath(Root(), Text(readDir[..]), Some(name), true).Some?
      ensures var r := ScanPath(Root(), Text(readDir[..]), Some(name), true).value;
              full == r.realPath && base == BaseName(r.exposedPath)
    {
      hide ScanPath, BaseName;
      var d_name := FromText(name);
      var path := FSResolvePath(readDir, d_name, true);
      full := AsText(path.realPath);
      base := AsText(path.path);
    }

    /** One turn of FSReadDir: an entry is accepted if it is permitted, and lstat or stat finds it. */
    method FSReadEntry(readDir: array<char>, e: DirEntry) returns (ok: bool)
      requires Valid() && Terminated(readDir[..]) && NUL !in e.name
      requires ScanPath(Root(), Text(readDir[..]), Some(e.name), true).Some?
      modifies this`calls
      ensures (ok, calls) == (EntryAsked(Root(), sw, Text(readDir[..]), e).0, old(calls) + EntryAsked(Root(), sw, Text(readDir[..]), e).1)
    {
      hide ScanPath, Check, BaseName;
      var full, base := ResolveEntry(readDir, e.name);
      var v := FSCheckSecurity(full, base, e.answer);
      if v.Permitted? {
        calls := calls + [full];
      }
      assert calls == old(calls) + EntryAsked(Root(), sw, Text(readDir[..]), e).1;
      return v.Permitted? && e.found;
    }

    /** FSReadDir: reads on to the first entry that is accepted; k is the number of entries if there is none. */
    method FSReadDir(readDir: array<char>, es: seq<DirEntry>) returns (k: nat)
      requires Valid() && Terminated(readDir[..])
      requires forall e <- es :: NUL !in e.name && ScanPath(Root(), Text(readDir[..]), Some(e.name), true).Some?
      modifies this`calls
      ensures (k, calls) == (ListingAsked(Root(), sw, Text(readDir[..]), es).0, old(calls) + ListingAsked(Root(), sw, Text(readDir[..]), es).1)
    {
      hide ScanPath, EntryAsked, ListingAsked;
      ghost var h, d := Root(), Text(readDir[..]);
      ghost var asked := [];
      k := 0;
      assert es[0..] == es;
      while k < |es|
        invariant k <= |es| && Root() == h && Text(readDir[..]) == d
        invariant calls == old(calls) + asked
        invariant ListingAsked(h, sw, d, es).0 == k + ListingAsked(h, sw, d, es[k..]).0
        invariant ListingAsked(h, sw, d, es).1 == asked + ListingAsked(h, sw, d, es[k..]).1
      {
        ListingTurn(h, sw, d, es, k);
        asked := asked + EntryAsked(h, sw, d, es[k]).1;
        var ok := FSReadEntry(readDir, es[k]);
        assert calls == old(calls) + asked;
        if ok {
          return k;
        }
        k := k + 1;
      }
      assert es[k..] == [] && asked + [] == asked;
      NothingListed(h, sw, d);
    }

    /** Both paths of a rename or a link; the second is not looked at when the first is refused. */
    method BothPermitted(oldReal: string, oldName: string, newReal: string, newName: string, a: Answer, b: Answer) returns (ok: bool)
      requires Valid()
      modifies this`calls
      ensures (ok, calls) == (BothAsked(Root(), sw, oldReal, oldName, newReal, newName, a, b).0,
                              old(calls) + BothAsked(Root(), sw, oldReal, oldName, newReal, newName, a, b).1)
    {
      hide Check;
      var v := FSCheckSecurity(oldReal, oldName, a);
      if !v.Permitted? {
        assert calls == old(calls) + BothAsked(Root(), sw, oldReal, oldName, newReal, newName, a, b).1;
        return false;
      }
      var w := FSCheckSecurity(newReal, newName, b);
      assert calls == old(calls) + BothAsked(Root(), sw, oldReal, oldName, newReal, newName, a, b).1;
      return w.Permitted?;
    }

    /** FSRename: with `overwrite` the new path is unlinked before. */
    method FSRename(oldFile: array<char>, newFile: array<char>, overwrite: bool, a: Answer, b: Answer) returns (ok: bool)
      requires Valid() && Terminated(oldFile[..]) && Terminated(newFile[..])
      requires ScanPath(Root(), Text(oldFile[..]), None, false).Some? && ScanPath(Root(), Text(newFile[..]), None, false).Some?
      modifies this`calls
      ensures var (p, q) := (ScanPath(Root(), Text(oldFile[..]), None, false).value, ScanPath(Root(), Text(newFile[..]), None, false).value);
              var (both, asked) := BothAsked(Root(), sw, p.realPath, BaseName(p.exposedPath), q.realPath, BaseName(q.exposedPath), a, b);
              && ok == both
              && calls == old(calls) + asked + if ok then (if overwrite then [q.realPath] else []) + [p.realPath, q.realPath] else []
    {
      hide ScanPath, Check, BaseName;
      hide BothAsked;
      var oldReal, oldName := Resolve(oldFile);
      var newReal, newName := Resolve(newFile);
      ok := BothPermitted(oldReal, oldName, newReal, newName, a, b);
      if ok {
        if overwrite {
          calls := calls + [newReal];
        }
        calls := calls + [oldReal, newReal];
      }
    }

    // ----- symbolic links -----

    /** FSSymlink: `works` is what the system says about a free name. */
    method FSSymlink(target: array<char>, linkPath: array<char>, a: Answer, b: Answer, works: bool) returns (status: LinkStatus)
      requires Valid() && Terminated(target[..]) && Terminated(linkPath[..])
      requires ScanPath(Root(), Text(target[..]), None, false).Some? && ScanPath(Root(), Text(linkPath[..]), None, false).Some?
      modifies this`links, this`calls
      ensures var (p, q) := (ScanPath(Root(), Text(target[..]), None, false).value, ScanPath(Root(), Text(linkPath[..]), None, false).value);
              var (both, asked) := BothAsked(Root(), sw, p.realPath, BaseName(p.exposedPath), q.realPath, BaseName(q.exposedPath), a, b);
              && status == (if !both then Refused else if q.realPath in old(links) || !works then OsError else Done)
              && links == (if status == Done then old(links)[q.realPath := p.realPath] else old(links))
              && calls == old(calls) + asked + if both then [p.realPath, q.realPath] else []
    {
      hide ScanPath, Check, BaseName;
      hide BothAsked;
      var oldReal, oldName := Resolve(target);
      var newReal, newName := Resolve(linkPath);
      var ok := BothPermitted(oldReal, oldName, newReal, newName, a, b);
      if !ok {
        return Refused;
      }
      calls := calls + [oldReal, newReal];
      if newReal in links || !works {
        return OsError;
      }
      links := links[newReal := oldReal];
      return Done;
    }

    /** FSReadLink: the link's text in the caller's buffer, cut to its size, less the home. */
    method FSReadLink(file: array<char>, readLink: array<char>, a: Answer) returns (status: LinkStatus)
      requires Valid() && Terminated(file[..])
      requires ScanPath(Root(), Text(file[..]), None, false).Some?
      requires readLink.Length > 0
      requires readLink != file && readLink != homeReal && readLink != homeExposed
      requires forall t :: t in links.Values ==> NUL !in t
      modifies readLink, this`calls
      ensures var (v, asked) := old(Asked(Root(), sw, Text(file[..]), a));
              var at := old(ScanPath(Root(), Text(file[..]), None, false).value.realPath);
              && status == (if !v.Permitted? then Refused else if at in links then Done else OsError)
              && calls == old(calls) + asked
      ensures status == Done ==>
                var at := old(ScanPath(Root(), Text(file[..]), None, false).value.realPath);
                && at in links
                && Terminated(readLink[..])
                && Text(readLink[..]) == LinkText(old(Root()), links[at], readLink.Length)
    {
      hide ScanPath, Check, BaseName;
      var v := FSCall(file, a);
      if !v.Permitted? {
        return Refused;
      }
      var at, name := Resolve(file);
      if at !in links {
        return OsError;
      }
      LinkInto(links[at], readLink);
      return Done;
    }

    /** readlink, and under a virtual root the home cut off. */
    method LinkInto(text: string, readLink: array<char>)
      requires Valid() && readLink.Length > 0 && readLink != homeReal && readLink != homeExposed && NUL !in text
      modifies readLink
      ensures Terminated(readLink[..]) && Text(readLink[..]) == LinkText(old(Root()), text, readLink.Length)
    {
      var len := CopyInto(text, readLink);
      if homeExposed != null {
        assert homeReal[0..] == homeReal[..];
        var lenRP := StrLen(homeReal, 0);
        ShiftDown(readLink, lenRP, len);
      }
    }
  }

  /** The verdict on a request of one path, and what the system is asked about for it, the request itself included. */
  function Asked(h: Home, sw: Switches, file: string, a: Answer): (Verdict, seq<string>)
    requires ScanPath(h, file, None, false).Some?
  {
    var r := ScanPath(h, file, None, false).value;
    var (v, asked) := Check(h.realPath, sw, r.realPath, BaseName(r.exposedPath), a);
    (v, asked + if v.Permitted? then [r.realPath] else [])
  }

  /** What readdir() gives, what FSCheckSecurity is told of it, and whether lstat or stat finds it. */
  datatype DirEntry = DirEntry(name: string, answer: Answer, found: bool)

  function EntryAsked(h: Home, sw: Switches, dir: string, e: DirEntry): (bool, seq<string>)
    requires ScanPath(h, dir, Some(e.name), true).Some?
  {
    var r := ScanPath(h, dir, Some(e.name), true).value;
    var (v, asked) := Check(h.realPath, sw, r.realPath, BaseName(r.exposedPath), e.answer);
    (v.Permitted? && e.found, asked + if v.Permitted? then [r.realPath] else [])
  }

  /** The number of the first accepted entry, and what the system is asked about on the way. */
  function ListingAsked(h: Home, sw: Switches, dir: string, es: seq<DirEntry>): (nat, seq<string>)
    requires forall e <- es :: ScanPath(h, dir, Some(e.name), true).Some?
  {
    if es == [] then (0, [])
    else
      var (ok, asked) := EntryAsked(h, sw, dir, es[0]);
      if ok then (0, asked)
      else
        var (k, more) := ListingAsked(h, sw, dir, es[1..]);
        (k + 1, asked + more)
  }

  lemma ListingTurn(h: Home, sw: Switches, dir: string, es: seq<DirEntry>, k: nat)
    requires forall e <- es :: ScanPath(h, dir, Some(e.name), true).Some?
    requires k < |es|
    ensures var (ok, asked) := EntryAsked(h, sw, dir, es[k]);
            var (n, more) := ListingAsked(h, sw, dir, es[k + 1..]);
            ListingAsked(h, sw, dir, es[k..]) == if ok then (0, asked) else (n + 1, asked + more)
  {
    hide ScanPath, EntryAsked;
    assert es[k..][0] == es[k] && es[k..][1..] == es[k + 1..];
  }

  /** A listing asks about its entries at their real paths, and about nothing else. */
  lemma {:induction false} ListingAsksOfEntries(h: Home, sw: Switches, dir: string, es: seq<DirEntry>)
    requires forall e <- es :: ScanPath(h, dir, Some(e.name), true).Some?
    ensures forall p <- ListingAsked(h, sw, dir, es).1 :: exists e <- es :: p == ScanPath(h, dir, Some(e.name), true).value.realPath
  {
    hide ScanPath, BaseName;
    if es != [] {
      ListingAsksOfEntries(h, sw, dir, es[1..]);
      assert es[0] in es;
      assert forall e <- es[1..] :: e in es;
    }
  }

  /** The listing stops at the first entry that is permitted and found. */
  lemma {:induction false} ListingFindsFirst(h: Home, sw: Switches, dir: string, es: seq<DirEntry>)
    requires forall e <- es :: ScanPath(h, dir, Some(e.name), true).Some?
    ensures var k := ListingAsked(h, sw, dir, es).0;
            && k <= |es|
            && (forall i :: 0 <= i < k ==> !Accepted(h, sw, dir, es[i]))
            && (k < |es| ==> Accepted(h, sw, dir, es[k]))
  {
    hide ScanPath, BaseName, Check;
    if es != [] {
      var k := ListingAsked(h, sw, dir, es).0;
      assert forall e <- es[1..] :: e in es;
      assert es[0] in es;
      ListingFindsFirst(h, sw, dir, es[1..]);
      forall i | 0 <= i < k ensures !Accepted(h, sw, dir, es[i]) {
        assert i > 0 ==> es[i] == es[1..][i - 1];
      }
    }
  }

  predicate Accepted(h: Home, sw: Switches, dir: string, e: DirEntry)
    requires ScanPath(h, dir, Some(e.name), true).Some?
  {
    var r := ScanPath(h, dir, Some(e.name), true).value;
    e.found && Check(h.realPath, sw, r.realPath, BaseName(r.exposedPath), e.answer).0.Permitted?
  }

  lemma NothingListed(h: Home, sw: Switches, dir: string)
    ensures ListingAsked(h, sw, dir, []) == (0, [])
  {
  }

  /** Whether both paths are permitted, and what the system is asked about for that. */
  function BothAsked(h: Home, sw: Switches, oldReal: string, oldName: string, newReal: string, newName: string,
                     a: Answer, b: Answer): (bool, seq<string>)
  {
    var (v, asked) := Check(h.realPath, sw, oldReal, oldName, a);
    var (w, more) := Check(h.realPath, sw, newReal, newName, b);
    (v.Permitted? && w.Permitted?, asked + if v.Permitted? then more else [])
  }

  /** Made to stay at home, the system is asked about nothing that does not start with the home's text. */
  lemma AskedStartsAtHome(h: Home, sw: Switches, file: string, a: Answer)
    requires sw.stayAtHome && ScanPath(h, file, None, false).Some?
    ensures forall p <- Asked(h, sw, file, a).1 :: h.realPath <= p
    ensures forall p <- Asked(h, sw, file, a).1 :: Comps(h.realPath) <= Comps(p) <==> Seam(h.realPath, p[|h.realPath|..])
  {
    hide ScanPath, Comps, Seam;
    forall p <- Asked(h, sw, file, a).1 ensures h.realPath <= p && (Comps(h.realPath) <= Comps(p) <==> Seam(h.realPath, p[|h.realPath|..])) {
      PrefixIsBelowIff(h.realPath, p);
    }
  }

  datatype LinkStatus = Done | Refused | OsError

  /** What FSReadLink leaves in a buffer of the given size. */
  function LinkText(h: Home, text: string, size: nat): string
    requires size > 0
  {
    var cut := if |text| <= size - 1 then text else text[..size - 1];
    if h.exposedPath.Some? then StripHome(|h.realPath|, cut) else cut
  }

  /**
    FSReadLink after FSSymlink: a link text that fits the buffer reads back as the collapsed exposed
    path of the target exactly when the home has no double slash and no final one.
   */
  lemma LinkTextReadsBack(h: Home, target: string, size: nat)
    requires h.exposedPath.Some? && IsAbsolute(h.exposedPath.value)
    requires NoWhole(h.realPath) && Unmissed(StartPath(h, target), false)
    requires ScanPath(h, target, None, false).Some? && |ScanPath(h, target, None, false).value.realPath| < size
    ensures var r := ScanPath(h, target, None, false).value;
            LinkText(h, r.realPath, size) == Collapse(r.exposedPath, START)
            <==> Collapsed(h.realPath) && !EndsSlash(h.realPath)
  {
    hide ScanPath, Collapse;
    LinkReadsBack(h, target);
  }

  method AsText(a: array<char>) returns (t: string)
    requires Terminated(a[..])
    ensures t == Text(a[..])
  {
    assert a[0..] == a[..];
    var n := StrLen(a, 0);
    t := a[..n];
  }

  method FromText(t: string) returns (a: array<char>)
    requires NUL !in t
    ensures fresh(a) && Terminated(a[..]) && Text(a[..]) == t
  {
    a := new char[|t| + 1];
    var len := CopyInto(t, a);
    assert t[..|t|] == t;
  }

  /** readlink into a buffer, and the terminator behind it. */
  method CopyInto(text: string, buf: array<char>) returns (len: nat)
    requires buf.Length > 0 && NUL !in text
    modifies buf
    ensures len == if |text| <= buf.Length - 1 then |text| else buf.Length - 1
    ensures Holds(buf, len) && buf[..len] == text[..len]
    ensures Terminated(buf[..]) && Text(buf[..]) == text[..len]
  {
    len := if |text| <= buf.Length - 1 then |text| else buf.Length - 1;
    for i := 0 to len
      invariant forall k :: 0 <= k < i ==> buf[k] == text[k]
    {
      buf[i] := text[i];
    }
    buf[len] := NUL;
    assert buf[..len] == text[..len];
    HoldsText(buf, len);
  }

  /** memmove of the string's tail to the front. */
  method ShiftDown(buf: array<char>, skip: nat, len: nat)
    requires Holds(buf, len)
    modifies buf
    ensures Terminated(buf[..]) && Text(buf[..]) == StripHome(skip, old(buf[..len]))
  {
    ghost var was := buf[..len];
    var n := if skip < len then len - skip else 0;
    for i := 0 to n
      invariant forall k :: 0 <= k < i ==> buf[k] == was[skip + k]
      invariant forall k :: i <= k < len ==> buf[k] == was[k]
    {
      buf[i] := buf[skip + i];
    }
    buf[n] := NUL;
    assert buf[..n] == StripHome(skip, was);
    HoldsText(buf, n);
  }
}
