/** What the handlers hand to FileSystem.c, and so to the system. */
module Accesses {
  import opened Wrappers
  import opened Bytes
  import opened PathText
  import opened PathResolve

  /** The C string of some bytes. */
  function CPath(t: bytes): string {
    if t == [] || t[0] == 0 then "" else [t[0] as char] + CPath(t[1..])
  }

  /**
    A path to be resolved; a directory's path with the name of an entry, to be resolved together;
    or a path that is handed to the system as the client sees it.
   */
  datatype Access = PathAccess(path: text) | EntryAccess(dir: text, name: text) | ShownAccess(path: text)

  function OfPath(p: Option<text>): seq<Access> {
    if p.Some? then [PathAccess(p.value)] else []
  }

  /** FSReadDir, for the entries that the system lists. */
  function OfEntries(dir: Option<text>, names: seq<text>): seq<Access> {
    if dir.None? then [] else seq(|names|, i requires 0 <= i < |names| => EntryAccess(dir.value, names[i]))
  }

  /** FSRealPath: it asks the system about the exposed path, unless that ends in a slash. */
  function OfShown(h: Home, p: Option<text>): seq<Access> {
    if p.None? then []
    else
      var r := ScanPath(h, CPath(p.value), None, false);
      if r.Some? && (r.value.exposedPath == "" || EndsSlash(r.value.exposedPath)) then [] else [ShownAccess(p.value)]
  }
}
