# MySecureShell: a verified model

MySecureShell is an SFTP server that confines its users. This project models five of its parts in Dafny
and proves what they promise. A class stands for what the C code updates in place, and its methods are
proved against functions on values; lemmas then say what those functions mean.

1. **Paths.** `FileSystem.dfy` holds the index loops of `FSResolvRelativePath`, the copying loop of
   `FSBuildPath`, `FSResolvePath`, and the functions that hand its result to the system. `PathScan.dfy` is
   the loop on texts with its own scan pointer, `PathText.dfy` the stack fold over components that it is
   meant to compute, and `PathResolve.dfy` what both mean for the exposed and the real path. `Security.dfy`
   is `FSCheckSecurity`. The main result is containment: under a virtual root the real path of a request
   that misses no `..` is the home followed by the resolved request. `Accesses.dfy` says what the handlers
   hand to FileSystem.c, and `Reach.dfy` which of it lies below the home, over whole sessions.
2. **Wire and session.** `Buffers.dfy` (Buffer.c), `Replies.dfy` (Send.c), `Framing.dfy`, `Protocol.dfy`,
   `Requests.dfy`, `WireFormat.dfy` (the drafts' layouts, and what a client reads in a reply), `Session.dfy` (the
   handlers and the dispatcher), `Operations.dfy` (each request told by its own fields), `SessionRuns.dfy` and
   `Policies.dfy` (what holds in every run) and `MainLoop.dfy` (`SftpMain`). The session is a state machine, one request in and one reply out;
   the handlers refine it on the real buffers and tables; the main loop refines its runs for every way in
   which the bytes can arrive and leave. The system's answers are a parameter (`Env`), one for each message.
3. **Attributes.** `Attributes.dfy` (Encode.c) and `UserTable.dfy` (the name caches of GetUsersInfos.c).
4. **Bookkeeping.** `Handles.dfy`, `WhoTable.dfy`, `StatsRing.dfy`, and the quotas in `MainLoop.dfy`.
5. **Configuration.** `HashTable.dfy`, and `Tokenizer.dfy` with `CutString.dfy`.

`Bytes.dfy`, `CStrings.dfy`, `TextMode.dfy` and `Wrappers.dfy` are shared. Packets follow section 3 of
draft-ietf-secsh-filexfer-02, integers and strings section 5 of RFC 4251. `dafny verify dfyconfig.toml`
checks everything.

Where an intended property is not true of the code, the code is modelled as it is, and lemmas say exactly
when it holds, some also for which input it does not:

- The pointer of the `..` loop is not moved back after a deletion. If the popped name merely contains two
  dots, a `..` may move before the pointer and be missed: of `/a../../../x` the loop leaves `//../x`
  (`PathScan.OneIsMissed`). A missed `..` may also be popped by a later one in place of a name, so that no
  `..` is left and the names are wrong: `/p/q/a../../../../xyz` becomes `/p/q/xyz`
  (`OneIsMissedAndPopped`). Two conditions on a path say when this does not happen. `ScanSafe`: no popped
  name contains two dots; all deletions then start at or behind the pointer, and only then
  (`RunStaysBehind`). It holds in particular when every `..` is a whole component (`WholeDotsResolve`).
  `Unmissed`, which is weaker: no whole `..` ever comes to lie before the pointer; names with dots may be
  popped. Then the names left are the stack fold (`NoneMissedScan`, `ScanIsFold`), and all the properties
  below hold. For any other path they are the fold in which the missed `..` are pushed like names; a `..` is
  missed if and only if the path is not `Unmissed` (`ScanIsMarkedFold`).
- What a miss does to a request: the two paths differ without a virtual root, and containment may fail under
  one: with the home `/h` the real path of `/a../../../x` is `//x` (`PathResolve.MissedIsNotContained`).
  When the second pass misses nothing, the real path is the home less one name for each `..` of the first
  pass's result that finds nothing to pop (`RealAboveHome`, `ContainedIff`), and the two paths agree without
  a root if and only if that result has no `..` (`SamePathIff`).
- If the pointer gets behind the end of the shortened string, as for `/a../../x` (`PointerOutside`), the code
  reads on in the old bytes there; this case alone is not modelled.
- Not everything that a session asks the system about lies below the home, even if no `..` is missed.
  Directory entries are resolved with a final `..` permitted, so READDIR looks the entry `..` of the exposed
  root up as `..` of the home (`EntryLookedUpAt`, `EntryUnderHomeIff`, `Reach.RootsParentIsReached`).
  REALPATH asks about the exposed path and not the real one: with the home `/h`, about `/etc` for the
  request `/etc` (`Reach.ShownIsNotBelow`). These are the only two: over every run all lies below the home
  if and only if no READDIR of the root meets `..`, and each REALPATH is shown a path that ends in a slash
  or asks for one that starts with the home's own names (`Reach.RunReachesUnderHome`). A home without
  names, as `/`, contains everything.
- The switch that makes users stay at home compares texts with `strncmp`: a path passes if and only if it
  has the home's names, of which the last may go on (`Security.PassesIff`), so `/home/bobby` passes for the
  home `/home/bob` (`NeighbourPasses`); what passes lies below the home if and only if the home's text ends
  at the end of a name (`PrefixIsBelowIff`). Under a virtual root the switch refuses nothing if and only if
  the home has no doubled slash (`RootPassesIff`). The switch that hides what the user has no right to runs
  `stat` on a path before it permits it (`FSCheckSecurity`).
- An absolute request is not collapsed. The base name of a path that ends in two slashes is empty, and the
  base name is the last name if and only if it does not end so (`BaseNameIsLastIff`, `EmptyBaseName`).
- Cutting `strlen(home)` characters off a link's text undoes the home prefix if and only if the home has no
  double slash and no final one (`LinkReadsBack`).
- The text-mode loop makes one pass: a CR LF is left over if and only if the data had CR CR LF.
- The encoder writes BITS, which the decoder does not read, and the decoder reads EXTENDED below version 5,
  where the encoder does not write it: from version 4 on, or without owner names, the decoder stops where
  the encoder did exactly for the flags of `SameEnd`. Below version 4 the encoder writes owner names, which
  the decoder does not read (`NamesAreLeftOver`).
- The name caches are invisible if and only if the database's two directions agree.
- A global limit below the number of active sessions gives a share of 0, which means no limit: the limit is
  kept if and only if it is not below that number or the sessions' own limits keep it anyway
  (`GlobalLimitIff`, `TinyLimitIsNoLimit`).
- A failed seek before a WRITE goes unnoticed, the position being unsigned and so never found negative
  (`WriteIgnoresSeek`); one before a READ is answered with its status exactly when the file is not read as
  text (`ReadHeedsSeek`).
- A file opened for reading and writing counts as an upload where writing is disabled, but the session is shown
  as downloading: that depends on whether READ was left out (`Operations.OpenIsGranted`, `StatusTellsTheOpen`).
- Escaped words come back from the tokenizer exactly when none is empty, is a lone `=`, or ends in a control
  character or a space.

## Model

| member | source | states |
|---|---|---|
| PathText.CompsAppend | SftpServer/FileSystem.c:163-199 | The names of two texts put together at a slash are the names of the first, then those of the second |
| PathText.ParentComps | SftpServer/FileSystem.c:137-145 | The backward search for the parent's start cuts off exactly the last name, however many slashes are in between; at the root nothing |
| PathText.CutFold | SftpServer/FileSystem.c:137-151 | Taking out the first whole `..` with the name before it does not change the stack fold; a text is safe if and only if the popped name is not dotted and the rest is safe |
| PathText.RemovalIsFold | SftpServer/FileSystem.c:118-156 | Taking out the first whole `..` until none is left is the stack fold (push a name, pop on `..`, no-op at the root), a permitted final `..` apart |
| PathScan.ScanTwice | SftpServer/FileSystem.c:118-161 | After a call that misses no `..` a second call changes nothing, for both values of permitDotDirectory |
| PathScan.ScanKeepsAbsolute | SftpServer/FileSystem.c:118-161 | Every call keeps an absolute path absolute and makes no path longer, safe or not |
| PathText.RemovalEndsSlash | SftpServer/FileSystem.c:125-155 | The removals leave a final slash exactly when there was one or nothing but the root is left |
| PathScan.ScanIsFold | SftpServer/FileSystem.c:118-161 | For every absolute path of which no `..` is missed, dotted names popped or not, the call's result is absolute, no longer, free of `..`, and its names are the stack fold with one final `.` dropped |
| PathScan.PointerStaysBehind | SftpServer/FileSystem.c:125-155 | The next deletion starts at or behind the scan pointer if and only if the popped name does not contain two dots |
| PathScan.RunStaysBehind | SftpServer/FileSystem.c:125-155 | In the whole run every deletion starts at or behind the pointer if and only if the path is safe |
| PathScan.NoneMissedScan | SftpServer/FileSystem.c:125-155 | A run of the loop in which no whole `..` comes to lie before the pointer leaves what removals from the start leave, though its pointer only moves forward |
| PathScan.SafeIsUnmissed | SftpServer/FileSystem.c:125-155 | If no popped name contains two dots, no `..` is missed |
| PathScan.ScanIsMarkedFold | SftpServer/FileSystem.c:125-155 | For every path for which the pointer stays within the string: the names left are the fold in which some `..` are pushed like names; some are, if and only if one came to lie before the pointer |
| PathScan.SecondCallIdle | SftpServer/FileSystem.c:98-99 | After any first call, a second one that misses nothing changes nothing if and only if no whole `..` was left |
| PathScan.OneIsMissed | SftpServer/FileSystem.c:125-155 | A path of which a `..` is missed, and what a second call makes of the rest |
| PathScan.OneIsMissedAndPopped | SftpServer/FileSystem.c:125-155 | A path of which a `..` is missed and popped in place of a name: none is left, and the names are not the fold |
| PathScan.PointerOutside | SftpServer/FileSystem.c:125-155 | A path for which the pointer gets behind the shortened end |
| PathResolve.CollapseComps | SftpServer/FileSystem.c:163-199 | Collapsing slashes keeps the names |
| PathResolve.BuildComps | SftpServer/FileSystem.c:163-199 | The names of a joined path are those of both parts |
| PathResolve.RequestIsSafe | SftpServer/FileSystem.c:55-99 | With a normalised home, if no `..` of the starting path is missed, none is in any of the three resolver calls made for the request |
| PathResolve.ScanPathResolves | SftpServer/FileSystem.c:55-116 | Then the code's calls together compute the fold-based resolution |
| PathResolve.SamePathWithoutRoot | SftpServer/FileSystem.c:55-99 | Without a virtual root real and exposed path are equal strings, though one is resolved once and the other twice, for requests that miss nothing and for all with a second part |
| PathResolve.SamePathIff | SftpServer/FileSystem.c:55-99 | For any request of one part whose second pass misses nothing, they are equal if and only if the first pass left no `..` |
| PathResolve.RelativeIsFold | SftpServer/FileSystem.c:60-99 | A relative request of which nothing is missed starts at the home, the real one without a virtual root and the exposed one with it: the names of its exposed path are the fold of the home's and its own, and the real path is that, or the same behind the real home |
| PathResolve.AbsoluteIsFold | SftpServer/FileSystem.c:60-99 | An absolute one is the fold of its own names alone |
| PathResolve.RealIsHomeJoined | SftpServer/FileSystem.c:70-99 | Under a virtual root the second pass of a request that misses nothing changes nothing: the real path is the home joined with the exposed path |
| PathResolve.RealStaysUnderHome | SftpServer/FileSystem.c:55-116 | Containment: under a virtual root, for every request of which no `..` is missed, the names of the real path are the home's followed by the stack fold of the request's own names, a relative one's behind the exposed home's, with no `..` among them |
| PathResolve.RealAboveHome | SftpServer/FileSystem.c:55-116 | For every request, whatever its first pass missed, whose second pass misses nothing: the names of the real path are the home's, less one for each `..` the first pass left that finds nothing to pop, then those of the exposed path |
| PathResolve.ContainedIff | SftpServer/FileSystem.c:55-116 | So containment holds if and only if no `..` that the first pass left climbs above its start |
| PathResolve.MissedIsNotContained | SftpServer/FileSystem.c:55-116 | The request for which it does not hold |
| PathResolve.EntryPath | SftpServer/FileSystem.c:377-391 | Where an entry is looked up, `..` included: behind the fold of the directory's path, under a virtual root with the home before it for the real path |
| PathResolve.EntryUnderHomeIff | SftpServer/FileSystem.c:377-391 | This lies below the home at the exposed path if and only if the directory's path does not come to the `..` of the root |
| PathResolve.EntryLookedUpAt | SftpServer/FileSystem.c:354-391 | For a directory opened with a path of which no `..` is missed: at the home, the directory's path, and the entry's name, whatever name that is |
| PathResolve.EntryBehind | SftpServer/FileSystem.c:377-391 | With or without a virtual root, for any directory path without `..`: behind the directory's names, a relative one's behind the home's |
| PathResolve.BaseNameIsLastIff | SftpServer/FileSystem.c:101-112 | The base name of an absolute path is its last name, or `/` for the root, if and only if it does not end in two slashes |
| PathResolve.EmptyBaseName | SftpServer/FileSystem.c:101-112 | A request whose exposed path ends in two slashes, and has an empty base name |
| PathResolve.StripUndoesJoin | SftpServer/FileSystem.c:590-600 | Cutting the home's length off a joined path gives the collapsed exposed path if and only if the home is collapsed and has no final slash |
| PathResolve.LinkReadsBack | SftpServer/FileSystem.c:529-604 | The same for the real path of every link target of which no `..` is missed |
| PathResolve.WholeDotsResolve | SftpServer/FileSystem.c:118-161 | If every `..` is a whole component, the scan is safe and the result holds no two dots in a row |
| CStrings.StrLen | Core/string.c:90-90 | The distance to the first NUL |
| CStrings.MyStrCopy | Core/string.c:107-111 | Exactly the named bytes move down by one place, in place |
| FileSystem.FindParent | SftpServer/FileSystem.c:137-145 | The two index loops find the parent's start |
| FileSystem.DeleteRange | SftpServer/FileSystem.c:147-151 | The shifting loop takes out exactly the range and keeps the rest in order |
| FileSystem.RemoveAt | SftpServer/FileSystem.c:137-151 | One deletion in the array is one removal on the text |
| FileSystem.FSResolvRelativePath | SftpServer/FileSystem.c:118-161 | The in-place loops end and leave the text of the scan, dotted names or not, as long as the pointer stays within the string |
| FileSystem.FSBuildPath | SftpServer/FileSystem.c:163-199 | A fresh string: both parts, a slash between them, no double slash |
| FileSystem.BaseNameOf | SftpServer/FileSystem.c:101-112 | The third string of the result is the base name of the exposed path |
| FileSystem.FileSystem.FSResolvePath | SftpServer/FileSystem.c:55-116 | The three strings of the result are those of the calls it makes, with or without a root and a second part; the arguments are not touched |
| Security.PermittedIff | SftpServer/FileSystem.c:230-270 | Exactly which paths are permitted under which switches, and which the system is asked about for that |
| Security.PassesIff | SftpServer/FileSystem.c:232-235 | For collapsed paths and a home without a final slash: `strncmp` lets a path through if and only if it has the home's names, of which the last may go on |
| Security.PrefixIsBelowIff | SftpServer/FileSystem.c:232-235 | A path that is let through lies below the home if and only if the home's text ends at the end of one of its names |
| Security.NeighbourPasses | SftpServer/FileSystem.c:232-235 | The home `/home/bob` and the request `/home/bobby`, which passes and lies outside |
| Security.DoubledSlashIsRefused | SftpServer/FileSystem.c:232-235 | A request with a doubled slash that names the home itself, and does not pass |
| Security.RootPassesIff | SftpServer/FileSystem.c:55-99 | Under a virtual root every request that misses nothing passes, if and only if the home has no doubled slash |
| FileSystem.FileSystem.FSCheckSecurity | SftpServer/FileSystem.c:230-270 | The verdict by the three switches; only the last asks the system, and about nothing that does not stay at home |
| FileSystem.AskedStartsAtHome | SftpServer/FileSystem.c:230-270 | With users made to stay at home, every path that a call asks the system about starts with the home's text, and lies below it if and only if that text ends at the end of a name |
| FileSystem.FileSystem.FSCall | SftpServer/FileSystem.c:329-353 | The path handed to open, stat, unlink, mkdir or rmdir is the resolved real path, if FSCheckSecurity permits it; else none but the one it asks about itself |
| FileSystem.FileSystem.FSRealPath | SftpServer/FileSystem.c:308-327 | The system is asked about the exposed path unless it ends in a slash, and a slash is added unless it is a file |
| FileSystem.FileSystem.FSReadDir | SftpServer/FileSystem.c:377-416 | The loop ends at the first entry that is permitted and found; it has asked about the entries up to it, each at its real path |
| FileSystem.ListingAsksOfEntries | SftpServer/FileSystem.c:377-416 | A listing asks about nothing but its entries, resolved with a final `..` permitted |
| FileSystem.ListingFindsFirst | SftpServer/FileSystem.c:377-416 | The entry that ends it is the first that is permitted and found |
| FileSystem.FileSystem.FSOpenDir | SftpServer/FileSystem.c:354-376 | The same for opendir; under a virtual root the caller's string is resolved in place before |
| FileSystem.FileSystem.FSRename | SftpServer/FileSystem.c:502-527 | The same for both paths of a rename, and for the unlink before it; the second is not checked when the first is refused |
| FileSystem.FileSystem.FSSymlink | SftpServer/FileSystem.c:529-567 | The link is recorded under the real path of its name and holds the real path of its target, each permitted on its own; a refusal, a taken name or a failing system changes nothing |
| FileSystem.FileSystem.FSReadLink | SftpServer/FileSystem.c:569-604 | The caller's buffer holds the link's text cut to its size, less the home's length under a virtual root |
| FileSystem.LinkTextReadsBack | SftpServer/FileSystem.c:529-604 | For a target of which no `..` is missed, a link text that fits, read back, is the collapsed exposed path of the target if and only if the home is collapsed and has no final slash |
| Bytes.Dec32OfEnc | SftpServer/Buffer.c:94-102 | Four big-endian bytes give back their integer whatever follows |
| Bytes.EncOfDec32 | SftpServer/Buffer.c:209-225 | And the integer its bytes |
| Bytes.Dec64OfEnc | SftpServer/Buffer.c:104-120 | The same for eight bytes |
| Buffers.StringRoundTrip | SftpServer/Buffer.c:130-143 | A string put is the string got, exactly its bytes being consumed |
| Buffers.HandleRoundTrip | SftpServer/Buffer.c:145-155 | A handle put is the handle got |
| Buffers.Buffer.constructor | SftpServer/Buffer.c:25-39 | An empty buffer with 256 bytes of room |
| Buffers.Buffer.BufferGrow | SftpServer/Buffer.c:41-45 | A larger array with the same contents |
| Buffers.Buffer.BufferEnsureFreeCapacity | SftpServer/Buffer.h:59-59 | Room for n bytes, contents unchanged |
| Buffers.Buffer.BufferClean | SftpServer/Buffer.c:47-71 | Moving down, and shrinking to a quarter, leave the unread bytes as they were |
| Buffers.Buffer.BufferPutInt8FAST | SftpServer/Buffer.h:64-64 | One byte more, in place |
| Buffers.Buffer.BufferPutInt8 | SftpServer/Buffer.c:79-84 | Appends the byte |
| Buffers.Buffer.BufferPutInt16 | SftpServer/Buffer.c:86-92 | Appends two big-endian bytes |
| Buffers.Buffer.BufferPutInt32 | SftpServer/Buffer.c:94-102 | Appends four big-endian bytes, in place if there is room |
| Buffers.Buffer.BufferPutInt64 | SftpServer/Buffer.c:104-120 | Appends eight big-endian bytes |
| Buffers.Buffer.BufferPutRawData | SftpServer/Buffer.c:122-128 | Appends the bytes |
| Buffers.Buffer.BufferPutString | SftpServer/Buffer.c:130-143 | Appends length and bytes |
| Buffers.Buffer.BufferPutData | SftpServer/Buffer.h:61-62 | Appends length and bytes |
| Buffers.Buffer.BufferPutHandle | SftpServer/Buffer.c:145-155 | Appends the two-byte string of a handle |
| Buffers.Buffer.BufferReadData | SftpServer/Buffer.c:184-192 | Skips n unread bytes, or none if there are fewer |
| Buffers.Buffer.BufferGetInt8 | SftpServer/Buffer.c:194-207 | Takes the first unread byte |
| Buffers.Buffer.BufferGetInt32 | SftpServer/Buffer.c:209-225 | Takes four bytes as an integer, or 0 and nothing |
| Buffers.Buffer.BufferGetInt64 | SftpServer/Buffer.c:227-247 | Takes eight |
| Buffers.Buffer.BufferGetData | SftpServer/Buffer.c:249-264 | Takes a string and tells where it lies |
| Buffers.Buffer.BufferGetString | SftpServer/Buffer.c:266-287 | Takes a string, or only its length when its bytes are not all there |
| Buffers.Buffer.BufferGetHandle | SftpServer/Buffer.c:289-301 | Takes a handle; -1 if its length is not 2 |
| TextMode.KeepsAllButCr | SftpServer/Sftp.c:449-457 | Everything but carriage returns survives, in order |
| TextMode.CompleteUnlessCrCrLf | SftpServer/Sftp.c:449-457 | A CR LF is left over if and only if the data had CR CR LF |
| TextMode.SecondPassIdle | SftpServer/Sftp.c:504-512 | The pass changes nothing if and only if there is no CR LF |
| TextMode.StripCr | SftpServer/Sftp.c:449-457 | The in-place loop stays in bounds and computes the one-pass replacement; bytes outside are not touched |
| UserTable.FaithfulAnswers | SftpServer/GetUsersInfos.c:70-128 | A faithful cache answers as the database does |
| UserTable.StaysFaithful | SftpServer/GetUsersInfos.c:70-128 | Faithful after any sequence of lookups, if the database is one-to-one |
| UserTable.CacheInvisibleIff | SftpServer/GetUsersInfos.c:70-128 | After every sequence of lookups every answer is the database's, if and only if its two directions agree |
| UserTable.InfoTable.AddElement | SftpServer/GetUsersInfos.c:37-48 | One entry more, the array growing by 42 places whenever it is full |
| UserTable.InfoTable.GetById | SftpServer/GetUsersInfos.c:86-98 | The cached entry, or the database's, which is then cached; also the group twin |
| UserTable.InfoTable.GetByName | SftpServer/GetUsersInfos.c:70-84 | The same by name |
| Attributes.AttributesRoundTrip | SftpServer/Encode.c:74-146 | Decoding what was encoded gives the same flags and exactly the flagged fields, the others zero, for every version and flag set without names below version 4 |
| Attributes.ConsumesExactlyIff | SftpServer/Encode.c:302-379 | From version 4 on or without owner names: the decoder stops where the encoder did, whatever follows, if and only if BITS is not set and EXTENDED not below version 5, or both are and the bits are zero |
| Attributes.NamesAreLeftOver | SftpServer/Encode.c:302-379 | Below version 4 owner names are written and not read: all their bytes are left over, when no ACL and no extended list follows that could take them up |
| Attributes.NamesRoundTrip | SftpServer/Encode.c:74-146 | The ids come back through the names that were sent, given one-to-one databases that cover them |
| Attributes.DecimalIsRead | SftpServer/Encode.c:318-345 | The digits sent for an id without a name are those of the id |
| Attributes.EncodeAttributes | SftpServer/Encode.c:302-379 | The bytes appended are those of the layout, with the names the caches give |
| Attributes.GetAttributes | SftpServer/Encode.c:74-146 | The record read, and the bytes left, are those of the decoder on the unread bytes |
| Handles.CloseLowersCount | SftpServer/SftpServer.c:258-281 | Each turn of the shutdown loop leaves one open file less |
| Handles.UpdateReflects | SftpServer/SftpServer.c:234-256 | The low byte of the status, the file name and the percentage become those of the highest open file (idle if none); the option bits stay |
| Handles.SameFilesSameStatus | SftpServer/SftpServer.c:234-256 | The status depends on the slots of open files only |
| Handles.HandleTable.constructor | SftpServer/Handle.c:32-43 | All slots unused, each knowing its number |
| Handles.HandleTable.HandleNew | SftpServer/Handle.c:59-76 | The first unused slot is taken, no other is touched; none if all are in use |
| Handles.HandleTable.HandleGetLastOpen | SftpServer/Handle.c:99-109 | The highest slot in that state |
| Handles.HandleTable.HandleClose | SftpServer/Handle.c:111-126 | Only the named slot becomes unused; numbers outside the table do nothing |
| Handles.HandleTable.UpdateInfoForOpenFiles | SftpServer/SftpServer.c:234-256 | The session's slot after it is the function of the table |
| Handles.HandleTable.CloseInfoForOpenFiles | SftpServer/SftpServer.c:258-281 | The loop ends with no file open and directories untouched |
| Replies.ClientSeesPackets | SftpServer/Send.c:64-139 | Whatever part of the output a client has, it sees a prefix of the packets, each whole, and all of them at the end |
| Replies.SendStatus | SftpServer/Send.c:92-139 | Appends one framed STATUS packet with id and code, and from version 3 a message |
| Replies.SendHandle | SftpServer/Send.c:64-76 | Appends one framed HANDLE packet |
| Replies.SendData | SftpServer/Send.c:78-90 | Appends one framed DATA packet |
| Replies.SendStats | SftpServer/Send.c:41-62 | Appends one framed NAME packet with all entries |
| Replies.SendAttributes | SftpServer/Send.c:26-39 | Appends one framed ATTRS packet |
| Replies.SendVersion | SftpServer/Sftp.c:120-176 | Appends one framed VERSION packet with the extensions of its version |
| Replies.ReserveData | SftpServer/Sftp.c:440-447 | Places for a header whose sizes are not known, everything before it kept |
| Replies.PatchSizes | SftpServer/Sftp.c:467-473 | Writing the two sizes afterwards changes these eight bytes and no others |
| Replies.ReadReply | SftpServer/Sftp.c:440-482 | Placeholder and back-patch give exactly the bytes SendData would append for the final data; at end of file or error the packet is rolled back before the status |
| WireFormat.AttributesAreLaidOut | SftpServer/Encode.c:302-379 | The encoder writes the table of fields of the drafts, in its order, numbers big-endian and each field by its own flag |
| WireFormat.AttrsAreSeen | SftpServer/Encode.c:74-146 | Whoever reads them gets every flagged field back in its place, and the names as text |
| WireFormat.EntriesAreSeen | SftpServer/Send.c:41-62 | From a listing a client reads every name, long name and set of attributes, in order |
| WireFormat.ReplyIsRead | SftpServer/Send.c:26-139 | From the bytes of any reply a client reads its type, id and contents, the status code and its words among them |
| WireFormat.MessagesOfCodes | SftpServer/Send.c:92-139 | The words for the codes the server sends most, and for unknown ones |
| WireFormat.HandleComesBack | SftpServer/Buffer.c:145-155 | The handle that a client reads in a reply and sends back is the slot it was given |
| Framing.ParseAppend | SftpServer/Sftp.c:863-886 | Parsing goes on where it stopped, for every way of cutting the stream |
| Framing.ParseLosesNothing | SftpServer/Sftp.c:863-886 | The messages and the rest are the stream: no byte is lost, repeated or moved |
| Framing.UnparseParses | SftpServer/Sftp.c:863-886 | Every list of messages that fit is what its bytes parse to |
| Requests.RequestRoundTrip | SftpServer/Sftp.c:179-861 | What a handler reads from a request as the draft lays it out, with any times, ACL and extended pairs, is that request, whatever bytes follow |
| Requests.SaidIsWellFormed | SftpServer/Sftp.c:888-965 | Such a request is a message whose handler reads no further than its end |
| Requests.SpokenIsHeard | SftpServer/Sftp.c:863-1044 | From the bytes of any conversation the session reads the requests that were written, in order, across the change of phase and version at INIT |
| SessionRuns.StepKeeps | SftpServer/Sftp.c:308-528 | Every message keeps the status in line with the handle table, keeps the option bits, and touches no slot but the one it names; only CLOSE frees one |
| SessionRuns.IssuedHandleIsFresh | SftpServer/Sftp.c:205-235 | A handle that is issued was unused, is the lowest such, and is in use from then on |
| SessionRuns.ReplyCarriesId | SftpServer/Sftp.c:888-965 | A reply carries its request's id; INIT, and nothing else, is answered by VERSION |
| SessionRuns.WriteIgnoresSeek | SftpServer/Sftp.c:487-500 | The comparison of the unsigned position with 0 never succeeds: the outcome of the seek before a WRITE makes no difference to anything |
| SessionRuns.ReadHeedsSeek | SftpServer/Sftp.c:432-433 | A failed seek ends a READ with its status, and changes nothing, exactly when the file is not read as text |
| SessionRuns.OneReplyEach | SftpServer/Sftp.c:863-1044 | In every run: as many replies as requests, in their order, each with its request's id or the negotiated version |
| SessionRuns.StatusFollowsTable | SftpServer/Sftp.c:308-414 | In every run the status is the one the handle table determines |
| SessionRuns.SilentUntilInit | SftpServer/Sftp.c:888-899 | As long as no INIT has come, the session stays as it was and refuses everything |
| SessionRuns.HandleLivesUntilClosed | SftpServer/Handle.c:59-126 | In every run a handle stays open on the same file until its CLOSE, and its number is not issued again meanwhile |
| SessionRuns.RunSplit | SftpServer/Sftp.c:863-1044 | A run can be cut anywhere: the rest is a run from where the first part ended |
| Operations.OpenIsRefused | SftpServer/Sftp.c:373-381 | With writing disabled an OPEN that asks for WRITE is denied and hands nothing over, as with overwriting disabled one that appends; no other is denied on that ground |
| Operations.OpenIsGranted | SftpServer/Sftp.c:380-407 | A handle is given exactly if the request is not forbidden, the system opens the file and a slot is free; the file is then open for writing exactly if WRITE was asked for, for writing alone exactly if READ was not, and as text exactly if that was |
| Operations.InitNegotiates | SftpServer/Sftp.c:116-120 | INIT settles on the older of both versions, and on none below 3 |
| Operations.CloseFrees | SftpServer/Sftp.c:308-350 | CLOSE frees the slot it names and no other, and ends the fast cleaning with a download |
| Operations.ReadDelivers | SftpServer/Sftp.c:430-478 | READ hands on what read() gave, as text without the carriage returns before line feeds, and moves the file's position by as much; an empty read is the end |
| Operations.ReadIsRefused | SftpServer/Sftp.c:425-483 | With reading disabled it fails; a handle of no file is refused by the code of the version |
| Operations.WriteReports | SftpServer/Sftp.c:497-527 | WRITE succeeds exactly if all that was passed on was written |
| Operations.OpenDirIsGranted | SftpServer/Sftp.c:212-233 | OPENDIR is given a handle exactly if the directory opens and a slot is free |
| Operations.ReadDirLists | SftpServer/Sftp.c:244-288 | READDIR lists the entries given, at most a hundred, and else tells the end |
| Operations.StatTells | SftpServer/Sftp.c:559-615 | STAT and FSTAT give all fields, from version 4 on under the client's mask |
| Operations.OnePathIsNamed | SftpServer/Sftp.c:187-203 | REALPATH and READLINK name one path; unknown requests are told so |
| Operations.SwitchesDeny | SftpServer/Sftp.c:636-805 | SETSTAT, the five path operations and hard links are denied exactly by their own switch, and else told the system's status |
| Operations.HandsOver | SftpServer/Sftp.c:179-861 | What each request hands over: its own paths, or its handle's, unless it is refused |
| Operations.EntriesHandedOver | SftpServer/Sftp.c:264-264 | READDIR resolves every listed name behind its handle's path; REALPATH shows its path |
| Operations.ReplyReachesClient | SftpServer/Sftp.c:863-1044 | From the bytes sent for a message a client reads what the machine replied to it |
| Operations.OpenFilesWereAsked | SftpServer/Sftp.c:352-414 | In every run each open file was asked for by an OPEN of the run, with exactly the access it has |
| Operations.StatusTellsTheOpen | SftpServer/SftpServer.c:234-256 | In every run the session is shown as idle exactly if no file is open, and else as upload or download by whether the highest open file was asked for to be written only, with its name and percentage |
| Operations.PercentIsShare | SftpServer/SftpServer.c:246-249 | The percentage is the position's share of the size, rounded down |
| Reach.AccessBelowIff | SftpServer/FileSystem.c:55-116 | What the system is asked about for one access under a virtual root lies below the home if and only if it is not the `..` of the root's listing, nor a shown path that does not start with the home's names |
| Reach.AskedIsLookedUp | SftpServer/FileSystem.c:292-306 | Whatever the switches are, a call on one path asks about its real path and no other: last of all if it is permitted, and without the check for rights not at all if it is not |
| Reach.AskedLiesBelow | SftpServer/FileSystem.c:329-353 | So under a virtual root the system is asked, for a request that misses no `..`, about nothing but the home with the fold of the request's names behind it, whatever the switches are |
| Reach.BothAskedAreLookedUp | SftpServer/FileSystem.c:502-513 | The checks before a rename or a link ask about its two real paths and no other |
| Reach.ListingIsLookedUp | SftpServer/FileSystem.c:377-416 | A listing asks about its entries where the handlers' record says that they are looked up |
| Reach.RequestBelowIff | SftpServer/Sftp.c:179-861 | The same for everything that the handler of one request hands over, in any state whose handles were opened with paths that miss nothing |
| Reach.RunReachesUnderHome | SftpServer/Sftp.c:179-861 | In every run under a virtual root whose requests miss no `..`: open handles keep such paths, and everything that any handler hands over lies below the home if and only if no READDIR of the root meets `..` and each REALPATH is shown a path that ends in a slash or asks for one that starts with the home's names |
| Reach.RootsParentIsReached | SftpServer/FileSystem.c:377-391 | With the home `/h`, the entry `..` of the root is looked up outside the home |
| Reach.ShownIsNotBelow | SftpServer/FileSystem.c:308-319 | With the home `/h`, the request `/etc` of a REALPATH is asked about as `/etc` |
| Policies.StaysReadOnly | SftpServer/Sftp.c:373-379 | With writing disabled, in every run no file is ever open for writing and the session is never shown as an upload |
| Policies.NoDataLeaves | SftpServer/Sftp.c:428-429 | With reading disabled, in every run no reply carries data |
| Policies.EveryConversationCanBeServed | SftpServer/Sftp.c:863-1044 | For every conversation a client can write there are answers of the system with which the main loop serves all of it |
| Session.Session.DoInit | SftpServer/Sftp.c:77-177 | The machine's step for INIT on the real buffers, with one framed reply |
| Session.Session.DoRealPath | SftpServer/Sftp.c:179-203 | The machine's step, what is handed to FileSystem.c recorded, one framed reply, and only the request's bytes consumed |
| Session.Session.DoOpenDir | SftpServer/Sftp.c:205-235 | The same for OPENDIR |
| Session.Session.DoReadDir | SftpServer/Sftp.c:237-289 | The same for READDIR, at most 100 names a reply |
| Session.Session.DoClose | SftpServer/Sftp.c:308-350 | The same for CLOSE, with the status updated |
| Session.Session.DoOpen | SftpServer/Sftp.c:352-414 | The same for OPEN: flags, refusals, the slot, the status |
| Session.Session.DoRead | SftpServer/Sftp.c:416-483 | The same for READ, in text mode too |
| Session.Session.DoWrite | SftpServer/Sftp.c:485-528 | The same for WRITE; text mode strips the message in the input buffer itself |
| Session.Session.DoReadLink | SftpServer/Sftp.c:530-551 | The same for READLINK |
| Session.Session.DoStat | SftpServer/Sftp.c:553-580 | The same for STAT and LSTAT |
| Session.Session.DoFStat | SftpServer/Sftp.c:582-615 | The same for FSTAT |
| Session.Session.DoSetStat | SftpServer/Sftp.c:617-683 | The same for SETSTAT |
| Session.Session.DoFSetStat | SftpServer/Sftp.c:617-683 | The same for FSETSTAT |
| Session.Session.DoPathOp | SftpServer/Sftp.c:685-818 | The same for REMOVE, MKDIR, RMDIR, RENAME and SYMLINK |
| Session.Session.DoUnsupported | SftpServer/Sftp.c:820-827 | The same for unknown requests |
| Session.Session.DoExtended | SftpServer/Sftp.c:829-861 | The same for EXTENDED, hard links being the one it knows |
| Session.Session.Dispatch | SftpServer/Sftp.c:888-965 | Whatever the type byte, the machine's step for the request read in this phase |
| Session.Session.DoSFTPProtocol | SftpServer/Sftp.c:863-1044 | The loop ends; it has handled exactly the complete messages of the unread input, in order, has appended their framed replies, and left the incomplete rest |
| WhoTable.NoStaleSessionLeft | SftpServer/SftpWho.c:125-160 | No session left is stale, and a second sweep changes nothing |
| WhoTable.SweepIsExact | SftpServer/SftpWho.c:136-141 | Exactly the sessions not refreshed for 60 seconds are cleared, and no other is changed |
| WhoTable.ActiveIsSize | SftpServer/SftpWho.c:142-149 | The active sessions of a direction are counted once each |
| WhoTable.EffectiveIsBoth | SftpServer/Sftp.c:1124-1136 | An own limit is never exceeded, a share only by a session that bypasses it, and there is no limit exactly if neither gives one |
| WhoTable.GlobalLimitKept | SftpServer/Sftp.c:1124-1136 | With a byte or more for each active session, all effective limits are positive and add up to no more than the global limit |
| WhoTable.GlobalLimitIff | SftpServer/Sftp.c:1124-1136 | With active sessions this is so if and only if they are no more than the global limit, or all that take part have limits of their own that add up to no more |
| WhoTable.TinyLimitIsNoLimit | SftpServer/SftpWho.c:151-158 | Two downloads under a global limit of 1 are not limited |
| WhoTable.SharedTable.SftpWhoCleanBuggedClient | SftpServer/SftpWho.c:125-160 | The sweep clears exactly the stale sessions, counts the living, and stores the shares of the active |
| StatsRing.Stats.constructor | SftpServer/Stats.c:27-33 | No history: all zero |
| StatsRing.Stats.StatsUpdate | SftpServer/Stats.c:41-65 | One record more in the history, the 32-bit sums over the living sessions |
| StatsRing.Stats.StatsSend | SftpServer/Stats.c:67-85 | The wrap-around loop ends and has sent exactly min(elapsed seconds in 32 bits, 299) records, the latest of the whole history in order, zeros where there was none |
| StatsRing.HistoryIsRead | SftpServer/Stats.c:77-84 | Who receives the records reads the latest part of the history, users, download and upload in order |
| StatsRing.SumAdds | SftpServer/Stats.c:50-58 | Each living session adds its own traffic to the sums, once |
| StatsRing.SumOfOne | SftpServer/Stats.c:52-57 | One session alone: its download and its upload, or nothing if its slot is empty |
| MainLoop.Arrival | SftpServer/Sftp.c:1153-1176 | The messages that new bytes complete are the next ones of the whole stream |
| MainLoop.ClientView | SftpServer/Sftp.c:1178-1196 | Of every part of the output: the client's packet number j answers its message number j, and there is one for every message when it has all |
| MainLoop.PeriodWithinGlobalLimit | SftpServer/Sftp.c:1105-1136 | Sessions that keep to the quotas of one sweep move together in a period no more than the global limit |
| MainLoop.TurnReads | SftpServer/Sftp.c:1153-1176 | A turn whose input is watched and ready takes exactly the least of what has come, 131072, what the quota leaves and what is left; if that is nothing it is the last |
| MainLoop.TurnWrites | SftpServer/Sftp.c:1178-1196 | A turn whose output is watched and ready writes exactly the least of what can be taken, what the quota leaves and what waits |
| MainLoop.TurnWaits | SftpServer/Sftp.c:1059-1136 | What is over its quota is not moved; a time-out alone starts the counters again |
| MainLoop.StreamArrives | SftpServer/Sftp.c:1153-1176 | Without limits all of the stream is received as soon as the wake-ups have brought as much, and the process lives on exactly if it is never woken at the end of the input |
| MainLoop.RepliesAreSent | SftpServer/Sftp.c:1178-1196 | Without limits all replies are sent as soon as the wake-ups have let as much be written |
| MainLoop.ServedToTheEnd | SftpServer/Sftp.c:1046-1204 | So a session without limits receives its whole stream and sends every reply to it |
| MainLoop.Global.ReadSize | SftpServer/Sftp.c:1153-1160 | The size of a read is positive and within what the quota leaves: the subtraction does not underflow |
| MainLoop.Global.CountRead | SftpServer/Sftp.c:1167-1174 | The counter is the bytes read this period, and within the limit |
| MainLoop.Global.WriteSize | SftpServer/Sftp.c:1178-1186 | The same for a write |
| MainLoop.Global.CountWritten | SftpServer/Sftp.c:1191-1196 | The same for bytes written |
| MainLoop.Global.NewPeriod | SftpServer/Sftp.c:1092-1136 | A time-out starts the counters again, and the limits become the effective ones of the last sweep |
| MainLoop.Server.Receive | SftpServer/Sftp.c:1153-1177 | Reading keeps the loop's invariant: exactly the bytes that have come and fit go to the session, are counted, and the messages they complete handled; the process lives on exactly if there were some and none began a message that is too long |
| MainLoop.Server.Deliver | SftpServer/Sftp.c:1178-1197 | Writing keeps it: exactly what can be written of what waits is taken off the output, which is otherwise unchanged; a failing write ends the process |
| MainLoop.Server.Turn | SftpServer/Sftp.c:1059-1200 | One wake-up keeps the invariant, and leads to exactly the next progress: what is read, what is written, the counters, the limits, and whether the process lives on |
| MainLoop.Server.SftpMain | SftpServer/Sftp.c:1046-1204 | For every sequence of wake-ups the invariant holds: the messages received so far are handled once each and in order, bytes written and waiting are their replies, no limit is exceeded; and the progress made is exactly that of the turns one after the other |
| MainLoop.Server.AllServed | SftpServer/Sftp.c:1046-1204 | When the client has sent everything, state and output are those of the whole stream, however it arrived |
| MainLoop.Server.ClientSees | SftpServer/Sftp.c:1046-1204 | At every moment the client's packets answer its messages one for one |
| MainLoop.NewSession | SftpServer/Sftp.c:1053-1055 | Fresh buffers, handle table and caches make a session in its first state |
| MainLoop.Serve | SftpServer/Sftp.c:1046-1204 | A session from its start, for every client and every sequence of wake-ups, with the progress that these make |
| HashTable.LookupFindsLastSet | Core/hash.c:62-184 | After any sequence of calls a lookup finds what was last set of its own kind since the store was created: strings and numbers do not disturb each other |
| HashTable.AnswersTellLastSet | Core/hash.c:123-184 | After any calls the store answers with the string and the number last set for the key, and whether any was |
| HashTable.BucketCons | Core/hash.c:81-86 | A new element at the head keeps the chain well linked and its keys distinct |
| HashTable.Store.CreateHash | Core/hash.c:30-34 | An empty map |
| HashTable.Store.DeleteHash | Core/hash.c:36-60 | Every element is released, none twice and none read after that; then there is no map |
| HashTable.Store.Find | Core/hash.c:66-77 | The walk finds the element of the key, or none |
| HashTable.Store.HashSet | Core/hash.c:62-91 | The string of this key, and nothing else, changes; a null value does nothing |
| HashTable.Store.HashSetInt | Core/hash.c:93-121 | The number of this key, and nothing else, changes |
| HashTable.Store.Seek | Core/hash.c:165-184 | The cached element is the one the walk would find |
| HashTable.Store.HashExists | Core/hash.c:123-142 | The map's answer, the map unchanged |
| HashTable.Store.HashGet | Core/hash.c:144-163 | The same for the string |
| HashTable.Store.HashGetInt | Core/hash.c:165-184 | The same for the number |
| HashTable.Store.PerformAll | Core/hash.c:30-184 | Any sequence of calls answers as one abstract map does; the cache never shows |
| Tokenizer.CleanEscaped | Core/string.c:84-105 | Cleaning an escaped word gives the word, also with a backslash left at its end |
| Tokenizer.WordOfEscaped | Core/string.c:58-105 | What any escaped word comes back as after both trims and cleaning |
| Tokenizer.ScanEscaped | Core/parsing.c:234-269 | The scan takes an escaped word whole |
| Tokenizer.TokensOfJoin | Core/parsing.c:228-283 | What any list of words, escaped and joined by spaces, comes back as |
| Tokenizer.TokensRoundTrip | Core/parsing.c:228-283 | The same list comes back if and only if no word is empty, a lone `=`, or ends in a control character or a space |
| Tokenizer.TokensOfQuoted | Core/parsing.c:255-262 | A line of words between quotes of either kind is cut into exactly these words, blanks, backslashes and the other quote included, less those that are empty or a lone `=` |
| Tokenizer.OneQuoted | Core/parsing.c:255-262 | In particular a line of one quoted word is that word |
| Tokenizer.BehindQuote | Core/string.c:92-100 | The character behind a closing quote is taken as it is, whatever it is |
| Tokenizer.TrimsAre | Core/string.c:58-82 | The characters 1 to 32 are cut off at a word's end and no others, spaces and tabs at its start |
| CutString.TrimRightAt | Core/string.c:58-75 | In place: trailing characters 1 to 32 become NULs, nothing else changes |
| CutString.TrimLeftAt | Core/string.c:77-82 | The place behind leading spaces and tabs |
| CutString.CleanStep | Core/string.c:90-103 | One turn of the loop keeps: what is before is clean, what is after is still to be, and NULs fill the rest |
| CutString.CleanString | Core/string.c:84-105 | The word in place becomes the cleaned word, terminated; nothing outside it changes |
| CutString.EndWord | Core/parsing.c:239-251 | A word is cleaned and kept unless it is empty or `=`; the words before it stay where they are |
| CutString.ParseCutString | Core/parsing.c:228-283 | For every balanced line: the loop ends, and the places returned hold the words of the line, each terminated, in order |

## Left out

- FileSystem.FSResolvRelativePath: not modelled where a deletion leaves the scan pointer behind the end of the shortened string (`Scan` is None), as in `PathScan.PointerOutside`: the code then reads the old bytes behind the terminator.
- FileSystem.FileSystem.FSResolvePath: the same for the three strings it resolves (`ScanPath` is None).
- PathResolve.ContainedIff: for requests whose second pass misses a `..`, the exact condition is not stated; what such a pass leaves is `PathScan.ScanIsMarkedFold`. The same holds for SamePathIff.
- FileSystem.FileSystem.FSCheckSecurity: whether the owner and the rights of a file let it be seen, an ACL included, and what FileSpecCheckRights says, are parameters; the ACL is asked for with `stat`.
- FileSystem.FileSystem.FSSymlink: links are a map from real paths to texts; FSHardlink, which shares FSLink with it, is not modelled apart.
- FileSystem.FileSystem.FSReadLink: the caller's buffer has a place for the terminator, and is none of the strings it is called with.
- FileSystem.FileSystem.FSCall: what the system answers, the second `stat` of FSOpenFile on the same path, and FSChangeRights, are not modelled.
- Buffers.Buffer.BufferGrow: does not model a failed allocation or a size beyond 32 bits.
- Buffers.Buffer.BufferGetHandle: asks for the two bytes that the code takes without looking whether they are there.
- Replies.ReadReply: excludes a failing read in text mode, where the code compares an unsigned count with -1.
- Attributes.NamesAreLeftOver: with an ACL or extended list behind them, the names that are not read may be taken up by it or not; the exact condition is not stated.
- Attributes.EncodeAttributes: without a file name, as when the ACL library is not built in: an ACL is an empty string.
- Session.Session.DoOpen: keeps of the flags what later behaviour depends on, so not O_CREAT, O_TRUNC, O_EXCL and O_SYNC, nor the mode of a new file; the verdict of CheckRulesAboutMaxFiles is a parameter.
- Session.Session.DoSetStat: the calls that change size, rights, times and owner are one answer of the system; the same holds for DoFSetStat.
- Session.Session.DoRealPath: the path that is sent back is an answer of the system here; how it is resolved, and the slash that is added to it, is `FileSystem.FileSystem.FSRealPath`.
- Requests.RequestRoundTrip: without the fields that the decoder misreads: owner names below version 4, BITS, and subseconds without all three times.
- Reach.RunReachesUnderHome: symbolic links on the way are not followed: a path lies below the home by its names. What is handed over is recorded whether or not FSCheckSecurity then permits it.
- Session.Session.DoStat: in version 5, where the file system has ext2 flags (`HAVE_LINUX_EXT2_FS_H`), StatToAttributes opens the string it is given (SftpServer/Encode.c:201-206), which for STAT and FSTAT is the client's own, not resolved; this is not modelled, nor counted in `Reach.RunReachesUnderHome`. The same holds for DoFStat.
- Session.Session.DoOpenDir: the string that FSOpenDir leaves and the handle keeps is part of `Env`, and the session's path field in the shared table is not modelled.
- Session.Session.DoReadDir: the entries that pass the security test are the system's answer, FSReadDir being modelled in `FileSystem.dfy`; the line of a long listing is given with its entry.
- Session.Session.DoSFTPProtocol: streams under 2 GiB, without a message of length 0 (whose type byte the code takes from the message after it), and of messages whose handlers read no further than their end; requests written as the draft lays them out are such (`Requests.SaidIsWellFormed`). A length with the sign bit set is modelled: it waits for ever.
- Session.Session.DoWrite: excludes a message whose data is shorter than it says.
- Handles.HandleTable.UpdateInfoForOpenFiles: sessions have a slot in the shared table; those without one are not modelled.
- WhoTable.SharedTable.SftpWhoCleanBuggedClient: one sweep on one table; what other processes do meanwhile is not modelled, nor how SftpWhoGetStruct finds a slot.
- MainLoop.ServedToTheEnd: a session without limits and without a message that is too long; how far the turns of a limited one get is `MainLoop.TurnReads` and `MainLoop.TurnWrites`.
- MainLoop.Server.SftpMain: without the idle and life timers, which only end the loop, and without the copies of the counters in the shared table.
- HashTable.Store.Find: keys that are not empty and whose first two characters are not negative as chars (`IsKey`); for others the bucket number is not one of the table, or reads behind the string.
- CutString.ParseCutString: lines without an open quote or a final backslash (`Balanced`); for others the scan leaves the string.
- Files, directories and rights on disk: the system's answer to each message is the parameter `Env`.
- The administrator mode, the `MSSEXT` extensions with file hashing, configured callbacks, character set conversion and logging.
- IP ranges, virtual hosts, units, environment variables and tags of the configuration; only the store and the tokenizer are modelled.
- The printing programs SftpWho and SftpState.
