# Proofs about fs123

fs123 is a read-only network filesystem that serves files over http and caches them
everywhere: in the client's kernel, in the client's memory, on its disk, in its peers
and in web proxies. This project models the state machines and wire formats on which
the caching rests, and proves what they keep. It is checked with
`dafny verify dfyconfig.toml`.

Code that the source runs step by step on objects is modelled as classes and methods
(the directory handle, the reply buffer, the peer map, the inode map, the disk cache,
the evictor, the suppressor, the rules cache); code made of expressions is modelled as
functions. What the outside world does is a parameter: server replies, clock readings,
random picks, failures and what other threads have done meanwhile are arbitrary within
the assumptions named below. Where several threads or processes share state, the model
is a set of atomic steps and the theorems are about every sequence of them.

| module | what it models |
|---|---|
| `Wire`, `Spans`, `Reply73`, `Dirents` | numbers and netstrings, the growing buffer, the 7.3 reply, directory entries |
| `Chunking`, `Readdir`, `DirServer` | directory paging, from the exported directory to the kernel |
| `DiskRecord`, `DiskProtocol`, `DiskExclusive`, `DiskReaders` | the bytes of a cache file, the lock-free file protocol, what O_EXCL adds to it, and what one call comes to |
| `DiskRefresh`, `DiskStores`, `DiskFiles`, `Suppress`, `Eviction` | freshness, what it leaves for later calls, and what it finds in the files; the request suppressor; the evictor |
| `Ring`, `Peers`, `Members` | the consistent hash ring, the handlers that change it, and who is a member |
| `Validators`, `Inomap`, `Coherence`, `CloseToOpen`, `FileRead` | server validators, the inode map, open and read |
| `Secretbox` | sealing and opening in place |
| `RulesCache` | cache-control rules |
| `Urls`, `Requests` | request urls |

Main results, hardest first:

- **Directory paging is transparent** (`Readdir.EveryHistoryReadsOn`,
  `DirServer.ListEndToEnd`). For every server buffer, every chunking that the reply's
  guard allows, every kernel buffer and every history of good, bogus and failing calls on
  the handle, the kernel's loop from the offset of any record, if it ends, has every
  record from there on, once and in order, whatever further failures it meets: a failure
  is never taken for the end (`Readdir.FailsExactly`, `Readdir.EmptyOnlyAtTheEnd`).
  Without further failures it ends if and only if the handle accepts the offset. Each
  reply fills the buffer up to the end of a chunk, and never more than that. One case is
  false of the code: the root of a server that lists nothing at all,
  not even "." and ".." (which the project's own exportd does list), re-read from one of
  its special entries after the end was seen, into a buffer with room for the rest of
  them, shows nothing (`Readdir.RewindLosesSpecials`). `Readdir.LosesSpecials` is that
  condition, and for buffers of every size a read is right if and only if it does not
  hold (`Readdir.RightExactly`).
- **The disk cache never shows a reader anything but a stored reply**
  (`DiskProtocol.FilesArePrefixes`, `DiskProtocol.ReadersGetWhatWasWritten`), under every
  interleaving of serializers, readers, evictors and crashes. A deserialize that finds a
  file has its reply if and only if all but the url was written when it took the size, and
  throws otherwise (`DiskReaders.ReaderEndsExactly`); a serialize that meets no other call
  leaves what a deserialize then reads (`DiskReaders.StoredThenRead`). The stronger reading
  of the
  O_EXCL comment, that a published file is complete and no reader throws, holds in every
  run in which no step takes a `.new` name away from a writer that holds it
  (`DiskExclusive.FilesAreComplete`), and from every state that O_EXCL has kept in order
  it holds of all that can follow a step if and only if the step takes no such name
  (`DiskExclusive.SafeExactly`). The evictor can take one, and so can a serialize that
  fails after its own rename; one such eviction publishes an empty file
  (`DiskExclusive.EvictedNewExposesPartialFile`). Evicting the `.new` name of a crashed
  writer does no harm.
- **Freshness over whole runs** (`DiskRefresh.EveryRunIsRight`, of the memory that
  `DiskRefresh.Run` says the cache has): every reply returned is one that upstream
  supplied for that url, with upstream's times, and is returned for one of the reasons of
  RFC 5861 sections 3 and 4; a call throws if and only if nothing could help it. What
  upstream answers is stored for good, and serves without another exchange until it
  expires (`DiskStores.AnsweredCallIsStored`, `DiskStores.AnswerServes`). Under
  a one-to-one hash of urls, what the readers of the file protocol return is what such a
  run can find, and is genuine (`DiskFiles.ReadersFindGenuineReplies`). All this
  assumes that past-stale-while-revalidate is less than the time since the epoch
  (`DiskRefresh.InvalidIsAMiss` shows that it is needed) and that upstream answers 304
  only to If-None-Match (`DiskRefresh.OnlyAskedAnswersAreSafe` shows that it is needed
  too).
- **Close-to-open consistency** over every sequence of lookups, forgets, opens, scans and
  reads (`Coherence.EveryRunIsCoherent`, of the state that `Coherence.Run` says the mount
  has; over the events themselves, `CloseToOpen.ReadsSeeOpens`), and, with the server's clock and mtimes, what
  that means for the file itself: a read misses no write that an open before it saw
  (`Coherence.ReadsMissNoWrite`), and keep_cache means that nothing was written
  (`Coherence.KeepCacheMeansUnwritten`). The comment
  in `fs123_open` says that the inode map starts with a zero validator; the code records
  the lookup's validator (exe/fs123p7/app_mount.cpp:1301), and the model follows the code.
  In every state that a kernel which balances its lookups and forgets can reach, an ino
  has an entry exactly while it is looked up, and its full name is the path it was looked
  up by (`Inomap.EntryExistsExactly`, `Inomap.FullNameInRun`).
- **The ring is a function of its members** (`Ring.MapsAreAFunctionOfLive`). After every
  history of the handlers the maps are those of the members, our own peer is one, and
  every key is routed to its owner (`Peers.EveryRunIsIndexed`, of the state that
  `Peers.Run` says the node has); another node is a member if and only if its last
  admission has not been followed by a removal of its url (`Members.MembersExactly`); two
  histories that end with the same members route
  every key alike (`Peers.HistoriesDoNotMatter`); membership changes move only the keys
  they must. Hash points of different uuids are assumed disjoint, and remote uuids
  different from ours. Inserting a known url under another uuid would break the maps
  (`Ring.InsertKeepsExactly`); the handler's check is what prevents it.
- **Round trips**: the 7.3 reply with the exact condition (`Reply73.RoundTrip`), the
  secretbox frame, also within one box (`Secretbox.RoundTrip`,
  `Secretbox.EncodeThenDecode`), request urls.
  `content_codec.hpp` promises that a throwing decode leaves the message alone. That is
  false of an authentic message that is badly padded
  (`Secretbox.BadPaddingChangesTheBox`); `Secretbox.UnchangedExactly` says when the box
  stays as it was. `add_sigil_version` accepts base urls that the server does not read
  back: with a question mark or a fragment, or with a sigil or a NUL hidden in an escape
  (`Requests.EscapedSigilIsAccepted`). A request comes back as it was sent if and only if
  its base url has none of these and its path does not climb (`Requests.RoundTrip`).
- **Memoising the rules search changes nothing** (`RulesCache.JustifiedIsTheSearch`), and
  no rule outlives the expiry of the file it came from, in one call or over any number of
  them (`RulesCache.Run`).

## Model

| member | source | states |
|---|---|---|
| Wire.ScanPrefixedOfDec | core123/include/core123/scanint.hpp:147-238 | the base-detecting scanner reads back any printed number and stops after it |
| Wire.ScanUintExactly | core123/include/core123/scanint.hpp:147-238 | the digits are scanned to their end, and refused if and only if there are none or their number is beyond the maximum |
| Wire.ScanUnsignedOfDec | core123/include/core123/svto.hpp:165-174 | after white space too, for every number that fits the type |
| Wire.ScanSignedOfDec | core123/include/core123/scanint.hpp:240-268 | the signed scanner reads back any printed number up to half the unsigned range |
| Wire.ParseOfDec | core123/include/core123/svto.hpp:165-174 | parsing a printed number gives the number |
| Wire.ScanNetstringOfNetstring | core123/include/core123/netstring.hpp:26-64 | scanning a netstring anywhere in a text gives its payload and the offset after it, whatever the payload holds |
| Wire.NetstringExactly | core123/include/core123/netstring.hpp:26-64 | what is taken for a netstring is digits without a leading zero, a colon, the payload that they count, and a comma |
| Spans.Span.Prepend | core123/include/core123/uchar_span.hpp:123-138 | prepending puts the bytes in front in place, or refuses and changes nothing; no other byte changes |
| Spans.Span.Append | core123/include/core123/uchar_span.hpp:127-153 | the same behind |
| Reply73.Req.PrependPairs | lib/fs123server.cpp:770-783 | the records stand in front of the body, the last added first, exactly when they fit |
| Reply73.Req.CommonReply200 | lib/fs123server.cpp:770-783 | the buffer holds the printed reply exactly when front and back have room |
| Reply73.Decode | exe/fs123p7/app_mount.cpp:2395-2437 | the parser's loop computes the record-by-record specification |
| Reply73.ScanLineExactly | exe/fs123p7/app_mount.cpp:2399-2410 | a record is two netstrings with a blank between them and a newline after them |
| Reply73.DecodeOfLines | exe/fs123p7/app_mount.cpp:2399-2433 | parsing printed records absorbs each of them in turn |
| Reply73.PrintIsLines | lib/fs123server.cpp:770-783 | the printed reply is records throughout, the content being one of them |
| Reply73.AbsorbAllResult | exe/fs123p7/app_mount.cpp:2409-2432 | absorbing all records succeeds if and only if ordinary keys are distinct and errnos are numbers, and keeps every pair |
| Reply73.RoundTrip | exe/fs123p7/app_mount.cpp:2395-2437 | a printed reply parses if and only if its ordinary keys are distinct and its errnos are numbers; content, errno and pairs come back |
| Reply73.PrintedReply | lib/fs123server.cpp:770-783 | the text of a reply, by example |
| Dirents.ParseOfEncode | exe/fs123p7/app_mount.cpp:1515-1580 | the client's parser reads back any legal directory entry wherever it stands |
| Dirents.EncodeAllAt | lib/fs123server.cpp:1150-1162 | every entry of an encoded list stands at its byte offset |
| Dirents.EncodedEntry | lib/fs123server.cpp:1150-1162 | the text of an entry, by example |
| Chunking.StartNext | exe/fs123p7/app_mount.cpp:1306-1316 | a chunk starts where the one before it ends |
| Chunking.EntryInChunk | exe/fs123p7/app_mount.cpp:1306-1316 | the byte offset of an entry lies in the chunk that holds it |
| Readdir.EmitLoop | exe/fs123p7/app_mount.cpp:1507-1609 | the entry loop emits the specified records, within the buffer |
| Readdir.EmitOfChunk | exe/fs123p7/app_mount.cpp:1507-1609 | emitting from a byte offset of a chunk gives consecutive records of the whole listing, as many as fit and no more |
| Readdir.LocateOk | exe/fs123p7/app_mount.cpp:1464-1476 | in a handle in order the search in the offsets vector finds the chunk of the offset |
| Readdir.DirHandle.Locate | exe/fs123p7/app_mount.cpp:1464-1476 | the method leaves that chunk in hand, or changes nothing on an error |
| Readdir.FetchOk | exe/fs123p7/app_mount.cpp:1476-1504 | fetching replaces the one-chunk buffer, extends the offsets and marks the end, and keeps the handle in order |
| Readdir.DirHandle.Fetch | exe/fs123p7/app_mount.cpp:1476-1504 | the method does that to the handle's fields, or changes nothing on an error |
| Readdir.SpecialsOk | exe/fs123p7/app_mount.cpp:1443-1455 | the special entries from an offset on, as many as fit, and all of them if and only if their bytes do |
| Readdir.DirHandle.ReadSpecials | exe/fs123p7/app_mount.cpp:1443-1455 | the loop gives these entries and counts their bytes |
| Readdir.ReadKeeps | exe/fs123p7/app_mount.cpp:1376-1615 | no call, at any offset and with any error, damages the handle or lowers its limit; too large an offset is EINVAL |
| Readdir.ReadIsRight | exe/fs123p7/app_mount.cpp:1376-1615 | from a record's offset: that record and those after it, unchanged and in order, within the buffer, and filling it up to the end of a chunk; an empty reply only at the end |
| Readdir.FailsExactly | exe/fs123p7/app_mount.cpp:1464-1480 | a failure of the server is an error of the read if and only if the chunk in hand does not cover the offset and the end is not known, and changes nothing then; otherwise it does not matter |
| Readdir.EmptyOnlyAtTheEnd | exe/fs123p7/app_mount.cpp:1459-1480 | whatever the server answers, an empty reply means the end of the directory, or a rewound empty root |
| Readdir.DirHandle.Read | exe/fs123p7/app_mount.cpp:1376-1615 | the method's reply, and every field of the handle after it, are those of which the two theorems speak |
| Readdir.ReadStep | exe/fs123p7/app_mount.cpp:1376-1615 | one call of the kernel's loop makes progress or is at the end |
| Readdir.ReadToEnd | exe/fs123p7/app_mount.cpp:1376-1615 | reading from any offset handed out to the first empty reply gives exactly the records from there on, and ends |
| Readdir.EnumeratedWhole | exe/fs123p7/app_mount.cpp:1376-1615 | whatever failures it meets, the kernel's loop ends with exactly the records from its start or not at all; without failures it ends within one call more than there are records |
| Readdir.EveryHistoryReadsOn | exe/fs123p7/app_mount.cpp:1376-1615 | after any history of calls the loop from a record's offset, with any failures, has exactly the records from there on if it ends and no specials are lost; without failures it ends if and only if the handle accepts the offset |
| Readdir.RightExactly | exe/fs123p7/app_mount.cpp:1443-1462 | a read of any size is right if and only if it is not of an empty root, at its known end, from a special entry, with room for the rest of them |
| Readdir.RewindLosesSpecials | exe/fs123p7/app_mount.cpp:1443-1462 | that case is real: any handle on an empty root shows its special entries to one enumeration and then, read again, nothing |
| Readdir.OffsetsGrow | exe/fs123p7/app_mount.cpp:1595-1604 | the offsets handed out are strictly increasing |
| DirServer.DirReq.AddDirent | lib/fs123server.cpp:1150-1162 | an entry is appended if and only if it fits |
| DirServer.DirReq.Fill | exe/fs123p7/exportd_handler.cpp:141-155 | the loop adds the longest run of entries that fits |
| DirServer.DirReq.D | exe/fs123p7/exportd_handler.cpp:128-159 | the reply holds the entries from the start token on and the token of the rest; a bad token is an error |
| DirServer.ReplyExactly | exe/fs123p7/exportd_handler.cpp:128-159 | in words: a token that is no number is refused; the listing goes on after the entry at the token's position, as far as there is room and no less far; the next token is the last entry's position unless the directory ends there |
| DirServer.AnyEntryFits | lib/fs123server.cpp:1150-1162 | 320 bytes are room for any entry |
| DirServer.CutServed | exe/fs123p7/exportd_handler.cpp:128-159 | every token the server hands out is answered by the chunk it stands for |
| DirServer.CutIsWhole | lib/fs123server.cpp:1189-1215 | the chunks together are the directory, and only the last can be empty |
| DirServer.ServesTheDirectory | lib/fs123server.cpp:1189-1215 | for any buffer with room for one entry the server is a well-formed chunking of the directory |
| DirServer.ListEndToEnd | exe/fs123p7/exportd_handler.cpp:128-159 | after any history and through any failures, a kernel that comes to the end has seen the special entries in the root, then each exported entry once and in order, with its name, type and cookie; only an empty root whose end was seen gives nothing instead |
| DirServer.DirReplyDecodes | lib/fs123server.cpp:1189-1215 | the client decodes the content, the next token and the cookie of a directory reply |
| DiskRecord.Layout | exe/fs123p7/diskcache.cpp:895-937 | where the header, length and content stand in a cache file |
| DiskRecord.AnyPrefix | exe/fs123p7/diskcache.cpp:670-796 | reading any prefix of a record, growing meanwhile, throws or gives the record's reply, the latter exactly when all but the url was there |
| DiskRecord.LittleEndian | exe/fs123p7/diskcache.cpp:895-937 | the byte order of the lengths in a cache file, by example |
| DiskProtocol.CreateKeeps | exe/fs123p7/diskcache.cpp:843-895 | creating a `.new` file keeps the invariant |
| DiskProtocol.GrowKeeps | exe/fs123p7/diskcache.cpp:895-938 | so does writing any part of it |
| DiskProtocol.PublishKeeps | exe/fs123p7/diskcache.cpp:941-947 | so does renaming it, even when the name has become another writer's |
| DiskProtocol.WriterStepKeeps | exe/fs123p7/diskcache.cpp:958-973 | so do failures, before and after the rename, unlinks and crashes |
| DiskProtocol.SetAsideKeeps | exe/fs123p7/diskcache.cpp:798-818 | so does setting an unreadable file aside |
| DiskProtocol.EvictKeeps | exe/fs123p7/diskcache.cpp:141-157 | so does unlinking any name, `.new` names too |
| DiskProtocol.HeadRead | exe/fs123p7/diskcache.cpp:709-741 | the header of a prefix is refused, or is the record's and the content was there when the size was taken |
| DiskProtocol.BodyRead | exe/fs123p7/diskcache.cpp:742-796 | then the content read is the record's |
| DiskProtocol.RunKeeps | exe/fs123p7/diskcache.cpp:670-973 | every interleaving keeps the invariant |
| DiskProtocol.FilesArePrefixes | exe/fs123p7/diskcache.cpp:820-973 | in every run each named file holds a prefix of one record serialized for its path |
| DiskProtocol.ReadersGetWhatWasWritten | exe/fs123p7/diskcache.cpp:670-818 | in every run a successful deserialize returns a reply that some serialize wrote for that path |
| DiskExclusive.FilesAreComplete | exe/fs123p7/diskcache.cpp:843-850 | in every run in which no step takes a `.new` name from a writer that holds it, every file under its own name is complete and no reader throws |
| DiskExclusive.SafeExactly | exe/fs123p7/diskcache.cpp:866-884 | from every state in order, all that can follow a step is safe if and only if the step takes no held `.new` name; evicting a crashed writer's is harmless |
| DiskExclusive.EvictedNewExposesPartialFile | exe/fs123p7/diskcache.cpp:110-157 | one evicted `.new` name lets a rename publish another writer's empty file, and a reader throws |
| DiskReaders.ReaderEndsExactly | exe/fs123p7/diskcache.cpp:670-796 | in every run, whatever happens between its steps, a deserialize that finds a file ends with the reply of the call that made it if and only if all but the url was there when the size was taken; otherwise it throws |
| DiskReaders.MissesExactly | exe/fs123p7/diskcache.cpp:680-687 | a miss comes only of a name that was not there, or after a failed read has set the file aside |
| DiskReaders.SerializeStores | exe/fs123p7/diskcache.cpp:843-947 | after any run a serialize that meets no other call leaves the whole record under its own name and nothing else different |
| DiskReaders.StoredThenRead | exe/fs123p7/diskcache.cpp:670-947 | and a deserialize then has its reply |
| DiskReaders.PublishedIsRead | exe/fs123p7/diskcache.cpp:843-850 | after any run in which no held `.new` name is taken, whoever opens a name that is there has the reply of the call that made the file |
| DiskReaders.FailureLeavesNothing | exe/fs123p7/diskcache.cpp:958-973 | a serialize that fails, before or after its rename, leaves neither of its names |
| DiskRefresh.Http.Refresh | exe/fs123p7/backend123_http.cpp:1122-1155 | no exchange for a fresh reply unless no-cache is asked; If-None-Match exactly for a valid reply with an etag; 200 replaces, 304 changes the times only, anything else throws |
| DiskRefresh.GenuineUpdated | exe/fs123p7/backend123_http.cpp:653-695 | what a 200 or an asked-for 304 makes of a reply is content, etag and times that upstream supplied |
| DiskRefresh.ExchangedOk | exe/fs123p7/diskcache.cpp:524-566 | an upstream refresh stores only what upstream supplied for that url |
| DiskRefresh.CallIsRight | exe/fs123p7/diskcache.cpp:568-646 | what a call returns is genuine and allowed, and invalid exactly when none was found and the request puts up with that |
| DiskRefresh.DiskCache.UpstreamRefresh | exe/fs123p7/diskcache.cpp:524-566 | disconnected with a usable reply it changes nothing; otherwise it stores the answer, or throws |
| DiskRefresh.DiskCache.MaybeBackground | exe/fs123p7/diskcache.cpp:414-441 | a background refresh is submitted unless it is too soon or the mount is disconnected |
| DiskRefresh.DiskCache.Refresh | exe/fs123p7/diskcache.cpp:568-646 | it throws exactly when it must refresh, upstream is no help and no usable reply remains; what it returns is genuine and allowed; exactly what upstream supplied is stored, and a background refresh is submitted exactly for a stale hit |
| DiskRefresh.DiskCache.Background | exe/fs123p7/diskcache.cpp:443-468 | a background refresh keeps everything stored genuine |
| DiskRefresh.NoCacheIsNeverConfused | exe/fs123p7/diskcache.cpp:536-543 | the throw for a 304 to a no-cache request cannot happen with an honest upstream |
| DiskRefresh.OnlyAskedAnswersAreSafe | exe/fs123p7/backend123_http.cpp:656-662 | an unasked 304 would make an invalid reply a hit; a reply is made valid if and only if the answer was asked for |
| DiskRefresh.InvalidIsAMiss | exe/fs123p7/diskcache.cpp:602-623 | an absent reply is a miss if and only if the request says no-cache or its allowance is no more than the time since the epoch |
| DiskRefresh.EveryRunIsRight | exe/fs123p7/diskcache.cpp:524-646 | over any interleaving of calls and background refreshes every reply returned is genuine and is returned for an allowed reason, and a call throws exactly when nothing could help it |
| DiskRefresh.Run | exe/fs123p7/diskcache.cpp:524-646 | the cache's memory after any events is the fold of the events, and each call returns or throws what that fold says |
| DiskStores.DecidesExactly | exe/fs123p7/diskcache.cpp:602-623 | a hit is unexpired; a stale reply is expired by less than stale-while-revalidate with its option, and than max-stale if given; anything else, or no-cache, must be asked for |
| DiskStores.ThrowsExactly | exe/fs123p7/diskcache.cpp:568-646 | when a call throws, in terms of the times, the answer and the two readings of the file |
| DiskStores.AnsweredCallIsStored | exe/fs123p7/diskcache.cpp:524-566 | after a call that goes upstream and is answered, the reply made of that answer, field by field, can be found for its url for good; the exchange is recorded with its etag, and the call returns that reply |
| DiskStores.AnsweredJobIsStored | exe/fs123p7/diskcache.cpp:443-468 | so it is after a background refresh, whose job is done |
| DiskStores.UnansweredStoresNothing | exe/fs123p7/diskcache.cpp:531-544 | an exchange without an answer stores nothing |
| DiskStores.UnexpiredIsHit | exe/fs123p7/diskcache.cpp:602-612 | a call that finds an unexpired reply returns it, asks nobody and changes nothing |
| DiskStores.StaleIsRevalidated | exe/fs123p7/diskcache.cpp:612-623 | one that finds a stale enough reply returns it, and submits a refresh of it unless it is too soon or offline |
| DiskStores.OfflineIsServed | exe/fs123p7/diskcache.cpp:524-531 | offline, one within stale-if-error is returned |
| DiskStores.AnswerServes | exe/fs123p7/diskcache.cpp:524-623 | an answer serves later calls that find it until it expires, without another exchange |
| DiskFiles.ReadersFindGenuineReplies | exe/fs123p7/diskcache.cpp:576-577 | with a one-to-one hash, a hit of the file protocol at a url's path is exactly one reply that the freshness state machine can find for that url, and upstream supplied it |
| Suppress.Suppressor.LowerBound | exe/fs123p7/diskcache.cpp:366-369 | the first entry not older than the window |
| Suppress.Suppressor.Find | exe/fs123p7/diskcache.cpp:373-376 | an entry for the url, or none |
| Suppress.Suppressor.RecentlyRefreshed | exe/fs123p7/diskcache.cpp:361-386 | one call's effect on the list and its answer |
| Suppress.ListIsWindow | exe/fs123p7/diskcache.cpp:361-386 | the list is exactly the admissions of the last 500 ms |
| Suppress.RefusedExactly | exe/fs123p7/diskcache.cpp:361-386 | a call is refused if and only if the url was admitted at most 500 ms before |
| Suppress.AdmissionsAreApart | exe/fs123p7/diskcache.cpp:361-386 | two admissions of one url are more than 500 ms apart |
| Suppress.ListStaysSorted | exe/fs123p7/diskcache.cpp:361-386 | the list stays sorted, with one entry a url |
| Eviction.UsageExactly | exe/fs123p7/diskcache.cpp:217-225 | usage exceeds a fraction just when the files or the bytes exceed it |
| Eviction.EvictsExactly | exe/fs123p7/diskcache.cpp:231-239 | nothing goes at or below the target; above it just as many files as bring usage down to the mark, and not one more |
| Eviction.EvictionReachesTheMark | exe/fs123p7/diskcache.cpp:217-240 | whenever the target was exceeded, by files or by bytes, no more than evict_lwm of the files allowed are left |
| Eviction.InjectionFalls | exe/fs123p7/diskcache.cpp:259-267 | the injection probability is in [0, 1], never rises with usage, is 1 up to the throttle mark only and 0 from full on |
| Eviction.InjectionIsLinear | exe/fs123p7/diskcache.cpp:259-267 | in between it falls in a straight line |
| Eviction.Evict | exe/fs123p7/diskcache.cpp:141-157 | exactly the asked number of distinct scanned names are unlinked and the names are permuted; a failure stops it |
| Eviction.Evictor.EvictOnce | exe/fs123p7/diskcache.cpp:208-278 | one call evicts from the directory whose turn it is and from no other, sets the throttle and moves on; after a throw the directory is next again and nothing is injected |
| Eviction.Evictor.EachDirectoryOnce | exe/fs123p7/diskcache.cpp:239-243 | any Ndirs successful calls in a row, whatever failures come between them, evict from each directory exactly once |
| Ring.MapsAreAFunctionOfLive | exe/fs123p7/distrib_cache_backend.hpp:217-223 | two histories with the same live peers have the same ring and url index |
| Ring.LiveIsAFunctionOfMaps | exe/fs123p7/distrib_cache_backend.hpp:217-223 | the ring and index determine the live peers |
| Ring.InsertKeeps | exe/fs123p7/distrib_cache_backend.hpp:240-276 | inserting a peer whose url is free, or replacing one, gives the ring and index of the new peer set |
| Ring.InsertKeepsExactly | exe/fs123p7/distrib_cache_backend.hpp:240-276 | and only then: otherwise no peer set accounts for the maps |
| Ring.KnownUrlOrphansPoints | exe/fs123p7/distrib_cache_backend.hpp:240-312 | a known url inserted under another uuid leaves points that no url can remove |
| Ring.RemoveKeeps | exe/fs123p7/distrib_cache_backend.hpp:278-312 | removing a url gives the ring and index without its peer |
| Ring.InsertThenRemoveRestores | exe/fs123p7/distrib_cache_backend.hpp:240-312 | insert followed by remove restores both maps |
| Ring.PeerMap.InsertPeer | exe/fs123p7/distrib_cache_backend.hpp:240-276 | the loop over the points writes exactly the points of the uuid, and drops the replaced peer's url |
| Ring.PeerMap.RemoveUrl | exe/fs123p7/distrib_cache_backend.hpp:278-312 | the loop erases exactly the points of the url's uuid |
| Ring.PeerMap.Lookup | exe/fs123p7/distrib_cache_backend.hpp:319-328 | the peer at the first point strictly after the key's hash, wrapping around; a throw only if the ring is empty |
| Ring.PeerMap.LookupPeerUrl | exe/fs123p7/distrib_cache_backend.hpp:330-341 | the live peer of that url, if and only if there is one |
| Ring.OwnerIsUnique | exe/fs123p7/distrib_cache_backend.hpp:319-328 | a key has one owner among given members |
| Ring.JoinMovesOnlyToTheNewcomer | exe/fs123p7/distrib_cache_backend.hpp:247-260 | when a peer joins a key stays or moves to that peer |
| Ring.LeaveMovesOnlyItsOwn | exe/fs123p7/distrib_cache_backend.hpp:290-296 | when a peer leaves only its keys move |
| Peers.Backend.constructor | exe/fs123p7/distrib_cache_backend.cpp:345-346 | a node starts with itself as the only member |
| Peers.Backend.PresentCheck | exe/fs123p7/distrib_cache_backend.cpp:539-547 | the method pursues a url as the step function says |
| Peers.Backend.PresentInsert | exe/fs123p7/distrib_cache_backend.cpp:549-578 | the method admits the peer that answers as the step function says, whatever was removed meanwhile |
| Peers.Backend.Absent | exe/fs123p7/distrib_cache_backend.cpp:580-588 | the url's member goes, never ourselves |
| Peers.Backend.PeerError | exe/fs123p7/distrib_cache_backend.cpp:590-605 | the failed peer's url goes, never ourselves, though the peer was looked up long ago |
| Peers.Backend.Route | exe/fs123p7/distrib_cache_backend.cpp:519-524 | a lookup never throws and finds the member that owns the key |
| Peers.EveryRunIsIndexed | exe/fs123p7/distrib_cache_backend.cpp:519-605 | after every history the maps are exactly those of the members, we are one of them, and each key is routed to the member that owns it |
| Peers.HistoriesDoNotMatter | exe/fs123p7/distrib_cache_backend.hpp:217-223 | two histories that leave the same member uuids route every key to the same uuid; with the same members the maps are the same |
| Peers.SameMembersSameRoute | exe/fs123p7/distrib_cache_backend.cpp:519-524 | two nodes with the same members route every key to the same one, its owner |
| Peers.Run | exe/fs123p7/distrib_cache_backend.cpp:519-605 | the node's state after any events is the fold of the events, and every request goes where the state before it says |
| Members.PresentExactly | exe/fs123p7/distrib_cache_backend.cpp:539-547 | a url is pursued if and only if no member has it and nothing else is pursued |
| Members.AnswerAdmits | exe/fs123p7/distrib_cache_backend.cpp:549-578 | the peer that answers is a member under the url that was pursued, and all other members stay |
| Members.DropsExactly | exe/fs123p7/distrib_cache_backend.cpp:580-605 | an absence, or a failure of a peer that is held, takes away exactly the members of its url |
| Members.RequestHolds | exe/fs123p7/distrib_cache_backend.cpp:519-524 | a request holds the peer it is routed to |
| Members.MembersExactly | exe/fs123p7/distrib_cache_backend.cpp:519-605 | in every run another node is a member if and only if its last admission has not been followed by a removal of its url |
| Members.AdmittedIsRouted | exe/fs123p7/distrib_cache_backend.cpp:519-578 | once a peer is presented and admitted, the keys that it owns among the members go to it |
| Validators.NeverDecreases | exe/fs123p7/exportd_handler.cpp:345-384 | later observations never give smaller validators |
| Validators.IncreasesExactly | exe/fs123p7/exportd_handler.cpp:345-384 | a later one is greater if and only if the mtime it sees is beyond the earlier validator |
| Validators.WritesAreSeen | exe/fs123p7/exportd_handler.cpp:345-384 | a write between two observations separates them if its mtime lags by no more than twice the granularity |
| Validators.SlowMtimeHidesAWrite | exe/fs123p7/exportd_handler.cpp:345-384 | one nanosecond more and it may not |
| Validators.SameValidatorSameVersion | exe/fs123p7/exportd_handler.cpp:345-384 | equal validators mean that nothing was written in between |
| Validators.SettlesAtMtime | exe/fs123p7/exportd_handler.cpp:345-384 | once the mtime is twice the granularity old the validator is the mtime |
| Inomap.RememberKeeps | exe/fs123p7/inomap.cpp:157-171 | a lookup by a kernel that keeps its side never throws, keeps the map sound and gives the ino the path it was looked up by |
| Inomap.ForgetKeeps | exe/fs123p7/inomap.cpp:173-191 | so does a forget, and the entry goes with the last lookup |
| Inomap.EntryExistsExactly | exe/fs123p7/inomap.cpp:157-191 | after any lookups, forgets and validator updates by a kernel that keeps its side, an entry exists if and only if lookups exceed forgets, and counts the difference |
| Inomap.ForgottenExactly | exe/fs123p7/inomap.cpp:173-191 | a forget of any number takes it off the count, removes the record at zero or below, and touches no other |
| Inomap.FullNameIsPath | exe/fs123p7/inomap.cpp:92-101 | the recursion ends and gives the recorded path, whichever ranks show that it ends |
| Inomap.FullNameInRun | exe/fs123p7/inomap.cpp:92-101 | in every reachable state the recursion gives the path that the ino was last looked up by |
| Inomap.Replay | exe/fs123p7/inomap.cpp:134-191 | the map after any such calls holds the records of which the two theorems speak |
| Inomap.InoMap.Remember | exe/fs123p7/inomap.cpp:157-171 | a new record or one more reference; a throw if and only if the name differs |
| Inomap.InoMap.Forget | exe/fs123p7/inomap.cpp:173-191 | fewer references, clamped at zero, and none means no record |
| Inomap.InoMap.FullName | exe/fs123p7/inomap.cpp:92-101 | the recursive method ends and computes that recursion |
| Inomap.InoMap.FullNameValidator | exe/fs123p7/inomap.cpp:110-117 | that path and the recorded validator; the root's is 1 |
| Inomap.InoMap.UpdateValidator | exe/fs123p7/inomap.cpp:134-148 | a validator is recorded unless it is out of order, which throws and changes nothing |
| Coherence.SetTracks | exe/fs123p7/inomap.cpp:134-148 | the record is the greatest validator set since the ino was remembered |
| Coherence.Mount.Lookup | exe/fs123p7/app_mount.cpp:1290-1301 | a lookup keeps history coherent |
| Coherence.Mount.Forget | exe/fs123p7/app_mount.cpp:1975-1979 | so does a forget |
| Coherence.Mount.OpenAttempt | exe/fs123p7/app_mount.cpp:1747-1783 | an open succeeds if and only if its validator is not older than the record, leaves the record equal to it, and retries once |
| Coherence.Mount.Scan | exe/fs123p7/openfilemap.cpp:196-235 | the open-file scan records what is not out of order, and tells the kernel to drop its pages unless the validator is the one recorded |
| Coherence.Mount.ReadBegin | exe/fs123p7/app_mount.cpp:1846-1848 | a read notes the record, and the length of history, when it begins |
| Coherence.Mount.Chunk | exe/fs123p7/app_mount.cpp:1854-1890 | a chunk is accepted if and only if it, or the no-cache retry, is not older than the note |
| Coherence.Mount.ReadEnd | exe/fs123p7/app_mount.cpp:1854-1946 | a read returns one or two accepted chunks, or nothing if one is refused |
| Coherence.EveryRunIsCoherent | exe/fs123p7/app_mount.cpp:1747-1946 | in every interleaving validators never go back while an ino is remembered, keep_cache is true exactly when the open's validator had been recorded, and no chunk is older than what was recorded before its read began |
| CloseToOpen.OpensExactly | exe/fs123p7/app_mount.cpp:1747-1783 | an answered open succeeds if and only if nothing greater has been set since the ino was remembered, and then records its validator; otherwise it is to retry, once |
| CloseToOpen.ScansExactly | exe/fs123p7/openfilemap.cpp:196-235 | a scan records a validator if and only if nothing greater has been set |
| CloseToOpen.LookupsExactly | exe/fs123p7/inomap.cpp:157-191 | a lookup sets the validator of an ino that it first remembers and no other; history drops an ino exactly with its record |
| CloseToOpen.ChunksExactly | exe/fs123p7/app_mount.cpp:1854-1890 | a read has its one or two chunks if and only if for each the first reply, or else the no-cache one, is not older than what it noted |
| CloseToOpen.ReadsBeginExactly | exe/fs123p7/app_mount.cpp:1846-1848 | a read notes the record of an ino that is remembered, and fails for any other |
| CloseToOpen.ReadsSeeOpens | exe/fs123p7/app_mount.cpp:1747-1946 | over the events of any run: a read that begins after a successful open of a remembered ino returns nothing older than that open, and history says when it began |
| Coherence.Run | exe/fs123p7/app_mount.cpp:1747-1946 | the mount's records, retries, reads and history after any events are the fold of the events |
| Coherence.ReadsAreCloseToOpen | exe/fs123p7/app_mount.cpp:1846-1946 | no chunk is older than an open completed before the read began |
| Coherence.ReadsMissNoWrite | exe/fs123p7/app_mount.cpp:1846-1946 | so no chunk misses a write to the file that the server had seen when it answered that open |
| Coherence.KeepCacheMeansUnwritten | exe/fs123p7/app_mount.cpp:1750-1785 | keep_cache means that the file was not written between the server's two observations |
| FileRead.Read | exe/fs123p7/app_mount.cpp:1836-1946 | the one or two pieces are exactly the bytes asked for, as far as the file goes; they split at the chunk boundary |
| FileRead.ServesChunk | lib/fs123server.cpp:666-687 | the chunk requests address the bytes that the read needs |
| FileRead.ServeExactly | lib/fs123server.cpp:666-687 | the server refuses exactly what is beyond its limits, and gives the bytes of the file that are there |
| Secretbox.PaddedLength | lib/content_codec.cpp:172-190 | padding makes the length the next multiple of the alignment, with a 2 after the text and then zeros |
| Secretbox.NetworkOrder | include/fs123/content_codec.hpp:26-46 | the header's size has its most significant byte first |
| Secretbox.HeaderParts | include/fs123/content_codec.hpp:23-46 | where nonce, size, id length and id stand in the header, and the record after it |
| Secretbox.OpensExactly | lib/content_codec.cpp:107-137 | which headers and keys are refused before the record is opened, and what it is opened with |
| Secretbox.RoundTrip | lib/content_codec.cpp:113-231 | decoding an encoded text gives the text, for all bytes, ids and alignments, exactly when the record's size fits 32 bits |
| Secretbox.Encode | lib/content_codec.cpp:153-231 | encoding throws exactly when a key, an id or room is wanting; otherwise the box holds the message around the text and is unchanged elsewhere |
| Secretbox.Decode | lib/content_codec.cpp:82-151 | decoding succeeds exactly for authentic, well-padded messages, and says what becomes of the box |
| Secretbox.UnchangedExactly | include/fs123/content_codec.hpp:82-86 | a decode leaves the box as it was if and only if the record does not open or already stands open; with an id of less than 16 bytes, only if it does not open |
| Secretbox.BadPaddingChangesTheBox | lib/content_codec.cpp:139-144 | zeros sealed under a known key make decode throw after the message has been overwritten |
| Secretbox.Scan | lib/content_codec.cpp:139-144 | the walk back over the pad bytes finds the text's end |
| Secretbox.EncodeThenDecode | lib/content_codec.cpp:82-231 | what encode leaves in a box decodes, and decoding it in that box leaves the text exactly where it was |
| RulesCache.RuleCache.Lookup | core123/include/core123/expiring.hpp:159-173 | an expired entry is erased, not served |
| RulesCache.RuleCache.Insert | core123/include/core123/expiring.hpp:174-182 | an entry that is there stays, and a full cache loses some entries, perhaps the new one |
| RulesCache.StoredExactly | core123/include/core123/expiring.hpp:174-182 | only an insertion into a full cache evicts, and all else stays |
| RulesCache.ParentExactly | exe/fs123p7/exportd_cc_rules.cpp:130 | the parent is what stands before the last slash, or nothing |
| RulesCache.RuleCache.GetRules | exe/fs123p7/exportd_cc_rules.cpp:91-132 | an entry that is good is returned as it is; otherwise the file's rules with that file's own expiry, or the parent's; the result is unexpired, or read in this call, or the fallback; and it is cached at that level unless another thread's is, or it is evicted |
| RulesCache.RuleCache.GetCc | exe/fs123p7/exportd_cc_rules.cpp:143-153 | the first matching rule decides, else the default |
| RulesCache.JustifiedIsTheSearch | exe/fs123p7/exportd_cc_rules.cpp:91-132 | while no file changes, caching returns what the uncached search finds |
| RulesCache.SearchIsNearest | exe/fs123p7/exportd_cc_rules.cpp:91-132 | which is the nearest directory up the path with a good file, or the fallback |
| RulesCache.Run | exe/fs123p7/exportd_cc_rules.cpp:91-132 | over any calls, with any insertions and evictions by others, every result is justified, and unexpired at its call, or read in it, or the fallback |
| Urls.UrlEscape | core123/include/core123/strutils.hpp:107-125 | the loop escapes character by character |
| Urls.UrlUnescape | core123/include/core123/strutils.hpp:127-153 | the loop decodes or throws |
| Urls.MalformedThrows | core123/include/core123/strutils.hpp:127-153 | a percent sign that is no escape throws |
| Urls.DecodeEscape | core123/include/core123/strutils.hpp:107-153 | both decoders undo the escaping of any bytes, whatever follows |
| Urls.DecodeBeforeNonHex | lib/fs123server.cpp:483-486 | no escape reaches over a slash or a question mark |
| Urls.EscapedIsSafe | core123/include/core123/strutils.hpp:107-125 | escaped text has no character that means something in a url |
| Requests.StemParts | exe/fs123p7/backend123.cpp:41-101 | every request is a function letter, an escaped name and its query |
| Requests.SomeRequests | exe/fs123p7/backend123.cpp:41-101 | the text of requests, by example |
| Requests.AddSigilExactly | exe/fs123p7/backend123.cpp:32-40 | the sigil and version are added unless the prefix has a component "/fs123" |
| Requests.SigilIsFirst | lib/fs123server.cpp:504-507 | the first sigil found is the client's if and only if the decoded prefix has none |
| Requests.AcceptedHasNoSigil | exe/fs123p7/backend123.cpp:32-40 | a prefix that add_sigil_version accepts has none in its own text |
| Requests.EscapedSigilIsAccepted | exe/fs123p7/backend123.cpp:32-40 | but one may be hidden in an escape |
| Requests.ParsedPath | lib/fs123server.cpp:504-534 | the server recovers selector, function and path |
| Requests.ValidPathExactly | lib/fs123server.cpp:174-195 | a path is refused if and only if it is not empty and lacks its slash, has a NUL, or has a component ".." |
| Requests.AcceptedWithinLimits | lib/fs123server.cpp:504-717 | whatever the target, only six functions are accepted, paths that do not climb, and lengths and offsets within the limits |
| Requests.AcceptedVersions | lib/fs123server.cpp:504-515 | and only minor versions 2 and 3 |
| Requests.DirQuery | lib/fs123server.cpp:621-665 | the length and start of a directory request come back; a nonzero cachetag comes back as the end of the start |
| Requests.FileQuery | lib/fs123server.cpp:666-687 | the length and offset of a file request come back, with or without a cachetag |
| Requests.XattrQuery | lib/fs123server.cpp:694-717 | the length and name of an attribute request come back |
| Requests.RoundTrip | lib/fs123server.cpp:476-717 | the server reads a request back as it was sent if and only if the base url has no question mark, no fragment and, decoded, no NUL and no sigil, and the path does not climb; a path that climbs is refused |
| Requests.PlainRoundTrip | exe/fs123p7/backend123.cpp:32-101 | for base urls without escapes, if and only if they have no question mark, fragment or NUL and the path does not climb |

## Left out

- Reply73.Decode: a netstring length so near 2^64 that its offset would wrap is a failure in the model.
- Reply73.RoundTrip: covers protocol 7.3; the 7.2 headers are not modelled, here or anywhere else.
- DiskRecord.AnyPrefix: the url at the end of a cache file is written but its check is not modelled, since refresh never asks for it.
- DiskProtocol.RunKeeps: the steps are atomic, as the system calls are; time and the order of threads are not modelled.
- DiskRefresh.EveryRunIsRight: a call is one step; what other threads store between its two readings of the file, or between its reading and its exchange, is found only by later calls. The clock may step back.
- DiskFiles.ReadersFindGenuineReplies: assumes that different urls hash to different cache paths.
- DiskRefresh.DiskCache.MaybeBackground: the suppressor's answer is a parameter; `Suppress` proves what it is.
- Suppress.RefusedExactly: assumes that times do not decrease in lock order; the source reads the clock before it takes the lock.
- Eviction.Evictor.EvictOnce: exact arithmetic on reals instead of floats, for limits that are positive and a throttle mark below one.
- Eviction.Evict: randomness is an arbitrary pick in the range that the source asks for.
- Ring.PeerMap.InsertPeer: the third map, uuid_to_peer, which only feeds reports, is not modelled.
- Validators.MonotonicValidator: clocks are assumed to be in the range where the 64-bit subtraction does not wrap.
- Inomap.InoMap.Remember: reference counts are unbounded integers; the source has 31 bits.
- Inomap.InoMap.UpdateValidator: is not asked about the root, as in the source.
- Coherence.Mount.OpenAttempt: the attribute cache and the estale cookie check come before the validator is seen, and are part of the arbitrary reply.
- Readdir.DirHandle.Read: the inode numbers of entries, which only fill in st_ino, and the estale check are not modelled.
- Secretbox.Decode: for a record without text the source looks at the byte after the message; where that is past the box it is a parameter.
- Secretbox.Encode: the nonce, random or derived, is a parameter; only the key-length check of the derived one is modelled.
- Requests.ParseTarget: all error statuses are one; the functions `/n`, `/p` and the encrypted `/e` are not modelled.
- Requests.RoundTrip: the scheme and host of a base url, which the server does not see, are not modelled.
- RulesCache.RuleCache.GetRules: regular expressions and JSON are abstract; a rules file is absent, corrupt or good.
- Cryptography, threeroe hashing and regular expressions: abstract functions with the hypotheses named in the contracts.
- libevent, libcurl, FUSE, sockets, threads' scheduling, mounting, options, statistics and diagnostics.
- Secret management, shared key directories, the UDP packet format and the reflector.
