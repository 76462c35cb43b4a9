# A verified model of JoeDLNA

JoeDLNA turns configured media directories into an immutable catalog, serves that catalog to UPnP
clients, and tells subscribers when it changes. This project models its five state-bearing parts in
Dafny and proves what they are for:

- **Catalog building** (`FileSystem`, `Traversal`, `Visibility`, `Following`, `LinkOrder`, `Shares`,
  `Reading`, `ShareOrder`, `CatalogSpec`, `CatalogBuilder`, `Settling`, `Scan`, `Published`,
  `Listing`, `AliasExample`, `CycleExample`, `Fingerprints`, `StreamReader`, `Identity`, `Fnv`,
  `Utf8`, `Entries`, `Ordering`, `ShareValidation`, `Accepted`). A class holds the catalog under
  construction. The walk with its stack and visited set is proved to find exactly what a recursion
  over the directory tree finds, or, with links followed, exactly what a given list of visits finds.
  From this follow independence of listing order and share order (with links, exactly when that
  holds), the tree invariant of the index, conservation by the settle guard, and termination on
  cyclic links. File names and paths are byte strings; identifiers and fingerprints are computed
  with 64-bit FNV-1a on explicit integers.
- **Subscriptions** (`Events`, `Protocol`, `Delivery`, `Leases`). The subscription table is a class
  whose methods are proved against functions on tables. A state machine built from the same
  functions interleaves subscribers, the scanner, renewals, cancellations and time in every possible
  way; what it logs is what is sent.
- **The scanner loop** (`Scanner`, `Deadlines`). The loop over deadlines is proved against a step
  function, and statements about whole runs are proved about that function. Time only grows.
- **Browse** (`Xml`, `Didl`, `Browse`, `BrowsePages`, `BrowseAnswers`, `Filters`, `Soap`, `LineEnds`,
  `Numbers`). Building the answer is proved against a description of the chosen objects; a reader of
  this DIDL-Lite dialect recovers the description from the SOAP response through both layers of
  escaping, and so does one that normalises line ends, up to carriage returns.
- **Byte ranges and bookmarks** (`Ranges`, `Bookmarks`, `DroppedCalls`).

Methods are proved against specification functions. `Published`, `Listing`, `StreamReader`,
`Deadlines`, `BrowseAnswers`, `Filters`, `Delivery` and `Leases` then say what results mean in terms
of the configuration, the file system, the arguments and the clock alone, without those functions.

`Prelude` holds shared types and facts. Each module is one file; `dafny verify dfyconfig.toml`
checks them all.

Two conventions. Methods that change a catalog carry a ghost multiset of the entries inserted so
far, so that "the same entries in whatever order" is an equality. `Files` is what the file-system
calls answer during one scan: arbitrary functions for resolving, inspecting and listing, of which
only finiteness is assumed (boundedly many real directories, none of them a link, follow one another
on a path, and canonical paths come from a finite set). Paths may wind through cyclic links without
end; `CycleExample` is such a tree.

Where the code and its documentation differ, the model follows the code:

- `docs/architecture.md` line 21 calls update identifiers deterministic fingerprints. With links
  followed this needs a condition. `LinkOrder.OrderFreeIffUnambiguous`, `Shares.ShareOrderFreeIff`
  and `ShareOrder.SharesOrderFreeIff` say exactly which, and `AliasExample.TwoNamesTwoCatalogs`
  gives a tree for which two scans succeed with different catalogs.
- `docs/protocol-research.md` line 57 says that a new subscriber is immediately sent state number
  zero. The code numbers that message ten milliseconds after reading the catalog, so a change may
  be numbered first: `Protocol.InitialMessageMayComeLate`. `Protocol.InitialMessageIsZeroIff` says
  exactly when the initial message is number zero, and `Protocol.LastMessageIsCurrent` exactly when
  the last message is up to date.
- RFC 9110 lets the unit of a byte range be spelled in any case (section 14.1), puts no bound on
  its numbers and allows no sign (14.1.1 and 14.1.2), and has an unknown unit ignored (14.2). The
  code refuses `Bytes` with status 416, and numbers beyond 64 bits, accepts a plus sign, and answers
  an unknown unit with status 416: `Ranges.AgreesExactlyWhen`, `Ranges.CapitalUnitIsRefused`,
  `Ranges.WideRangeIsRefused`, `Ranges.AcceptedIsAllowedIff`, `Ranges.SignIsAccepted`,
  `Ranges.OtherUnitIsRefused`.

One promise of the code holds only with a condition. Writing a temporary file and renaming it keeps
the bookmarks consistent through failures and crashes, but a request may be dropped when its client
disconnects: the lock is then released while the blocking write goes on. `DroppedCalls` says exactly
when the file stays consistent and gives a run in which it does not.

## Model

| member | source | states |
|---|---|---|
| Fnv.ExtendHash | crates/joedlna-core/src/catalog.rs:397-401 | the loop computes the left fold of FNV-1a steps over the bytes |
| Fnv.HashValue | crates/joedlna-core/src/catalog.rs:392-395 | a field is hashed as its bytes followed by 0xff |
| Fnv.StepBijective | crates/joedlna-core/src/catalog.rs:397-401 | for every byte, a hash step is a bijection on 64-bit states, with its inverse given |
| Fnv.StepSeparatesBytes | crates/joedlna-core/src/catalog.rs:397-401 | from one state, different bytes lead to different states |
| Fnv.ExtendedInjective | crates/joedlna-core/src/catalog.rs:397-401 | common suffixes cancel: after the same bytes two states agree exactly when they agreed before |
| Fnv.OneByteChangesHash | crates/joedlna-core/src/catalog.rs:397-401 | byte strings of one length that differ in one byte never hash alike |
| Fnv.PublishedHashes | crates/joedlna-core/src/catalog.rs:379-401 | the hashes of the empty string, of "a" and of "foobar" are those published for 64-bit FNV-1a |
| Fnv.LittleEndianDenotes | crates/joedlna-core/src/catalog.rs:328-329 | the eight bytes hashed for a number denote it, least significant first |
| Fnv.FoldedBits | crates/joedlna-core/src/catalog.rs:403-405 | each bit of an update identifier is the parity of the two bits of the hash, 32 apart, that meet there |
| Fnv.FoldSeparates | crates/joedlna-core/src/catalog.rs:403-405 | a hash below 2^32 is its own identifier; hashes that agree in one half and differ in the other have different identifiers |
| Utf8.CharReads | crates/joedlna-core/src/catalog.rs:325-327 | a character is hashed and compared as the one to four bytes that carry its code point (RFC 3629, section 3) |
| Utf8.OrderedByCodePoints | crates/joedlna-core/src/catalog.rs:312-315 | comparing strings by their bytes is comparing them by code points: the smaller character at the first difference, or the shorter string, comes first |
| Identity.ObjectIdParts | crates/joedlna-core/src/catalog.rs:374-377 | identifiers agree exactly when kind letter, root hash and path hash all agree |
| Identity.ObjectIdReads | crates/joedlna-core/src/catalog.rs:374-390 | from an identifier the kind letter, the hash of the root and the hash of the path are read back as sixteen lower-case digits each |
| Identity.JoinedReads | crates/joedlna-core/src/catalog.rs:226-226 | the bytes hashed for a path, split at slashes, are its names |
| Identity.OneByteChangesId | crates/joedlna-core/src/catalog.rs:374-390 | equal-length relative paths differing in one byte never share an identifier |
| Identity.SameNameCollidesWithDirectory | crates/joedlna-core/src/catalog.rs:374-401 | same-named files in two directories below a share root collide exactly when the two directories do |
| FileSystem.LastDot | crates/joedlna-core/src/catalog.rs:269-271 | the dot that ends the file stem is the last one, or there is none |
| Traversal.VerdictMeans | crates/joedlna-core/src/catalog.rs:217-283 | exactly which items of a listing are entered, added, withheld and skipped, told from name, metadata, options and media kind; what the entry is titled, and its kind, size and date |
| FileSystem.SettledMeans | crates/joedlna-core/src/catalog.rs:365-372 | a file is settled exactly when there is no minimum age or its date is known and at least that many nanoseconds back |
| FileSystem.StemMeans | crates/joedlna-core/src/catalog.rs:269-271 | the stem is all before the last dot, or the whole name when only its first character may be one |
| Traversal.ExploreOrderFree | crates/joedlna-core/src/catalog.rs:192-285 | without links, what lies below a directory does not depend on the order of any listing |
| Reading.ContentsExactly | crates/joedlna-core/src/catalog.rs:192-285 | links followed or not, an entry is found (or withheld) exactly when its directory is read, its item is listed there, and the item is accepted (or too young) |
| Reading.PathDeterminesEntry | crates/joedlna-core/src/catalog.rs:192-285 | within one share a path yields at most one entry, links followed or not |
| Reading.ReadInEveryOrderIff | crates/joedlna-core/src/catalog.rs:192-208 | a directory is read under a name in every order of listings exactly when it can be reached by that name without entering a directory twice and no directory on the way has another name |
| Reading.FoundInEveryOrderIff | crates/joedlna-core/src/catalog.rs:192-285 | an entry is found in every order exactly when its directory is so read, lists it, and its item is accepted |
| Reading.WithheldIsPublishedLater | crates/joedlna-core/src/catalog.rs:260-267 | a withheld file with fixed metadata is found by a walk whose clock is the settle time later exactly when that walk reads its directory and the file is listed there, whatever else changed |
| Reading.WithheldIsPublishedInEveryOrder | crates/joedlna-core/src/catalog.rs:260-267 | and whatever the order of listings exactly when its directory is read in every order |
| Following.EachReadOnce | crates/joedlna-core/src/catalog.rs:193-208 | with links followed, however cyclic, no directory is read twice or under two names |
| Following.ReadOnlyFound | crates/joedlna-core/src/catalog.rs:192-208 | only directories from the stack or found in a directory that was read are read |
| Following.EverythingCovered | crates/joedlna-core/src/catalog.rs:192-208 | every directory found is read under some name, was read before, or cannot be resolved |
| LinkOrder.ReadIsSimple | crates/joedlna-core/src/catalog.rs:192-259 | every directory read is reached from the share root by listed, entered directories that were all read and are pairwise different |
| LinkOrder.UnambiguousIsOrderFree | crates/joedlna-core/src/catalog.rs:192-208 | if no directory that adds anything has two names, the order of listings does not change what is found |
| LinkOrder.AmbiguousDependsOnOrder | crates/joedlna-core/src/catalog.rs:196-201 | if one has two names, two orders of the same listings find different things |
| LinkOrder.OrderFreeIffUnambiguous | crates/joedlna-core/src/catalog.rs:192-208 | hence order does not matter to a walk with links exactly when no directory that adds anything has two names reachable without entering a directory twice |
| AliasExample.TreeIsConsistent | crates/joedlna-core/src/catalog.rs:193-224 | the tree of the example answers like a file system: resolving is idempotent, a path looks like what it resolves to, and directories list exactly what exists below them |
| AliasExample.TwoNamesTwoCatalogs | crates/joedlna-core/src/catalog.rs:196-201 | a directory with one song, and a link beside it: for the two orders of the listing every scan succeeds, and the catalogs differ |
| CycleExample.CycleIsConsistent | crates/joedlna-core/src/catalog.rs:193-224 | a directory with a link back to the share above it answers like a file system, on paths that wind through the link as well |
| CycleExample.CycleIsFinite | crates/joedlna-core/src/catalog.rs:193-208 | the cyclic tree is finite in the sense assumed of all file systems here, |
| CycleExample.DirectoriesAtEveryLength | crates/joedlna-core/src/catalog.rs:193-208 | although it has paths of every length that end in a real directory, |
| CycleExample.CycleIsReadOnce | crates/joedlna-core/src/catalog.rs:193-208 | and the walk that follows links ends: it reads each of the two directories once and finds the link as a container |
| Shares.ShareOrderFreeIff | crates/joedlna-core/src/catalog.rs:159-287 | the order of listings never changes what a share holds exactly when links are off, the share does not resolve, or it has no such directory |
| Shares.FoundIsOrderFree | crates/joedlna-core/src/catalog.rs:95-103 | what all shares hold does not depend on listing order or on the order of the shares |
| ShareOrder.SharesOrderFreeIff | crates/joedlna-core/src/catalog.rs:95-103 | the order of listings never changes what all shares hold together exactly when some share does not resolve, links are off, or no share has such a directory |
| Settling.GuardConserves | crates/joedlna-core/src/catalog.rs:81-110 | an unguarded scan finds exactly what the guarded one finds together with what it withholds, links followed or not |
| CatalogSpec.InsertKeepsLinked | crates/joedlna-core/src/catalog.rs:296-303 | inserting a fresh entry keeps the child lists in step with the parent links: keys are the root and the containers, lists are duplicate-free and complete |
| CatalogSpec.InsertKeepsRooted | crates/joedlna-core/src/catalog.rs:289-305 | and keeps the parent links a tree: every entry reaches "0", and no entry is called "0" |
| CatalogSpec.SortOneList | crates/joedlna-core/src/catalog.rs:307-318 | sorting one child list finds every identifier in the index, keeps the links and puts that list in order |
| CatalogSpec.CatalogDetermined | crates/joedlna-core/src/catalog.rs:89-110 | the entries alone determine the whole catalog: index, child lists, update identifier, counts and bytes |
| CatalogSpec.SameContentIsSameCatalog | crates/joedlna-core/src/catalog.rs:155-157 | for scan-produced catalogs `has_same_content` holds exactly for equal catalogs, so update identifiers, per-container ones, file count and bytes agree |
| CatalogBuilder.Catalog.Empty | crates/joedlna-core/src/catalog.rs:71-79 | the empty catalog has only the root's empty child list and holds no entries |
| CatalogBuilder.Catalog.InsertEntry | crates/joedlna-core/src/catalog.rs:289-305 | succeeds exactly for an unused identifier and then indexes and links the entry; a collision changes nothing and names both paths |
| CatalogBuilder.Catalog.Accept | crates/joedlna-core/src/catalog.rs:269-283 | file count is the number of media entries and total bytes the saturated sum of sizes, kept by every insertion |
| CatalogBuilder.Catalog.VisitDirectory | crates/joedlna-core/src/catalog.rs:216-284 | one listing: entries inserted, files withheld and directories stacked are exactly those of its items in order; a failure means that the two paths it names have one identifier |
| CatalogBuilder.Catalog.Drain | crates/joedlna-core/src/catalog.rs:192-285 | the stack loop ends, and finds exactly what the tree recursion (links off) or the list of visits (links on) finds |
| CatalogBuilder.Catalog.ScanShare | crates/joedlna-core/src/catalog.rs:159-287 | adds exactly the entries of the share, or fails because it does not resolve, naming share and path, or because two entries at the paths named have one identifier |
| CatalogBuilder.Catalog.SortChildren | crates/joedlna-core/src/catalog.rs:307-318 | every child list ends up in order, with the same members |
| CatalogBuilder.Catalog.Values | crates/joedlna-core/src/catalog.rs:321-321 | enumerating the index yields every entry once, in an order of its own |
| CatalogBuilder.Catalog.ContentFingerprint | crates/joedlna-core/src/catalog.rs:320-332 | whatever order the index yields its entries in, the identifier that `StreamReader.CatalogIdCovers` describes |
| CatalogBuilder.Catalog.ObjectUpdateId | crates/joedlna-core/src/catalog.rs:130-145 | the identifier that `StreamReader.ObjectIdCovers` describes for a container, and that of the catalog for anything else |
| CatalogBuilder.HashEntries | crates/joedlna-core/src/catalog.rs:320-331 | the loop hashes the concatenated byte stream of the entries |
| CatalogBuilder.HashEntry | crates/joedlna-core/src/catalog.rs:325-329 | the five field hashes amount to hashing one byte string |
| Scan.ScanWithMinimumAge | crates/joedlna-core/src/catalog.rs:89-110 | succeeds exactly when every share resolves and no identifier occurs twice among all entries there are; the result is then the catalog of exactly these entries and the number of withheld files; a failure names the first share that does not resolve, or the paths of two entries with one identifier in the shares so far |
| Scan.ScanIsOrderFree | crates/joedlna-core/src/catalog.rs:89-110 | two scans of the same files that differ in listing order and share order give equal results or both fail, unless links lead to a directory with two names |
| Scan.AliasedScansDiffer | crates/joedlna-core/src/catalog.rs:89-110 | the converse: if all shares resolve and a directory with two names holds an entry, there are two orders for which no two successful scans have equal entries |
| Scan.ScannedCatalogIsTree | crates/joedlna-core/src/catalog.rs:89-124 | every catalog a scan produces is a tree below "0" in which every lookup in `sort_children` and `children` succeeds |
| Published.PublishedEntryMeans | crates/joedlna-core/src/catalog.rs:159-287 | every entry of a scanned catalog is the folder of a share or something listed in a directory of one, filed under that directory's entry, with the title, size and date of what is there, by the recursion, link and hidden-name settings of the configuration |
| Published.PublishedIdMeans | crates/joedlna-core/src/catalog.rs:172-173 | its identifier hashes the names of the share's directory and those below it, with `d` for folders and `f` for files |
| Published.EveryShareIsPublished | crates/joedlna-core/src/catalog.rs:167-188 | a scan succeeds only if every share resolves, and each then has its folder below "0", with its name |
| Published.PublishedFileIsOld | crates/joedlna-core/src/catalog.rs:264-267 | every published file is a regular file with its own size and, if there is a minimum age, a known date at least that far back |
| Published.FilePublishedIff | crates/joedlna-core/src/catalog.rs:260-267 | a wanted file listed in a directory that is read is published exactly when there is no minimum age or its date is known and not later than the clock minus that age; otherwise it is counted as withheld |
| Published.FolderIsPublished | crates/joedlna-core/src/catalog.rs:241-258 | a directory listed in one that is read is published when the scan is recursive and, links off, read in turn |
| Published.RootIsRead | crates/joedlna-core/src/catalog.rs:190-208 | links off, whatever the share's own directory lists is read |
| Listing.ChildrenInOrder | crates/joedlna-core/src/catalog.rs:307-318 | in every child list containers come before media, and in each group titles ascend by code point, equal titles by identifier |
| Listing.CountersMean | crates/joedlna-core/src/catalog.rs:272-273 | the file count is the number of media entries and total bytes the capped sum of all sizes, in whatever order the entries are listed |
| Scan.GuardedScanConserves | crates/joedlna-core/src/catalog.rs:81-110 | if the unguarded scan succeeds so does the guarded one; its catalog is the restriction with all containers kept, each child list is the full one without the withheld identifiers, in the same order, and files plus withheld files add up |
| Scan.SurelyIsRead | crates/joedlna-core/src/catalog.rs:192-208 | every scan of a share reads an item, whatever the order of listings, exactly when the file system alone makes sure of it: the item is listed, and no directory on the way has another name |
| Scan.PublishedMediaIsSettled | crates/joedlna-core/src/catalog.rs:260-282 | every published media file is a regular file that had reached the settle age, with its own size and date, links followed or not |
| Fingerprints.EntryReads | crates/joedlna-core/src/catalog.rs:324-330 | the bytes hashed for an entry determine its five fields and where the next entry begins, although numbers may contain 0xff |
| Fingerprints.StreamReads | crates/joedlna-core/src/catalog.rs:320-331 | the hashed stream determines the ordered list of fields |
| Fingerprints.SameStreamIffSameMetadata | crates/joedlna-core/src/catalog.rs:320-332 | two catalogs feed the same bytes to the hash exactly when they agree on every fingerprinted field |
| Fingerprints.SameObjectStreamIff | crates/joedlna-core/src/catalog.rs:130-145 | two scanned catalogs feed the same bytes to the hash for two containers exactly when these are the same container with the same children in the same order and the same hashed fields |
| StreamReader.CatalogIdCovers | crates/joedlna-core/src/catalog.rs:320-332 | the update identifier folds the hash of bytes in which a reader finds identifier, parent, title, date and size of every entry, identifiers ascending by code point |
| StreamReader.ObjectIdCovers | crates/joedlna-core/src/catalog.rs:130-145 | that of a container folds the hash of its own identifier and of identifier, title, date and size of every child, in listing order |
| StreamReader.UpdateIdsDiffer | crates/joedlna-core/src/catalog.rs:403-405 | update identifiers of catalogs and of containers differ whenever the two 64-bit hashes agree in one half and differ in the other |
| Ordering.SortDetermined | crates/joedlna-core/src/catalog.rs:307-318 | under a strict total order two sorted arrangements of the same elements are equal, so an unstable sort is deterministic |
| ShareValidation.ValidateShares | crates/joedlna-core/src/config.rs:122-182 | accepts exactly the lists of sound, pairwise compatible shares; the error is that of the first check that the first offending share fails, and names it and the first share it overlaps |
| ShareValidation.AcceptedExactly | crates/joedlna-core/src/config.rs:122-182 | which configurations that are, spelled out: names, categories, directories, and roots none of which is above another |
| ShareValidation.FindOverlap | crates/joedlna-core/src/config.rs:166-168 | finds the first accepted root that overlaps, if there is one |
| ShareValidation.FewerDistinct | crates/joedlna-core/src/config.rs:139-145 | comparing the sizes of list and set detects exactly the lists with a repeated category |
| ShareValidation.AcceptedRootsAreDisjoint | crates/joedlna-core/src/config.rs:166-178 | of two accepted shares neither root contains the other |
| ShareValidation.NoPathTwice | crates/joedlna-core/src/config.rs:166-178 | with accepted shares and the file system unchanged since, no path is in two entries of a successful scan, links followed or not |
| Accepted.AcceptedSharesResolve | crates/joedlna-core/src/config.rs:124-181 | a scan of an accepted configuration, the roots staying as they were, fails only by a collision of identifiers |
| Accepted.TopFoldersAreShares | crates/joedlna-core/src/config.rs:124-133 | at the top of its catalog are folders of shares only, with names that are not blank and differ by more than letter case |
| Events.TimeoutGranted | crates/joedlna-core/src/events.rs:293-299 | a number of seconds that can be read is granted within one second and one day; a request without a timeout, in other units, or with a number that cannot be read is granted half an hour |
| Events.SecondsRead | crates/joedlna-core/src/events.rs:293-299 | a number written in digits can be read exactly when it fits 64 bits |
| Events.EventManager.Subscribe | crates/joedlna-core/src/events.rs:76-130 | which requests are renewals, registrations and errors, which error, and the whole new table in each case |
| Events.EventManager.Unsubscribe | crates/joedlna-core/src/events.rs:132-151 | removes exactly a subscription of that SID and service, otherwise changes nothing and says why |
| Events.EventManager.NotifyInitial | crates/joedlna-core/src/events.rs:153-162 | numbers one message for a SID still present and advances only its counter |
| Events.EventManager.NotifyContentChanged | crates/joedlna-core/src/events.rs:164-177 | numbers exactly one message for each unexpired content subscription, prunes the expired ones and changes nothing else |
| Protocol.InvStep | crates/joedlna-core/src/events.rs:115-177 | every atomic step keeps numbering, no lost update, and what is known of the last message |
| Protocol.EveryRunKeepsUpdates | crates/joedlna-core/src/http.rs:344-368 | in every interleaving the current update identifier has been numbered for each content subscription, or a message carrying it is still to come, or the subscriber has yet to read the catalog |
| Protocol.EveryRunNumbersInOrder | crates/joedlna-core/src/events.rs:223-237 | the messages of a SID are numbered 0, then 1 to 2^32-1 in a cycle; zero never recurs (UPnP Device Architecture 1.0, section 4.2) |
| Protocol.LastMessageIsCurrent | crates/joedlna-core/src/http.rs:344-368 | at quiescence the last message carries the current identifier exactly when a change was numbered after the initial message or the identifier read is the current one; in particular if nothing was published between read and message |
| Protocol.DeadStaysDead | crates/joedlna-core/src/events.rs:90-106 | an expired or cancelled subscription is never revived, whatever happens later |
| Protocol.IdentityIsKept | crates/joedlna-core/src/events.rs:90-106 | renewals and notifications preserve service, callback and the messages already numbered |
| Leases.GrantedForExactly | crates/joedlna-core/src/events.rs:96-124 | a new subscription, and one renewed in time, lives for exactly the seconds granted, counted from then, whatever else happens |
| Leases.RefusedRenewal | crates/joedlna-core/src/events.rs:88-95 | a renewal that comes too late or names the other service gives nothing |
| Leases.CancelledIsSilent | crates/joedlna-core/src/events.rs:148-149 | a cancelled subscription is gone for ever and its log stays as it is |
| Delivery.AnnouncementCarries | crates/joedlna-core/src/events.rs:164-177 | every content subscription that has not expired, and nobody else, gets one message with the new identifier, to its callback and with its number |
| Delivery.AnnouncementIsLogged | crates/joedlna-core/src/events.rs:164-177 | the log of the protocol grows by exactly the numbers and identifiers sent |
| Delivery.Announcing | crates/joedlna-core/src/events.rs:164-177 | the method that announces takes the step of the protocol, table and log |
| Delivery.Numbering | crates/joedlna-core/src/events.rs:153-162 | so does the one that numbers the initial message, which carries the identifier read exactly for content subscriptions |
| Protocol.InitialMessageIsZeroIff | crates/joedlna-core/src/http.rs:361-370 | in every run the initial message is number zero exactly when no change was announced to that subscription before; always so for the connection manager |
| Protocol.CurrentButNotZero | crates/joedlna-core/src/http.rs:361-370 | a run in which nothing is out of date and the initial message is still number one |
| Protocol.InitialMessageMayComeLate | crates/joedlna-core/src/http.rs:361-370 | a run, for any two identifiers, in which the initial message is numbered one and leaves the subscriber with an outdated identifier |
| Scanner.RunScanner | crates/joedlna-core/src/http.rs:583-651 | the loop over its wake-ups reaches the state the step function describes |
| Scanner.ScansWaitForQuiet | crates/joedlna-core/src/http.rs:587-645 | when a scan starts, every relevant change and watcher error since the previous scan is at least the current settle time old |
| Scanner.ScanIsDueSoon | crates/joedlna-core/src/http.rs:583-613 | a scan is always scheduled, within the longer of settle time and rescan interval of the last change, error or scan end |
| Deadlines.FirstScanIsDue | crates/joedlna-core/src/http.rs:580-588 | the first scan is due the settle time or the rescan interval after the start, as the start-up scan calls for |
| Deadlines.NextScanIsDue | crates/joedlna-core/src/http.rs:583-650 | after each wake-up that rearms the timer the next scan is due exactly: settle time after a change, new settle time after a scan that withheld files, rescan interval in force after any other scan |
| Deadlines.ScansKeepTheInterval | crates/joedlna-core/src/http.rs:609-613 | after a scan that failed or withheld nothing, and no change, no scan starts within the rescan interval in force |
| Deadlines.FirstScanKeepsTheInterval | crates/joedlna-core/src/http.rs:580-588 | nor after a start-up scan that withheld nothing |
| Deadlines.ConfiguredDelays | crates/joedlna-core/src/http.rs:583-650 | the delays are those of the last configuration scanned, in whole seconds on a clock of nanoseconds |
| Deadlines.SettledScanWaits | crates/joedlna-core/src/catalog.rs:85-87 | a settled scan publishes only files last modified at least the configured settle time before |
| Deadlines.OnlyTheTimerIsLeft | crates/joedlna-core/src/http.rs:615-640 | after the watcher has stopped, or without one, only the timer wakes the loop |
| Scanner.NextSuccessIsRipe | crates/joedlna-core/src/http.rs:608-613 | after a scan that withheld files the next successful scan starts at least the settle time later, whatever comes in between |
| Scanner.FirstSuccessIsRipe | crates/joedlna-core/src/http.rs:583-586 | the same after a start-up scan that withheld files |
| Scanner.WithheldFileIsPublished | crates/joedlna-core/src/http.rs:584-650 | for two scans with their configurations and results: an entry withheld by the first is in the catalog of the next successful one, if the file keeps its metadata and its directory is read again, whatever events and failed scans come in between |
| Scanner.WithheldFileIsPublishedInEveryOrder | crates/joedlna-core/src/http.rs:584-650 | the same for every order of listings, from what the file system alone makes sure of |
| Scanner.StartupFileIsPublished | crates/joedlna-core/src/http.rs:84-137 | the same for an entry withheld by the scan at start-up |
| Scanner.Server.RescanCatalog | crates/joedlna-core/src/http.rs:667-721 | a failure changes nothing; success leaves exactly the new catalog and configuration, and announces it exactly when it differs, so skipping the swap cannot be observed |
| Xml.EscapeText | crates/joedlna-core/src/xml.rs:3-22 | the loop escapes character by character |
| Xml.UnescapeEscape | crates/joedlna-core/src/xml.rs:3-22 | reading an escaped text gives the text with non-XML characters replaced by U+FFFD (XML 1.0, sections 2.2 and 4.6) |
| Xml.SanitiseMeans | crates/joedlna-core/src/xml.rs:13-19 | what is replaced is exactly control characters other than tab, line feed and carriage return, and U+FFFE and U+FFFF |
| Xml.EscapeIsPlain | crates/joedlna-core/src/xml.rs:3-22 | nothing in an escaped text can end the element or attribute that holds it |
| Soap.ElementReads | crates/joedlna-core/src/xml.rs:24-26 | an element reads back as its text, with non-XML characters replaced, whatever follows it |
| Numbers.ParseDecimal | crates/joedlna-core/src/soap.rs:206-210 | printing a number and parsing it again is the identity |
| Didl.ObjectReads | crates/joedlna-core/src/soap.rs:216-301 | a reader recovers one printed object, with its optional parts, whatever text follows |
| Didl.DocumentReads | crates/joedlna-core/src/soap.rs:183-197 | and from a whole document exactly the objects printed, in order |
| Didl.DocumentSurvives | crates/joedlna-core/src/soap.rs:317-326 | the document contains XML characters only, so embedding it replaces nothing |
| Didl.Tags | crates/joedlna-core/src/soap.rs:212-308 | the tags and attributes around the fields |
| Browse.PagesCover | crates/joedlna-core/src/soap.rs:171-182 | consecutive pages put together are the front of the list |
| Browse.AppendRoot | crates/joedlna-core/src/soap.rs:216-226 | appends the printed form of the root container |
| Browse.AppendEntry | crates/joedlna-core/src/soap.rs:228-301 | appends the printed form of the entry with the fields the filter chooses |
| Browse.AppendItem | crates/joedlna-core/src/soap.rs:252-299 | the same for a media item, write by write |
| Browse.AppendEntries | crates/joedlna-core/src/soap.rs:183-185 | the loop appends the selected entries in order |
| Browse.BrowseAction | crates/joedlna-core/src/soap.rs:120-197 | answers every argument map with the document of the chosen objects and the three numbers, or the UPnP error of the first failed check |
| BrowseAnswers.ChildrenAnswered | crates/joedlna-core/src/soap.rs:148-187 | browsing children answers with a slice of the entries filed under the container, each once, for the text "" in catalog order, for "+dc:title" ascending and for "-dc:title" descending by code points, with the numbers that go with it |
| BrowseAnswers.MetadataAnswered | crates/joedlna-core/src/soap.rs:141-147 | browsing metadata answers with the one object, whatever order and slice are asked for; an item's update identifier is the catalog's |
| BrowseAnswers.BrowseFails | crates/joedlna-core/src/soap.rs:128-192 | which error every other argument map gets: 402, 709, 402 or 701 by the first check that fails |
| Filters.FilterMeans | crates/joedlna-core/src/soap.rs:303-308 | a star selects every field; otherwise a field is selected by its name between commas, `res` by any of its attributes too |
| Filters.ContainerDescribed | crates/joedlna-core/src/soap.rs:236-251 | a container is described by its own fields and, if selected, the number of entries filed under it |
| Filters.ItemDescribed | crates/joedlna-core/src/soap.rs:252-299 | an item by its own fields, its bookmark if selected and set, and its resource if selected, always with its size, and with a link that ends with its extension |
| Filters.RootDescribed | crates/joedlna-core/src/soap.rs:216-226 | the root is "0" below "-1", titled "Root" |
| BrowsePages.ChildrenOfScanned | crates/joedlna-core/src/catalog.rs:116-124 | in a scanned catalog exactly the root and the containers have children: the entries naming them as parent, each once, as many as `childCount` |
| BrowsePages.OnePage | crates/joedlna-core/src/soap.rs:150-187 | an answer holds the requested slice; NumberReturned is min(count, max(0, total - start)), and count zero means the whole rest |
| BrowsePages.PagesListEveryChildOnce | crates/joedlna-core/src/soap.rs:150-187 | for every container, order and page size the pages put together list every child exactly once, in order |
| BrowsePages.TotalMatchesIsChildCount | crates/joedlna-core/src/soap.rs:164-187 | TotalMatches is the `childCount` that metadata reports |
| BrowsePages.SortedOrdersAreUnique | crates/joedlna-core/src/soap.rs:165-175 | ascending and descending are the only sorted arrangements, and each is the reverse of the other |
| Soap.SoapResponse | crates/joedlna-core/src/soap.rs:317-326 | the loop writes the envelope with all output arguments in order |
| Soap.ResponseReads | crates/joedlna-core/src/soap.rs:317-326 | every output argument reads back, with non-XML characters replaced |
| Soap.BrowseRoundTrip | crates/joedlna-core/src/soap.rs:120-197 | from the response a client recovers, through both layers of escaping, exactly the objects described, in order, and the three numbers |
| LineEnds.UnescapeNormalised | crates/joedlna-core/src/xml.rs:3-22 | a reader that normalises line ends (XML 1.0, section 2.11) recovers an escaped text with its line ends normalised |
| LineEnds.SameTextIff | crates/joedlna-core/src/xml.rs:14-16 | which is the text itself, sanitised, exactly when it has no carriage return |
| LineEnds.DocumentNormalised | crates/joedlna-core/src/soap.rs:183-197 | normalising a document normalises the texts of its objects and nothing else |
| LineEnds.BrowseRoundTripNormalised | crates/joedlna-core/src/soap.rs:120-197 | a client that normalises both layers recovers the objects with normalised line ends: the objects described exactly when no text of theirs has a carriage return |
| Ranges.RecogniseIff | crates/joedlna-core/src/http.rs:521-541 | a header value is recognised exactly when it spells a range, signs allowed, in 64-bit numbers |
| Ranges.SpelledIsServed | crates/joedlna-core/src/http.rs:511-550 | a range spelled by the grammar of RFC 9110, sections 14.1.1 and 14.1.2, with the unit in lower case, is accepted exactly when its numbers fit 64 bits and it asks for some byte, and then exactly the bytes asked for are served |
| Ranges.AgreesExactlyWhen | crates/joedlna-core/src/http.rs:511-550 | for every range the grammar allows, however its unit is spelled: the answer is the one the RFC asks for exactly when the unit is in lower case and the numbers fit, or the range asks for nothing |
| Ranges.CapitalUnitIsRefused | crates/joedlna-core/src/http.rs:522-522 | a concrete range with a capital in its unit that asks for the only byte of a file and is refused |
| Ranges.OtherUnitIsRefused | crates/joedlna-core/src/http.rs:522-522 | any other unit is refused, whatever follows |
| Ranges.WideRangeIsRefused | crates/joedlna-core/src/http.rs:535-541 | a concrete range beyond 64 bits that asks for the only byte of a file and is refused |
| Ranges.SignIsAccepted | crates/joedlna-core/src/http.rs:535-541 | a concrete value that no range spells and that is accepted |
| Ranges.AcceptedIsAllowedIff | crates/joedlna-core/src/http.rs:526-541 | an accepted value is one the grammar allows exactly when it has no plus sign |
| Ranges.ServesWhatIsRequested | crates/joedlna-core/src/http.rs:511-550 | for every header value the code recognises as a range: accepted exactly when it asks for some byte of the file, and then exactly the bytes asked for are served |
| Ranges.LengthIsExact | crates/joedlna-core/src/http.rs:441-445 | the announced length is the number of bytes served, within the file, without saturation |
| Ranges.WrittenIsRecognised | crates/joedlna-core/src/http.rs:511-541 | a range as a client writes it is understood as meant exactly when its numbers fit 64 bits, and else not at all |
| Ranges.BoundsRoundTrip | crates/joedlna-core/src/http.rs:511-550 | printing bounds inside the file and parsing them is the identity |
| Ranges.TilesReassemble | crates/joedlna-core/src/http.rs:511-550 | the answers to consecutive ranges put together are the file |
| Bookmarks.LastCallWins | crates/joedlna-core/src/bookmarks.rs:62-68 | the last call on an object decides its bookmark: zero removes it |
| Bookmarks.InvStep | crates/joedlna-core/src/bookmarks.rs:62-84 | every disk effect of `set` keeps memory the replay of all calls and the file a replay of some prefix |
| Bookmarks.CrashConsistent | crates/joedlna-core/src/bookmarks.rs:62-106 | at every moment the file is untouched or holds the positions after some prefix of the calls, whichever writes failed |
| Bookmarks.SuccessSavesEverything | crates/joedlna-core/src/bookmarks.rs:69-83 | a successful rename saves all calls so far, including those whose write failed |
| Bookmarks.RestartLoadsAPrefix | crates/joedlna-core/src/bookmarks.rs:38-56 | loading after a crash gives the positions after some prefix of the calls |
| Bookmarks.FirstStartLoadsAPrefix | crates/joedlna-core/src/bookmarks.rs:38-56 | the same from the very first start, when there is no file |
| Bookmarks.BookmarkStore.Set | crates/joedlna-core/src/bookmarks.rs:62-84 | under any fault takes exactly the steps of the model; succeeds exactly when serialising, writing and renaming do; a failure leaves the file alone |
| DroppedCalls.ConsistentExactlyWithoutStrays | crates/joedlna-core/src/bookmarks.rs:62-84 | with calls that may be dropped half-way, the file stays consistent whatever follows exactly when no dropped call has left a write or rename going on |
| DroppedCalls.DroppedCallTearsTheFile | crates/joedlna-core/src/bookmarks.rs:62-84 | a concrete run: the write of a dropped call empties the file of the next, which reports success |

## Left out

- Scanner.WithheldFileIsPublished: the share resolves to the same root, links and hidden names are treated as before, and the settle time has not grown. That the directory is read again is a hypothesis; `Scan.SurelyIsRead` and `Reading.ReadInEveryOrderIff` say when the file system alone makes sure of it.
- Scan.ScanWithMinimumAge: the clock and the answers of the file system are fixed during one scan; the code reads the clock for every file, and files may change while it walks.
- Scanner.RunScanner: the choice among the timer, the watcher and shutdown is an arbitrary legal list of wake-ups; the bounded channel of the watcher, which may drop events, is outside the list. Times are natural numbers.
- Protocol.LastMessageIsCurrent: about messages as numbered. Delivery over TCP, which may reorder or lose them, is not part of this model.
- Ranges.AgreesExactlyWhen: about a single range without white space. Lists of ranges are refused by the code.
- LineEnds.BrowseRoundTripNormalised: line ends only. The further normalisation of white space in attribute values (XML 1.0, section 3.3.3) is not part of this model; identifiers, sizes and protocol information contain none.
- Soap.BrowseRoundTrip: assumes that the class names in the media table contain no markup, ampersand or control character; the table itself is a parameter.
- Fingerprints.SameStreamIffSameMetadata: the claim is about the bytes hashed. Kind and path are not hashed, and FNV-1a and the fold to 32 bits may collide, so equal update identifiers do not imply equal catalogs.
- CatalogBuilder.Catalog.SortChildren: the library's in-place unstable sort is a sorting function on sequences; that any sort gives the same result is proved.
- The file count and the number of withheld files are unbounded; the code counts in machine words.
- Windows and other platforms: UTF-16 path hashing, and the remove-then-rename branch of `replace_file`, which is not atomic.
- `media_kind`, lossy decoding of names, trimming and lower-casing of share names, `Callback::parse` and `same_private_network` are parameters.
- The TOML parser and serializer are a parameter; `RestartLoadsAPrefix` assumes that what was printed parses back. Read errors other than a missing file are not part of this model.
- Fresh SIDs are assumed where a UUID is generated.
- `parse_request` and quick-xml, SOAP faults, the other actions, `set_bookmark`'s argument checks, HTTP routing, streaming, SSDP, descriptions, the remaining checks of `Config::validate`, `event_is_relevant`, the reconciliation of watches, and logging.
