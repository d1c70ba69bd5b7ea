# mv_git: a verified model

mv_git puts a MultiValue account under git: records become blobs, dictionary items are
kept in one open form and translated into each platform's own on checkout, and the work
is done by an engine that a per-user server and pooled MV sessions share. This project
models that machinery in Dafny and proves what it is relied on for.

| Part | Files |
|---|---|
| Strings, C buffers, git paths | Text.dfy, Paths.dfy |
| Dictionary items: attribute surgery, the SM/association swap, open form and native form | Records.dfy |
| `TRANS` expressions: parsing, both translations, what they evaluate to, round trips | Trans.dfy, Meaning.dfy, RoundTrip.dfy |
| Checkout of one item and its add; add against status; checkout over branch switches, and against status; pruning | Crossing.dfy, AddStatus.dfy, Checkout.dfy, Fresh.dfy, Prune.dfy |
| File lists, file geometry, account descriptor | Furniture.dfy, Modulo.dfy, Sticky.dfy, Descriptor.dfy |
| The framed hex protocol and its two ends, over pipes that read and write short | Wire.dfy, Pipes.dfy, Serve.dfy, Client.dfy |
| Pooled sessions, reconnect with replay, the lazy server | Registry.dfy, Reconnect.dfy, Handles.dfy, Rebuilding.dfy, Server.dfy |

Code that works by loops and updates is written as methods and classes proved equal to a
specification function (`Attr`, `Swap`, `Project`, `Args`, `Added`, `Reports`, `Parsed`,
`Run`, `Called`, ...); the lemmas are about those functions. Trees, blobs and the index
are maps or sequences and two blobs are the same object when their text is the same. The
kernel (how much each `read` or `write` moves, whether an agent dies), the live account,
the ignore rules and the engine behind an opcode are parameters that a theorem quantifies
over.

Where a claim one might make of the code is false, the lemma says exactly when it holds:

- A checkout followed by an add gives the committed item back on UniData and jBASE exactly
  when the item is canonical and its expression survives: spelt plainly if it is a TRANS whose
  key cannot be named, within the buffers if it is translated (`Crossing.CheckoutThenAdd`,
  `Crossing.LongIsLost`). On a UniVerse-only build checkout still swaps attributes 6 and 7 while add does not, so there
  only items with both equal come back (`Crossing.UniVerseReorders`).
- `TRANS` printed and read back is the original text exactly when the item that names the
  key writes its location the way the text does (`RoundTrip.OpenUdtOpen`).
- Deleting a file is documented at src/mvxgit.c:4395-4399 as deleting `<file>.DICT/` too;
  the guard at src/mvxgit.c:4035-4047 keeps the dictionary (`Prune.OrdinaryDeletion`).
- A record that git tracks and an ignore rule names stays ` M` however often it is added
  (`AddStatus.TrackedIgnoredStays`); an MVX build adds dictionary items unprojected and
  compares them projected (`AddStatus.MvxAddThenStatus`).
- Handles survive the replacement of a session, spawned or attached: the agent hands a file
  that is open its old slot, so a replay into an attached session's own agent changes nothing
  (`Reconnect.AttachedReplayIsIdle`). They fail exactly when a replay breaks off with an agent
  still up and files missing, a reply (or a new session's first answer) is not read in time and that agent is kept, or
  an open was done whose reply could not be used and the client does not get to repeat it
  (`Handles.HandlesKept`, `Handles.OrphanThenRebuild`).
- There is one server in every run, stop signals and all (`Server.OneServer`). A stop leaves a
  child at work without a server exactly when a fork had not finished (`Server.StopStrands`,
  `Server.AttendedExactly`).
- A control sticks exactly when it is of class hash and under 512 bytes
  (`Sticky.SticksExactlyWhen`); the first staging of a file in an open batch does not bind a
  second one in the same batch (`Sticky.BatchedGeometryHolds`).
- `permit` with only blanks after it is kept as a word that the next reading drops
  (`Descriptor.BareWordIsLost`).
- The two furniture filters agree exactly on the lists in which no kept empty entry stands
  behind a kept one that is not empty (`Furniture.FiltersAgreeExactly`).

## Model

| member | source | states |
|---|---|---|
| Text.Xlate | src/mvxgit.c:108-115 | the byte loop replaces every separator by the other and nothing else |
| Text.TranslateJoin | src/mvxgit.c:108-115 | exchanging separators keeps the attributes, when none contains the old one |
| Text.TranslateBack | src/mvxgit.c:108-115 | a record's blob translated back is the record, for records without a newline |
| Text.SplitStep | src/mvxgit.c:160-172 | one scan for the separator takes exactly the first attribute off a record |
| Text.AtoiForms | src/mvxgit.c:3286-3287 | atoi skips white space, takes one sign and stops at the first character that is no digit |
| Text.LowerIs | src/mvxgit.c:2577 | case is told apart, and folded, for the letters of ASCII alone |
| Records.AttrOf | src/mvxgit.c:154-173 | the scan finds the n-th attribute, "" when there is none, cut to the caller's buffer |
| Records.Pieces | src/mvxgit.c:184-191 | the splitting loop with a fixed number of slots gives the first `limit` attributes |
| Records.RecSetAttr | src/mvxgit.c:175-202 | writes attribute n in at most 40 slots, padding with empty ones; nothing when n is outside them |
| Records.SetAttrReads | src/mvxgit.c:175-202 | refused past the fortieth attribute; else attribute n reads as set, the others up to the fortieth as before, and the rest are lost |
| Records.DictItemSwap | src/mvxgit.c:204-247 | exchanges attributes 6 and 7 of a D or I item among its first 32 and drops trailing empties; other records are left alone |
| Records.SwapJoin | src/mvxgit.c:221-247 | the text it returns is the list of attributes, swapped and trimmed, rejoined |
| Records.RecSetAttr2 | src/mvxgit.c:588-602 | replaces attribute 2 between its own separators, only when there is one |
| Records.SetAttr2Inner | src/mvxgit.c:588-602 | everything before attribute 2 and from the separator after it is kept |
| Records.DropMarks | src/mvxgit.c:644 | drops trailing attribute marks and nothing else |
| Records.TrimMarksJoin | src/mvxgit.c:644 | dropping marks from a text is dropping its trailing empty attributes, never the first |
| Records.OpenDictProject | src/mvxgit.c:625-653 | swap where the build says so, derive the missing flag, trim: the projection |
| Records.ProjectJoin | src/mvxgit.c:625-653 | the projection of a D or I item, attribute by attribute; without the swap an item of up to 40 attributes |
| Records.NativiseJoin | src/mvxgit.c:5694-5732 | what checkout makes of an item, attribute by attribute: swapped, flag derived, trimmed |
| Trans.TransSplit | src/mvxgit.c:438-467 | the four buffers hold the trimmed arguments, each cut to 255 bytes, and the count is of all of them; none for a text that is not one TRANS call |
| Trans.ArgIs | src/mvxgit.c:454-462 | an argument buffer holds the argument if and only if it has at most 255 bytes |
| Trans.ScanArgs | src/mvxgit.c:448-465 | the quote and parenthesis scan cuts at exactly the commas outside both |
| Trans.ArgsStep | src/mvxgit.c:448-465 | one byte of that scan, from the middle of an argument |
| Trans.FourArgs | src/mvxgit.c:438-467 | a printed call splits back into its four arguments, whatever is nested or quoted in them |
| Trans.ArgsRun | src/mvxgit.c:448-465 | a stretch with no comma at the outer level passes into the current argument whole |
| Trans.QuotedWhole | src/mvxgit.c:469-475 | quoting hides every comma and parenthesis, and unquoting gives the text back |
| Trans.DsNameForAttr | src/mvxgit.c:366-431 | the walk over the dictionary finds the name the specification names |
| Trans.NamedIsLeast | src/mvxgit.c:366-431 | the result describes the attribute and no name before it in byte order does |
| Trans.NameForIsLeast | src/mvxgit.c:366-431 | there is a name exactly when some item describes the attribute, and it is the least |
| Trans.LookupUnique | src/mvxgit.c:342-365 | with distinct names, an item's text is found under its name |
| Trans.BuffersKeep | src/mvxgit.c:489-513 | how much of a location, an item's expression and a key's name the fixed buffers keep |
| Trans.Beginnings | src/mvxgit.c:438-443 | a TRANS is told by its first six bytes, and an item's type by its first letter, in any case |
| Meaning.FlatteningPreservesMeaning | src/mvxgit.c:307-328 | for every dictionary set, record store and record: the nested TRANS written for UniData has, without chaining, the value the canonical TRANS has with it |
| Meaning.ExpandMeaning | src/mvxgit.c:483-531 | the same for each level of expansion and any key expression, up to 8 chained items |
| Meaning.LinkMeaning | src/mvxgit.c:321-327 | one chained item: its field under MVX rules is the next lookup keyed by the item's own key |
| Meaning.InnerMeaning | src/mvxgit.c:321-327 | a TRANS used as a key evaluates to the field it names in the record found, "" when there is no record |
| Meaning.NamedKeyMeaning | src/mvxgit.c:316-318 | the name found for a numbered key reads the same field |
| Meaning.PrintedArgs | src/mvxgit.c:319-322 | quoted file and target come back unquoted and the key as it was |
| RoundTrip.OpenUdtOpen | src/mvxgit.c:533-585 | canonical to UniData to canonical gives the text back if and only if the naming item's location is written as the key was |
| RoundTrip.CanonicalLocation | src/mvxgit.c:369-431 | every item located at the plain decimal and not itself named by a number meets that condition |
| RoundTrip.UdtOpenUdt | src/mvxgit.c:533-585 | UniData to canonical to UniData gives the text back if and only if the key is the least of its synonyms |
| RoundTrip.Printed | src/mvxgit.c:533-556 | what is written for an unchained call with a nameable key |
| RoundTrip.Reopened | src/mvxgit.c:557-585 | what is read back from a printed call: the numbered key, or nothing when the key has no number |
| RoundTrip.ChainedOnce | src/mvxgit.c:501-531 | a chained target written out: the first lookup, for the name of the second one's key, becomes its key, each with its own control |
| RoundTrip.Spelt | src/mvxgit.c:523-530 | the printed text: file, target and control in quotes, the key as it is, a numbered target bare |
| RoundTrip.EightLinks | src/mvxgit.c:488 | the eighth chained item is followed and the ninth is not |
| RoundTrip.LeadingZeroIsNotKept | src/mvxgit.c:557-585 | an item located at "05" turns key 5 into 05 |
| Crossing.CheckoutThenAdd | src/mvxgit.c:5694-5743 | on UniData and jBASE the staged blob is the committed one, byte for byte, if and only if the item has at most 32 attributes, none empty at the end, a flag with every association, and an expression that survives: spelt plainly if it is a TRANS whose key cannot be named, within the 512-byte buffers, itself and translated, if it is translated |
| Crossing.LongIsLost | src/mvxgit.c:864-867 | a translation of 512 bytes or more is lost unless the 511 read back are a whole TRANS with a plain key |
| Crossing.LeftAlone | src/mvxgit.c:534-585 | checkout leaves an expression alone if and only if it is no TRANS or its key cannot be named, and add then spells such a TRANS plainly |
| Crossing.UniVerseReorders | src/mvxgit.c:5705-5720 | without the swap at add, such an item comes back if and only if attributes 6 and 7 are equal |
| Crossing.UniVerseCounterexample | src/mvxgit.c:302-304 | an ordinary associated item that does not |
| Crossing.CheckedOut | src/mvxgit.c:5694-5743 | every attribute of the live record checkout writes |
| Crossing.StagedAttrs | src/mvxgit.c:859-912 | every attribute of the blob add stages for any live D or I item, compared with any committed record |
| Crossing.EditReachesGit | src/mvxgit.c:896-905 | an edited I item: git's copy is staged if and only if it translates to what the account holds, otherwise the live expression translated back; translated again it gives the live one, if that returns at all |
| Crossing.EditedItemStaged | src/mvxgit.c:859-912 | carried to the staged blob of any live D or I item against any committed record: every other attribute is the live one's, and git's expression stays only if it means the live one |
| Crossing.StagedStable | src/mvxgit.c:859-912 | staging a record again, compared with what it was staged as, gives the same blob |
| Crossing.StagedSpecBack | src/mvxgit.c:884-912 | the expression of a staged blob is read back whole |
| Crossing.ToUdtFrom | src/mvxgit.c:533-556 | no mark or newline gets into a translated expression |
| Crossing.ToOpenFrom | src/mvxgit.c:557-585 | nor into one translated back, which is never empty |
| AddStatus.GitIndex.Add | src/mvxgit.c:2597-2879 | a wholesale add leaves exactly the index the specification gives, each record filtered, projected and put, then the file reconciled, and reports how many were staged, ignored and removed |
| AddStatus.EveryRecordCounted | src/mvxgit.c:2608-2814 | every record but the control is counted once, as staged or as ignored |
| AddStatus.GitIndex.Reconcile | src/mvxgit.c:2817-2860 | removes exactly the entries of the file whose record is gone, the control aside, and counts them |
| AddStatus.GitIndex.Status | src/mvxgit.c:4608-4837 | prints the file's lines in order: its records as they are listed, then the index's entries |
| AddStatus.StatusReports | src/mvxgit.c:4608-4837 | those are exactly the untracked, modified and deleted lines of the file, however records and entries are listed |
| AddStatus.GitIndex.RecordLines | src/mvxgit.c:4608-4765 | the walk over live records gives each one's line and no other |
| AddStatus.GitIndex.DeletedLines | src/mvxgit.c:4766-4837 | the walk over entries gives a line for exactly those whose record is gone |
| AddStatus.StagedAsBefore | src/mvxgit.c:2759-2805 | in any order of records, each is staged as the index stood before the add |
| AddStatus.Untouched | src/mvxgit.c:2633-2757 | an entry no kept record is staged at is left alone |
| AddStatus.NoClash | src/mvxgit.c:801-813 | two records share no path, nor does one's path stand where another's own name is looked up |
| AddStatus.BlobStable | src/mvxgit.c:4726-4743 | status, reading the new index, computes the blob add staged from the old one |
| AddStatus.AddThenStatusClean | src/mvxgit.c:4608-4765 | after the add there is no line for a record it staged |
| AddStatus.ExcludedUnchanged | src/mvxgit.c:4690-4755 | for a record it left out, status says what it said before, nothing if git did not track it |
| AddStatus.StatusAfterAdd | src/mvxgit.c:2609-2860 | the whole of status after a wholesale add: the left-out records' old lines and no other, the control aside |
| AddStatus.StatusClean | src/mvxgit.c:2609-2860 | when git tracks nothing add leaves out: no line at all for any record but the control, no deletion included |
| AddStatus.TrackedIgnoredStays | src/mvxgit.c:2700-2710 | a tracked, ignored record that is modified is still modified after any add |
| AddStatus.MvxAddThenStatus | src/mvxgit.c:2759-2777 | in an MVX build an added item reads clean if and only if its association has a flag and it ends in at most one empty attribute |
| AddStatus.StagedAlone | src/mvxgit.c:2619-2813 | a record's entry after an add is as if it had been staged alone, in whatever order the records come |
| AddStatus.AddedAt | src/mvxgit.c:2609-2860 | the index after an add, path by path: gone records' entries go, a record's is what staging it alone makes it, and nothing else moves |
| AddStatus.DataFileAdded | src/mvxgit.c:2696-2810 | a data file after an add: a record neither rule set names, and no compiled object, is in the index with its marks as newlines; any other keeps its entry; an entry without a record is gone |
| AddStatus.DataRecordLeftOut | src/mvxgit.c:2700-2724 | a data record is left out if and only if the account's rules or git's name it, or it is a compiled object |
| AddStatus.ObjectIs | src/mvxgit.c:1028-1045 | a compiled object is `_NAME` beside NAME or, when they are to be skipped, a record with a NUL |
| AddStatus.OtherFilesStay | src/mvxgit.c:2826-2860 | an add leaves the entries of other files as they are |
| AddStatus.MasterRecordLeftOut | src/mvxgit.c:2624-2724 | exactly which master-file records are left out |
| AddStatus.TypesOfPointers | src/agent_rt.c:317-335 | verbs and keywords never travel, pointers to files only when the file is not here, in any case |
| AddStatus.TypeIsFirstWord | src/mvxgit.c:1847-1853 | the type is the first word of the first attribute |
| AddStatus.PlatformItems | src/mvxgit.c:2528-2542 | the platform's own items are F or f with a number, of the master file's dictionary under either name, in any case, through any account; and no others |
| AddStatus.ControlAdded | src/mvxgit.c:2739-2754 | an open control git holds in a dictionary stays; any other is staged |
| AddStatus.ControlClasses | src/mvxgit.c:4524-4551 | the class a control declares, open or native |
| AddStatus.BareControl | src/mvxgit.c:4524-4551 | a native control with no kind is hashed |
| AddStatus.ControlLine | src/mvxgit.c:4707-4725 | the control in status: clean if and only if git's is of the live class, or is that class alone |
| AddStatus.RenamedPaths | src/mvxgit.c:801-813 | the two renamed items go under their canonical names and are looked for under their own; no other is renamed |
| AddStatus.DataRecordLine | src/mvxgit.c:4744-4761 | the line of a data record: untracked, modified, or none, by what the index holds |
| AddStatus.LinesMean | src/mvxgit.c:4744-4837 | for every file: untracked if and only if the index has no entry, modified only if the entry differs from what the record is compared with, deleted only if there is no record |
| AddStatus.WalkedExactly | src/mvxgit.c:4590-4610 | status looks at the records of a file if and only if git has an entry for it and it is not furniture, and reports an entry deleted if and only if it has no record and is not the control |
| AddStatus.DictionaryItemLine | src/mvxgit.c:4726-4761 | the line of an item of an open dictionary, under its canonical name, by what add would stage |
| AddStatus.MasterRecordLine | src/mvxgit.c:4625-4761 | the line of a master-file record: none for what is derived or compiled, and none for an untracked one that add leaves out |
| AddStatus.DictionaryItemLeftOut | src/mvxgit.c:2696-2724 | exactly which items of a dictionary add leaves out |
| AddStatus.ObjectPointersAre | src/mvxgit.c:4657-4673 | an object file's pointer is its file's name with `.O` behind |
| AddStatus.OpenControlsAre | src/mvxgit.c:937-942 | an open control begins with its class, in any case |
| AddStatus.FilesAre | src/mvxgit.c:2577-2585 | the master file's two names, in any case, and what an open dictionary is |
| AddStatus.PlainStorable | src/mvxgit.c:7149-7162 | a file and an id that are plain components make a path git can store |
| Paths.StorableExactly | src/mvxgit.c:7149-7162 | which paths git stores: no piece between slashes empty, `.` or `..`, but the last may be empty behind a slash |
| Fresh.FreshFileReadsClean | src/mvxgit.c:4684-4761 | with the index at the tree just checked out, status has a line only for a record the commit does not carry; after a branch switch, only for a stock record or the control |
| Fresh.EntryReadsClean | src/mvxgit.c:4726-4761 | no line for any record the checkout wrote, nor for its entry |
| Fresh.ItemReadsClean | src/mvxgit.c:1226-1243 | a D or I item just checked out is taken for the committed one if and only if, one trailing newline aside, it is canonical and its expression survives |
| Fresh.ItemEntryExactly | src/mvxgit.c:4675-4761 | so status has no line for it if and only if that, or it is a compiled object or has no storable path |
| Fresh.DictionaryItem | src/mvxgit.c:5694-5743 | add would stage, from any dictionary record checkout wrote that crosses, what is taken for the committed blob |
| Fresh.OtherItem | src/mvxgit.c:5700-5726 | so too for a record of a dictionary that is no D or I item |
| Fresh.DataRecord | src/mvxgit.c:1226-1243 | a data record's blob is matched even without the terminator a directory's record drops |
| Fresh.DataRecordWritten | src/mvxgit.c:5690-5693 | the record written is the blob, byte for byte, less the final newline in a directory-backed file and only there |
| Fresh.DataFileWritten | src/mvxgit.c:5672-5757 | carried to the file: after a checkout each of the tree's records holds its blob so |
| Fresh.DictionaryItemWritten | src/mvxgit.c:5694-5757 | and in an open dictionary the item's attributes in native order, its expression translated, under its local name |
| Checkout.AccountFile.Materialise | src/mvxgit.c:5610-5790 | the file afterwards is the specification's, with the counts of writes and deletions |
| Checkout.AccountFile.WriteAll | src/mvxgit.c:5669-5758 | the write loop leaves the last image of each entry and remembers exactly the names seen |
| Checkout.AccountFile.Drop | src/mvxgit.c:5759-5787 | the deletion loop removes exactly the records not seen and not stock |
| Checkout.CheckoutDecides | src/mvxgit.c:5610-5790 | after a checkout the non-stock records are the tree's, whatever was there |
| Checkout.HistoryIndependent | src/mvxgit.c:5610-5790 | after any sequence of checkouts they are the last tree's |
| Checkout.SwitchBack | src/mvxgit.c:5610-5790 | leaving a branch by any route and coming back restores them |
| Checkout.StockSafe | src/mvxgit.c:5759-5787 | a checkout never deletes a stock record, and changes one only when the tree has it |
| Checkout.StockSafeOverHistory | src/mvxgit.c:5759-5787 | nor does any sequence of them |
| Checkout.CloneDeletesNothing | src/mvxgit.c:5759-5787 | with keep_extra set nothing is deleted |
| Checkout.EntryWritten | src/mvxgit.c:5669-5758 | an entry no later one collides with is written under its local name with its native image |
| Checkout.SeenTargets | src/mvxgit.c:5669-5758 | the names kept from deletion are the entries' local names and the control |
| Checkout.WritesCounted | src/mvxgit.c:5678-5752 | the count of writes is the number of entries besides the control |
| Prune.GoneMemo.TrackedFileGone | src/mvxgit.c:4401-4453 | the memoised answer is the uncached scan's, and the memo stays right for this index and account |
| Prune.GoneMemo.Reset | src/mvxgit.c:4457-4468 | after a reset the memo is right for every index and account |
| Prune.ScanTracked | src/mvxgit.c:4436-4448 | the scan finds whether the index holds content of the file |
| Prune.Decide | src/mvxgit.c:3996-4057 | the names selected are those gone by the index as it stood, every one that an entry needs |
| Prune.Sweep | src/mvxgit.c:3977-4073 | the descending removal loop leaves exactly the entries that are gitlinks, outside a directory, or not under a name selected beforehand, in order, and counts the rest |
| Prune.KeptMember | src/mvxgit.c:4059-4073 | an entry survives if and only if it is not one of those |
| Prune.SweepSettles | src/mvxgit.c:3977-4073 | a second prune removes nothing |
| Prune.SelectedMonotone | src/mvxgit.c:4403-4453 | removing entries never makes another name gone |
| Prune.DictionarySurvives | src/mvxgit.c:4035-4047 | an entry of a dictionary is removed if and only if the dictionary itself has a dictionary and is gone |
| Prune.OrdinaryDeletion | src/mvxgit.c:4035-4047 | for a deleted file the records go and the dictionary stays |
| Prune.LiveFilesStay | src/mvxgit.c:4413-4416 | a file that is there keeps its records and its dictionary, whatever the index holds |
| Prune.RecordsGoExactly | src/mvxgit.c:3977-4073 | a record goes if and only if its file is not there and, in a build with records, git has the file's dictionary; gitlinks never |
| Prune.DictionaryGoesExactly | src/mvxgit.c:3977-4073 | an item goes if and only if the file is not there, git has content of it besides the control, and, in a build with records, a dictionary of that dictionary |
| Prune.TopLevelStays | src/mvxgit.c:3999-4000 | what lies in no directory stays |
| Modulo.FindNextPrime | src/mvxgit.c:3163-3171 | terminates with the least prime at or above max(n, 2) |
| Modulo.IsPrime | src/mvxgit.c:3166-3168 | trial division up to the square root decides primality |
| Modulo.PrimeAbove | src/mvxgit.c:3163-3171 | there is a prime at or above every number, so the search ends |
| Modulo.NextPrimeUnique | src/mvxgit.c:3163-3171 | what the search promises determines its result |
| Modulo.PrimeIs | src/mvxgit.c:3166-3168 | a prime has no product but the trivial ones |
| Modulo.NextOf | src/mvxgit.c:3163-3171 | a prime is its own next prime |
| Modulo.PrefixConvex | src/mvxgit.c:3182-3195 | between two paths under a directory, in byte order, every path is under it |
| Modulo.CountUnder | src/mvxgit.c:3182-3195 | stopping at the first path outside still counts all n records |
| Modulo.GuessModulo | src/mvxgit.c:3182-3195 | 0 for no records, else the next prime of n / 7, with n <= 7m + 6 |
| Furniture.CompactInPlace | src/agent_rt.c:253-267 | the in-place compaction leaves the kept entries of the original list, never writing over unread input |
| Furniture.NextEntry | src/agent_rt.c:255-266 | one round: the next entry of the unread input is kept or dropped and the rest is untouched |
| Furniture.MoveDown | src/agent_rt.c:263-264 | moving an entry down over its own start copies it whole |
| Furniture.FilterFurniture | src/mvxgit.c:1782-1802 | the engine's filter joins the kept non-empty entries |
| Furniture.FiltersAgree | src/agent_rt.c:253-267 | on a list with no empty entry both filters give: split at the mark, drop furniture, join |
| Furniture.FiltersAgreeExactly | src/agent_rt.c:253-267 | for every list the two filters agree if and only if, of the entries kept, no empty one stands behind one that is not |
| Furniture.EmptyEntryDiffers | src/mvxgit.c:1782-1802 | an empty entry between two others makes them differ, one at the front does not |
| Furniture.FurnitureIsSpelt | src/mvxgit.c:1586-1708 | a name is furniture if and only if it is a listed name under any number of `D_` and `.DICT` spellings, in any order |
| Furniture.WrappedIs | src/mvxgit.c:1670-1679 | names between two underscores or two ampersands are furniture |
| Furniture.SystemFiles | src/mvxgit.c:1599-1629 | each system's own files, in their own case |
| Furniture.NameDecides | src/mvxgit.c:1782-1802 | what follows an entry's value mark does not matter |
| Sticky.Repository.Sticky | src/mvxgit.c:7454-7477 | a hashed control is replaced by the one in the index, else the one committed, when that is of class hash and fits |
| Sticky.Repository.Perform | src/gitd.c:344-380 | a session of stagings, edits, flushes and commits leaves a settled geometry as it was, or as the last edit, when only hashed content is staged at the control |
| Sticky.StepSettled | src/mvxgit.c:7454-7477 | no step moves a recorded geometry except an edit of it; a commit carries it |
| Sticky.StickyOverRuns | src/mvxgit.c:7454-7477 | over any run staging hashed content at the control, it stays what was recorded or what the last edit put there |
| Sticky.FirstRecording | src/mvxgit.c:7042-7071 | the first staging of an unknown file records its geometry, at once or when the batch is flushed |
| Sticky.FirstGeometryHolds | src/mvxgit.c:7425-7477 | from then on, over any run, it is that or the last edit |
| Sticky.CommittedComesBack | src/mvxgit.c:7473-7477 | a control missing from the index but committed comes back as committed |
| Sticky.MovesOnlyWhen | src/mvxgit.c:7454-7477 | staging anything else moves it if and only if it is an edit of the control or not of class hash |
| Sticky.ControlsAre | src/mvxgit.c:7458-7462 | which paths are controls and which contents are of class hash |
| Sticky.LookedUpExactly | src/mvxgit.c:7463-7464 | a control is looked up where it is staged if and only if its file's name fits the buffer |
| Sticky.LongPathsCut | src/mvxgit.c:7045-7048 | a path of 600 bytes or more is staged under its first 599, an edited one of 700 under its first 699 |
| Sticky.UnflushedEditIsLost | src/gitd.c:355-361 | an edit under an open batch would be undone by the batch; flushing first keeps it |
| Sticky.SticksExactlyWhen | src/mvxgit.c:7425-7477 | a control git has survives another staging, direct or batched, if and only if it is of class hash and under 512 bytes, whatever is committed |
| Sticky.InBatch | src/gitd.c:344-353 | while a batch is open nothing reaches the index on disk, so of several first stagings in it the last is what it holds |
| Sticky.BatchedGeometryHolds | src/gitd.c:378-380 | a first batch records, when flushed, the last geometry batched for the file; from then on, over any run, it is that or the last edit |
| Descriptor.Parse | src/mvxgit.c:3244-3291 | the line loop gives the specification's descriptor, last line unterminated or not |
| Descriptor.Output.Add | src/mvxgit.c:3298-3325 | a guarded append leaves the buffer holding the text so far, cut to its size |
| Descriptor.RenderOpen | src/mvxgit.c:3294-3326 | the portable text, cut to the buffer, with its length when it fits |
| Descriptor.RenderNative | src/mvxgit.c:3332-3350 | the native text likewise |
| Descriptor.ParsedWellFormed | src/mvxgit.c:3244-3291 | whatever the text, the fields fit, have no newline or leading blank, and the policy is whole lines |
| Descriptor.OpenBack | src/mvxgit.c:3294-3326 | parsing the portable text gives the descriptor with its defaults, less trailing blanks and bare policy words |
| Descriptor.OpenRoundTrip | src/mvxgit.c:3244-3326 | for whatever was parsed, it gives the descriptor with its defaults if and only if there are none of those |
| Descriptor.RenderingSettles | src/mvxgit.c:3244-3326 | after one printing and parsing the rendering is a fixed point, and at once for a clean descriptor |
| Descriptor.NativeBack | src/mvxgit.c:3332-3350 | parsing the native text gives all but the backend and the open number |
| Descriptor.NativeDetour | src/mvxgit.c:3294-3350 | open to native to open loses `hash` and the `openaccount` number only, and nothing if and only if they are at their defaults |
| Descriptor.PolicyInOrder | src/mvxgit.c:3259-3270 | the policy is the permit and deny lines, trimmed and in order, if and only if together they fit the buffer |
| Descriptor.RulesBack | src/mvxgit.c:3259-3270 | policy lines printed are read back in order |
| Descriptor.KeysSet | src/mvxgit.c:3278-3289 | each key the printers write sets its own field and no other |
| Descriptor.KeysInAnyCase | src/mvxgit.c:3278-3289 | keys are read in any case, the flavour in either spelling, and others set nothing |
| Descriptor.EmptyFilled | src/mvxgit.c:3294-3303 | the defaults of an account that says nothing |
| Descriptor.BareWordIsLost | src/mvxgit.c:3263-3269 | a policy word followed only by blanks is kept once and lost on the next reading |
| Wire.HexEncode | src/gitd.c:169-180 | the loop writes the two digits of every byte |
| Wire.HexDecode | src/gitd.c:189-204 | the loop reads them, refusing an odd length or a character that is no digit |
| Wire.HexRoundTrip | src/mvsession.c:99-134 | decoding an encoding gives the bytes back |
| Wire.HexCanonical | src/mvsession.c:99-134 | encoding a decoding gives the digits back up to their case |
| Wire.DigitsRead | src/gitd.c:182-187 | both cases of a hex digit are read, and nothing else |
| Wire.NumRoundTrip | src/gitd.c:206-221 | a padded number is read back if it fits its field, and overruns it if not |
| Wire.NumbersAreDigits | src/gitd.c:213-221 | a number field is a number if and only if every character is a digit |
| Wire.ReadFrameLocal | src/gitd.c:601-670 | what a frame is read as does not depend on what follows it |
| Wire.HeaderFields | src/gitproto.h:50-52 | each field of a built header stands at its offset |
| Wire.ReadHeadBack | src/gitd.c:601-628 | the server reads the opcode, count and length the client wrote |
| Wire.HeadExactly | src/gitd.c:605-628 | a header is taken if and only if its magic and token are right, its two numbers are all digits and the length is within the limit; otherwise the error says the first of these that fails |
| Wire.ReadArgsBack | src/gitd.c:643-664 | the body splits back into the arguments, whatever bytes they hold |
| Wire.ServerReadsRequest | src/gitproto.h:50-63 | for every opcode of at most 16 characters without a trailing space, at most 99 arguments and a body within the limit: decoded exactly, consuming exactly the frame |
| Wire.ClientReadsReply | src/gitproto.h:53-54 | a reply is decoded exactly, consuming exactly the frame, if its body is within the limit |
| Pipes.Pipe.Read | src/gitd.c:138-147 | a read takes a non-empty prefix of what is there, of any length the kernel likes, or nothing |
| Pipes.Pipe.Write | src/gitd.c:149-157 | a write appends a non-empty prefix of the data, or nothing |
| Pipes.ReadFull | src/gitd.c:138-147 | however reads come short, gets exactly the n bytes if they ever come, and says so |
| Pipes.WriteFull | src/gitd.c:149-157 | however writes come short, sends exactly the data |
| Pipes.ReadAll | src/mvsession.c:166-187 | gets exactly the n bytes, and does get them when they are there and the quiet spells stay within the timeout |
| Serve.ServeSession | src/gitd.c:564-700 | the frame loop writes exactly the specified replies, reads exactly that far, and runs exactly those operations |
| Serve.ServeFrame | src/gitd.c:601-693 | one turn of it: silent, refused, farewell, or one reply |
| Serve.SplitArgs | src/gitd.c:643-664 | the body loop reads that many well-formed arguments, or refuses the body, and ignores whatever follows the last of them |
| Serve.Search | src/gitd.c:672-674 | the table scan finds an opcode's argument count |
| Serve.FindExactly | src/gitd.c:672-688 | an opcode's count is that of the first entry of its name; there is none if and only if no entry has it |
| Serve.Dispatch | src/gitd.c:672-692 | the engine runs for a known opcode with the right count, once, and the reply is its own; otherwise an error reply |
| Serve.SendReply | src/gitd.c:509-527 | the reply is framed and sent whole |
| Serve.OneReplyPerFrame | src/gitd.c:587-694 | on any run of well-formed frames with the right token, unknown opcodes and wrong counts included, one reply each, in order, and then what follows is served |
| Serve.ReplyOrder | src/gitd.c:587-694 | the i-th reply answers the i-th request after the operations before it |
| Serve.BadFrameStops | src/gitd.c:605-670 | the first malformed or wrong-token frame gets one error, runs nothing, and nothing after it is read |
| Serve.FarewellStops | src/gitd.c:639-641 | BYE or SHUTDOWN is acknowledged and nothing after it is read |
| Serve.WrongTokenStops | src/gitd.c:612-615 | after any well-formed frames, the first with another token gets the authentication error, runs nothing and ends the session, whatever else is in it |
| Serve.EngineRunsTheKnown | src/gitd.c:672-692 | over a whole session the engine runs exactly the requests with a known opcode and the right count, once and in order; every other gets the error that says which it was |
| Serve.RepliesReadBack | src/mvsession.c:618-647 | the client reads a stream of replies back one by one |
| Serve.Conversation | src/mvsession.c:566-648 | requests framed by the client and served, and the replies read by the client, are what the engine answered, in order, leaving nothing over |
| Client.SendCall | src/mvsession.c:574-616 | the bytes sent are exactly the framed request |
| Client.ReceiveReply | src/mvsession.c:618-647 | a closed session, or what the bytes there are: too few closed, no reply a protocol error, else the status and body of the frame, nothing beyond it read; and with the agent alive, within the deadline, always the latter |
| Registry.Sessions.Open | src/mvsession.c:522-561 | the registry afterwards; a live account is returned without spawning and without touching the list |
| Registry.Sessions.Close | src/mvsession.c:230-242 | unlinks exactly that session, wherever it is, and nothing when it is not there |
| Registry.Sessions.Unlink | src/mvsession.c:234-235 | the links skip one node and the list stays acyclic |
| Registry.Sessions.Lookup | src/mvsession.c:530-532 | finds a session of the account if and only if there is one |
| Registry.Sessions.MakeRoom | src/mvsession.c:534-543 | retires the oldest until one more fits under the cap |
| Registry.Sessions.Last | src/mvsession.c:539-540 | the oldest session is at the end of the list |
| Registry.StepKeeps | src/mvsession.c:522-561 | an open or a close keeps accounts distinct and within the cap |
| Registry.RunKeepsCap | src/mvsession.c:522-561 | so does every run of them |
| Registry.LiveAreNewest | src/mvsession.c:522-561 | over any run, failed spawns and closes included, the live sessions are the newest of those spawned and not closed: what is retired is always the oldest |
| Registry.RetiredForRoomOnly | src/mvsession.c:534-543 | when every open spawns and none is closed, as many are live as were ever spawned, or as the cap allows |
| Reconnect.Session.MakeCall | src/mvsession.c:665-697 | the call, its one retry, the counter and the handle handed back, as specified |
| Reconnect.Session.Replace | src/mvsession.c:503-520 | a replacement replays the remembered opens in order, into a new agent or an attached session's own, and stops at the first failure; never within a replay |
| Reconnect.OpenAllAgain | BP/GIT.AGENT:287-307 | opening again what is open takes no slot |
| Reconnect.OpenAllGrows | BP/GIT.AGENT:287-328 | opens only ever add slots at the end, so a slot once given stays |
| Reconnect.DistinctUpTo | BP/GIT.AGENT:287-328 | the agent has every file after k opens if and only if every later one is among them |
| Reconnect.ReplayOutcome | src/mvsession.c:509-519 | what a replay leaves the agent with, read off the wire's events: everything, or what came before the first failure and that open too if it was done; for a new agent, one that has the files, and one a reply behind |
| Reconnect.AttachedReplayIsIdle | src/mvsession.c:300-337 | replayed into an attached session's own agent, the opens change nothing and all succeed, whatever the account would say |
| Handles.HandlesKept | src/mvsession.c:503-520 | across a call of a spawned or attached session, replacement and all, the agent still has exactly the remembered files in order of first opening if and only if what the wire and the spawn do meets a condition over their events |
| Handles.OpenGetsItsSlot | src/mvsession.c:693-695 | a successful open hands back the slot of its file, opened before or not, replacement or not |
| Reconnect.NoSlotOnFailure | BP/GIT.AGENT:307-322 | a reply that is not OK hands back no slot |
| Reconnect.RememberedExactly | src/mvsession.c:660-662 | a file is remembered as it was named if and only if its name and part fit their buffers |
| Handles.HandlesKeptOverRuns | src/mvsession.c:503-520 | so over every run: every handle ever handed back names, at any agent that answers, the file it was handed back for |
| Handles.OrphanThenRebuild | src/mvsession.c:634-643 | what the condition shuts out: an open done whose reply could not be used shifts the next new file by one slot, which a replacement then takes back |
| Rebuilding.RebuildsBounded | src/mvsession.c:674-693 | over any run from any state, rebuilds so far never exceed 3 for each success and 3 more |
| Rebuilding.RunRebuildsBounded | src/mvsession.c:674-693 | a fresh session makes at most 3 * (1 + successes) replacements |
| Rebuilding.BoundMet | src/mvsession.c:683-688 | the bound is met |
| Rebuilding.BoundMetAlways | src/mvsession.c:683-693 | it is met for every number of successes |
| Rebuilding.SuccessForgets | src/mvsession.c:693 | after a success the next loss is replaced |
| Rebuilding.AlwaysReplaced | src/mvsession.c:674-693 | a session lost before every call is replaced every time, and every call succeeds |
| Server.RunKeepsInv | src/gitd.c:707-943 | every interleaving, with stop signals anywhere, keeps the invariant of servers, lock and parents |
| Server.StepKeepsServers | src/gitd.c:932-943 | no step makes a second server |
| Server.StepKeepsLock | src/gitd.c:799-811 | the lock is held by the server and by children that have not dropped it yet, or by a probe |
| Server.StepKeepsParents | src/gitd.c:755-811 | a child with a parent has a running server |
| Server.NeverStuck | src/gitd.c:750-811 | a server can always go on: it leaves exactly when it timed out with no fork and the idle time over |
| Server.ReapTakesAll | src/gitd.c:755-756 | any finished fork can be reaped, and the reap ends exactly when none is left |
| Server.OthersNeverStuck | src/gitd.c:886-943 | so can a starter, which wins or loses as the lock is free or not, a prober and a child |
| Server.QuietServerGoes | src/gitd.c:758-766 | a server without forks that nobody speaks to frees the lock at its next timeout once the idle time is over, and no sooner |
| Server.OneServer | src/gitd.c:904-943 | in every reachable state, whatever was stopped: at most one server, it holds the lock, its count is its unreaped forks, and every child with a parent is its child |
| Server.EveryChildHasTheServer | src/gitd.c:755-811 | with stops only of servers whose forks have finished, no child is ever at work without the server |
| Server.IdleExitIsSafe | src/gitd.c:758-766 | in every run, an idle exit happens only with no fork left and after the full idle time |
| Server.IdleSinceLastByte | src/gitd.c:758-771 | and only after the idle time since the last byte was read, or the lock was won |
| Server.LockGoesAlone | src/gitd.c:800-811 | nobody else holds the lock when such a server leaves, so closing the file does as well as unlocking it |
| Server.WinNeedsQuiet | src/gitd.c:932-939 | in every run, the lock is won only when no server is left, and no child but an orphan |
| Server.AttendedExactly | src/gitd.c:707-816 | over a whole run no child is ever at work without a server if and only if every server that exits has no fork at work then |
| Server.StopsFitRun | src/gitd.c:750-766 | which holds of every run whose stops reach servers with no fork at work, and of every run without a stop |
| Server.StopStrands | src/gitd.c:814-816 | when a stopped server gives up the lock, by unlocking or by exiting, a child is left at work without a server if and only if some fork of it had not finished; forks waiting to be reaped do not count |
| Server.StopStrandsChildren | src/gitd.c:704-705 | a run in which a child outlives its stopped server and another server starts |

## Left out

- git itself (trees, merge, fetch, push, clone, diff, refs) and libgit2 errors: blobs, trees and the index are maps, sequences and their text.
- The record backends, file creation, agent seeding and the InterCall, Jedi and CallC bridges: a file is a map from ids to records.
- The command line, help, logging, textconv and prompts.
- GITRESTORE, the working-tree pass, `.gitignore` matching and the stash adopt path; ignore and stock rules are arbitrary predicates.
- Account prefixes other than the empty one, and paths that go through another account.
- Exhausted memory, and reads past a buffer after a truncated rendering: texts that exceed a C buffer are cut where the code cuts them, or the theorem says they fit.
- NUL bytes inside dictionary items, controls and descriptors, which the C code takes for the end of the text.
- The 600-byte path buffers of dictionary lookups and of record paths: names are taken to fit.
- Case folding beyond ASCII letters, and the order of UniVerse and UniData multivalues inside an attribute.
- What UniData and MVX do with a TRANS is taken from src/mvxgit.c:307-328 and written as two evaluators; control codes other than X, and expressions that are not one TRANS, have no evaluator.
- Meaning.FlatteningPreservesMeaning: for chains whose links have nameable keys, whose arguments and names fit their 256-byte buffers, whose nested keys fit 1024 bytes and whose result fits 2048; a deeper chain than 8 is written as the code writes it and is not claimed to mean the same.
- Dictionaries seen by a translation are one fixed set, as they are with a commit to read; an add before the first commit reads the index it is changing.
- AddStatus.StatusClean: on UniData and UniVerse builds with a commit; the file's own control is not covered, nor the dictionary of the master file, nor ids that are not single path components or that bear a canonical name spelt differently here.
- Checkout.HistoryIndependent: for one file present in every tree visited; files that come and go as a whole, and the control, are not covered.
- Descriptor.Parse: `atoi` out of range is undefined in C; the model stops at the ends of a 64-bit long and keeps the low 32 bits.
- Pipes.ReadAll: errors of poll, read and write other than an interrupted call, here and in the server's loops; time is counted in the poll slices the loop counts. AGREAD and AGWRITE in src/agentcallc.c are the same two loops.
- Serve.ServeSession: the idle and liveness timers, which end a session between frames, and a client that sends part of a frame and waits.
- Reconnect.Session.MakeCall: reply bodies and their lengths; Client.ReceiveReply has them for one exchange.
- Registry.Sessions.Open: the child process, its pipes and its token; whether a spawn succeeds is a parameter.
- Handles.HandlesKept: files named with mark characters, or with names too long for the buffers they are remembered in; and how an agent that is a reply behind could come back into step, which needs a reply lost on the way.
- Handles.OrphanThenRebuild: the body of a reply is its slot, other bodies are not modelled; BP/GIT.AGENT is modelled in its OPEN alone.
- Server.OneServer: poll and fork failures other than a failed fork of a child, parsing of the HELLO line, and the retiring of a server of another build, which is the stop signal.
- Fresh.FreshFileReadsClean: in UniData and jBASE order; a dictionary item that is neither D nor I but whose type starts with I, and an I-type under a name the platform spells its own way, are not covered.
- Crossing.CheckoutThenAdd: a translation of 512 bytes or more with a newline in it, which takes a file or item name with one.
- Sticky.StickyOverRuns: paths too long for the base-name buffer.
- Sticky.BatchedGeometryHolds: a first batch into which another process writes the same control directly before it is flushed.
