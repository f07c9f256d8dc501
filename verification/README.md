# Super Ferret: verified models

Super Ferret is a desktop search index. This project models the algorithms and
protocols of its catalog and of its filter benchmark in Dafny, and proves what
they promise. `dafny verify dfyconfig.toml` checks the whole project.

- **Filters.** `Fuse`, `FuseBuild` build a binary fuse filter: counting with a
  wrapping six-bit counter, peeling, back-substitution, retries. `Invert` and
  `Screen` invert postings into key sets, write one filter a live document and
  probe them. The main result: screening never loses a match.
- **Packed columns.** `Packed` is the streaming bit writer, the random reader,
  the run decoder and the pass over rows, for widths 0 to 64. `Bits` has the
  machine words.
- **Durable publication.** `Publication` is a directory whose unsynced entries
  and file tails a crash may lose one by one, the alphabet of steps, and the
  guarantee every step and crash keeps. `Publisher` is the single writer over
  it: publishing, appending, recovering, retiring.
- **The change log.** `ChangeLog` opens a byte-level log by its framing,
  `LogAppend` frames transactions and shows that what is appended opens,
  `LogExact` that nothing else does, and `Generations` is the manifest record.
- **Lifetimes.** `Documents` and `Inodes` check transactions against the rows
  before them, and `DocumentLaws` and `InodeLaws` say what single records and
  batches come to; `Dormant` and `Prepare` decide which deleted documents may be
  revived. `Budget` follows how much of the base a log has changed.
- **The resident writer.** `Session` keeps lookups over one checkpoint under
  sparse overrides.
- **Names.** `NameOrder`, `Scatter` and `ResidentNames` build the interned
  dictionary in four passes; `FanOut` is the work sharing under it, over every
  interleaving.
- **Compaction and pacing.** `Compact` and `CompactWrite` renumber a view for a
  new checkpoint; `Bulk` limits byte rates in real time.

`Basics`, `Sorting` and `Runs` hold an option type, set sizes, library sorts and
ordered walks, and logs of transactions in general.

Where the code's promises hold only on a condition, the exact condition is
proved and a case shows it can fail: cached names (`Session.NamesExact`,
`Session.TwicePutKeptTwice`) and lookups by hash or identity
(`Session.CacheStep`, `Session.SecondHolderLost`).

## Model

| member | source | states |
|---|---|---|
| `Fuse.MixInjective` | crates/ferret-bench/src/fuse.rs:97-104 | Under every seed, keys with equal hashes are equal: the finaliser with its wrapping arithmetic loses nothing. |
| `Fuse.MixBack` | crates/ferret-bench/src/fuse.rs:97-104 | Every key comes back from its hash and the seed, by the inverse multipliers and shifts. |
| `Fuse.FingerprintBits` | crates/ferret-bench/src/fuse.rs:106-108 | A fingerprint's bits say where the low bytes of the hash's two halves differ. |
| `Fuse.SeedBack` | crates/ferret-bench/src/fuse.rs:111-117 | Every state comes back from the seed drawn from it. |
| `Fuse.SeedsDistinct` | crates/ferret-bench/src/fuse.rs:111-117 | Every draw gives a seed of its own, so no attempt repeats another. |
| `Fuse.SlotsGeometry` | crates/ferret-bench/src/fuse.rs:80-93 | For every power-of-two shape and hash, the three slots lie in three consecutive segments and below the array length. |
| `Fuse.SlotsDistinct` | crates/ferret-bench/src/fuse.rs:85-93 | The three slots differ, so a slot determines its position, and nothing outside the array is touched. |
| `Fuse.FirstSlot` | crates/ferret-bench/src/fuse.rs:86-89 | The first slot is the hash scaled down to the first segments, rounded down. |
| `Fuse.SlotBits` | crates/ferret-bench/src/fuse.rs:90-91 | Inside their segments the other slots differ from the first exactly by the hash's bits from 18 on and by its lowest bits. |
| `Fuse.SlotsTell` | crates/ferret-bench/src/fuse.rs:85-93 | Of hashes with one first slot, the second and the third slots are equal if and only if those bits are. |
| `Fuse.TallyWithout` | crates/ferret-bench/src/fuse.rs:167-171 | A slot's count, position tag and word do not depend on the order in which hashes were added: any hash may count as last. |
| `Fuse.TallyOne` | crates/ferret-bench/src/fuse.rs:176-182 | A true count of one identifies the hash and the position that are left. |
| `Fuse.UpExact` | crates/ferret-bench/src/fuse.rs:167-171 | Adding four with wrap-around and flipping the tag is exact on the six-bit count and two-bit tag. |
| `Fuse.DownExact` | crates/ferret-bench/src/fuse.rs:185-193 | Taking a hash out undoes adding it, across the wrap. |
| `Fuse.PeelOrderDistinct` | crates/ferret-bench/src/fuse.rs:119-122 | A list that can be peeled holds no hash twice. |
| `Fuse.StuckHasNoOrder` | crates/ferret-bench/src/fuse.rs:176-197 | If greedy peeling gets stuck, no other order could have peeled the list. |
| `FuseBuild.AddHash` | crates/ferret-bench/src/fuse.rs:166-172 | One hash's three updates in place, and whether some touched counter fell below four. |
| `FuseBuild.CountKeys` | crates/ferret-bench/src/fuse.rs:157-175 | After counting, every byte and word is exact for all hashes, and overflow is reported if and only if some slot truly holds 64 hashes or more. |
| `FuseBuild.OverflowStep` | crates/ferret-bench/src/fuse.rs:161-172 | A counter below four after an addition has just wrapped; over a whole list that is exactly a true count reaching 64. |
| `FuseBuild.Singles` | crates/ferret-bench/src/fuse.rs:176 | The first stack is exactly the slots with one hash, each once. |
| `FuseBuild.RemainStep` | crates/ferret-bench/src/fuse.rs:185-193 | Updating the other two slots of a peeled hash leaves every byte and word exact for the hashes that remain. |
| `FuseBuild.AgendaStep` | crates/ferret-bench/src/fuse.rs:176-193 | A slot is stacked exactly when one hash is left in it, and never twice; each round leaves one slot less to see. |
| `FuseBuild.Peel` | crates/ferret-bench/src/fuse.rs:176-194 | Peeling ends; what was removed is in an order in which no later hash touches an earlier hash's slot, and what remains is empty or stuck; together they are the input. |
| `FuseBuild.BackSubstitute` | crates/ferret-bench/src/fuse.rs:198-204 | Assigning fingerprints in reverse peel order leaves every peeled hash's fingerprint the exclusive or of its three slots. |
| `FuseBuild.OneByteHolds` | crates/ferret-bench/src/fuse.rs:218-228 | A filter tells hashes apart: given the rest, a hash is present under exactly one of the 256 values of each of its slots. |
| `FuseBuild.TrySeed` | crates/ferret-bench/src/fuse.rs:156-210 | One seed is accepted if and only if no counter overflows and some peel order exists, and then every key is present. |
| `FuseBuild.BuildShape` | crates/ferret-bench/src/fuse.rs:148-213 | The first seed of at most 100 that peels is the one used; failing means none did. |
| `FuseBuild.Build` | crates/ferret-bench/src/fuse.rs:120-141 | The result is for the fewest added segments and, of their attempts, the first seed that peels; it holds every key, and is nothing if and only if there are keys and no seed of any tried shape peels; no keys give the empty filter. |
| `FuseBuild.DuplicatesNeverPeel` | crates/ferret-bench/src/fuse.rs:119-122 | A key list with a duplicate never peels, at any seed and shape. |
| `Screen.Write` | crates/ferret-bench/src/fuse.rs:243-251 | The bytes appended are the serialized filter; an empty filter appends nothing. |
| `Screen.HeaderRoundTrip` | crates/ferret-bench/src/fuse.rs:243-290 | Seed, geometry and fingerprints come back from the bytes written. |
| `Screen.EvalIsSomePass` | crates/ferret-bench/src/screen.rs:86-95 | A need holds if and only if every key of one of its alternatives does, the alternatives being listed without evaluating it. |
| `Bits.FromBytesAt` | crates/ferret-bench/src/fuse.rs:264-276 | Byte `i` of a little-endian field is the number divided by 256 to the `i`, modulo 256. |
| `Screen.EvalMonotone` | crates/ferret-bench/src/screen.rs:86-95 | A need that holds under a test holds under any test that says yes at least as often. |
| `Screen.FilterReader.Admits` | crates/ferret-bench/src/screen.rs:288-324 | The resident copy, the whole read and the three single-byte reads all give the answer of the stored slice: yes if and only if every key of some alternative of the need is present there. |
| `Screen.PathsAgree` | crates/ferret-bench/src/screen.rs:260-324 | Positional probes and whole-slice probes agree on every need. |
| `Screen.NoLostMatch` | crates/ferret-bench/src/screen.rs:260-267 | A need met by a key set is admitted by the serialized filter built from it. |
| `Invert.KeyCounts` | crates/ferret-bench/src/screen.rs:135-139 | Each count is the number of that document's postings. |
| `Invert.Fill` | crates/ferret-bench/src/screen.rs:149-163 | Every document's range holds exactly its postings' keys. |
| `Invert.CompactRange` | crates/ferret-bench/src/screen.rs:171-178 | One sorted range is deduplicated down to the writer, which never passes the reader. |
| `Invert.CompactAll` | crates/ferret-bench/src/screen.rs:164-185 | All ranges in place: what is kept is every document's distinct keys in turn, with exact offsets. |
| `Invert.DistinctKeys` | crates/ferret-bench/src/screen.rs:141-144 | A document's key set is strictly ascending and has exactly the keys of its postings. |
| `Invert.InvertPostings` | crates/ferret-bench/src/screen.rs:144-186 | Count, fill, sort and compact give every document its distinct keys. |
| `Invert.WriteFilters` | crates/ferret-bench/src/screen.rs:211-248 | Each live document's bytes are a filter built for its keys, dead ones are empty; it fails if and only if some live document's filter cannot peel. |
| `Invert.ScreeningLosesNothing` | crates/ferret-bench/src/screen.rs:144-326 | A live document with a posting for every key of one alternative of a need is admitted by the bytes stored for it. |
| `Invert.Subset` | crates/ferret-bench/src/screen.rs:752-770 | The two-pointer walk decides inclusion of sorted lists. |
| `Packed.WidthLeast` | crates/ferret-catalog/src/packed.rs:32-41 | The width is the least whose mask covers the maximum. |
| `Packed.LenLeast` | crates/ferret-catalog/src/packed.rs:43-45 | Before its padding a column has the fewest bytes that hold its bits. |
| `Packed.StreamAt` | crates/ferret-catalog/src/packed.rs:1-31 | Value `i` is exactly the bits at `i * width` of the column read as one number. |
| `Packed.PushExact` | crates/ferret-catalog/src/packed.rs:138-151 | Pending word and carry together lose and repeat nothing, at a full word, at shift 64 and with nothing pending. |
| `Packed.Writer.Push` | crates/ferret-catalog/src/packed.rs:138-151 | Output and pending bits together are exactly the values pushed, the new one cut to the width. |
| `Packed.Writer.Finish` | crates/ferret-catalog/src/packed.rs:153-168 | Finishing yields exactly the stated length and the stream of values. |
| `Packed.GetExact` | crates/ferret-catalog/src/packed.rs:71-81 | A read is the bits at its position for every width, straddling bytes included. |
| `Packed.PackedValue` | crates/ferret-catalog/src/packed.rs:43-81 | Reading value `i` of what was written gives value `i`. |
| `Packed.Pack` | crates/ferret-catalog/src/packed.rs:126-168 | Packing a whole column gives its exact length and every value back. |
| `Packed.DecodeExact` | crates/ferret-catalog/src/packed.rs:91-113 | A run's slice, cut at its own start, holds each of its values. |
| `Packed.Decode` | crates/ferret-catalog/src/packed.rs:91-113 | Decoding a run equals element-wise reads at every width and writes only the run's part of the buffer. |
| `Packed.Runs.Next` | crates/ferret-catalog/src/packed.rs:194-211 | Each call yields the next row's value, and nothing after the last. |
| `Packed.Runs.SizeHint` | crates/ferret-catalog/src/packed.rs:212-216 | The hint is exactly the rows left. |
| `Packed.Collect` | crates/ferret-catalog/src/packed.rs:170-216 | A pass yields every row once in order. |
| `Publication.StepSafe` | crates/ferret-catalog/src/publication.rs:28-76 | Every allowed step keeps the guarantee, whether it is done, undone or torn. |
| `Publication.AnyLoss` | crates/ferret-catalog/src/transaction.rs:642-671 | A crash may leave any choice of possible entries, name by name, and any tail of every file not clean. |
| `Publication.OnlySyncsSettle` | crates/ferret-catalog/src/publication.rs:50-76 | Without its sync no step makes an entry or a file's content sure; the directory sync leaves the entries seen and no others. |
| `Publication.AtMostOrder` | crates/ferret-catalog/src/generation.rs:50-66 | Generations are in one order, checkpoints before sequences, in which a successor comes later. |
| `Publication.PublishSafe` | crates/ferret-catalog/src/transaction.rs:642-671 | Renaming the manifest of a complete durable pair over `current` keeps the guarantee while both old and new entry are possible. |
| `Publication.CrashSafe` | crates/ferret-catalog/src/transaction.rs:642-671 | A crash that loses any choice of unsynced entries and tails keeps the guarantee. |
| `Publication.RunSafe` | crates/ferret-catalog/src/log.rs:411-462 | Over every run every state is safe, and what was acknowledged is never superseded by something older. |
| `Publication.CrashRecovers` | crates/ferret-catalog/src/log.rs:411-432 | After any run and any crash, `current` is absent only before the first acknowledged publication, and else names a durable complete pair. |
| `Publication.RetryFindsNewer` | crates/ferret-catalog/src/log.rs:101-150 | A reader whose pair is gone finds another checkpoint when it reads the manifest again. |
| `Publisher.Store.NextCheckpoint` | crates/ferret-catalog/src/transaction.rs:555-579 | The first number from the successor on with neither file present; nothing only if none is left. |
| `Publisher.Store.WriteTemp` | crates/ferret-catalog/src/transaction.rs:636-640 | A synced private temporary; nothing public changes; it fails only if a step did. |
| `Publisher.Store.StagePair` | crates/ferret-catalog/src/transaction.rs:642-662 | Snapshot and log header are durably present under their names before anything refers to them. |
| `Publisher.Store.PublishManifest` | crates/ferret-catalog/src/log/writer.rs:521-533 | The new manifest is the one a crash leaves, once its directory sync is done; it is acknowledged exactly then, and fails only if a step did. |
| `Publisher.Store.Publish` | crates/ferret-catalog/src/transaction.rs:642-671 | Publishing a checkpoint ends published and known durable, or some step failed; before the rename a failure changes nothing that was known. |
| `Publisher.Store.Create` | crates/ferret-catalog/src/transaction.rs:686-711 | The first publication. |
| `Publisher.Store.Checkpoint` | crates/ferret-catalog/src/transaction.rs:488-603 | A new checkpoint supersedes the old; the old pair goes only after the new manifest is durable; a failure poisons as stated. |
| `Publisher.Store.Retire` | crates/ferret-catalog/src/transaction.rs:541-548 | Removing the old pair loses nothing a crash could need; unless a step failed both files are gone, and no other name is touched. |
| `Publisher.Store.Append` | crates/ferret-catalog/src/log/writer.rs:351-411 | An acknowledged append leaves the log one transaction longer and nothing else; any failure leaves the session unusable and what was acknowledged in force. |
| `Publisher.Store.Recover` | crates/ferret-catalog/src/log.rs:411-432 | Recovery keeps exactly the log `current` refers to, makes that choice durable, and leaves no other file. |
| `Publisher.Store.Cut` | crates/ferret-catalog/src/log.rs:415-424 | Cutting the uncertain tail keeps the committed prefix. |
| `Publisher.Store.Cleanup` | crates/ferret-catalog/src/log.rs:434-462 | Only the current pair and manifest are left, and only after a directory sync. |
| `Dormant.CanonicalUnique` | crates/ferret-catalog/src/dormant.rs:36-48 | Highest id for each hash, then the greatest ids up to the cap: the rule leaves one table. |
| `Dormant.Canonicalize` | crates/ferret-catalog/src/dormant.rs:41-48 | Sort, drop repeated hashes, sort, drain: exactly the canonical table, by id. |
| `Dormant.NewCoverage` | crates/ferret-catalog/src/dormant.rs:25-32 | Coverage is of ids below the frontier but for the exceptions, which are in order. |
| `Dormant.Coverage.Test` | crates/ferret-catalog/src/dormant.rs:34-36 | The search through the exceptions decides coverage. |
| `Prepare.Evict` | crates/ferret-catalog/src/dormant.rs:159-188 | Two pointers over retained and newly dying ids leave the greatest `limit` of both; the lists never run out first. |
| `Prepare.Settle` | crates/ferret-catalog/src/dormant.rs:143-158 | Which dying documents keep a permission and which retained ones lose theirs, hash by hash. |
| `Prepare.SettledWinners` | crates/ferret-catalog/src/dormant.rs:130-158 | What settling leaves is the highest claimant of every hash. |
| `Prepare.ClaimsAre` | crates/ferret-catalog/src/dormant.rs:107-142 | Claims are the kept permissions no record is about, and the live documents whose last record is an authorized plain delete. |
| `Prepare.Prepare` | crates/ferret-catalog/src/dormant.rs:107-202 | Applying the prepared records leaves exactly the canonical table of all claims under the smaller cap, the same live documents, and changes only covered deletes and untouched permissions. |
| `Documents.NextValid` | crates/ferret-catalog/src/overlay.rs:342-449 | An accepted transaction keeps a view well formed. |
| `Documents.BoundForever` | crates/ferret-catalog/src/overlay.rs:342-449 | Over every run an id keeps its hash through death and revival; once deleted without permission or forgotten it never comes back. |
| `Documents.OneHash` | crates/ferret-catalog/src/overlay.rs:377-384 | At any two points of a run an id has at most one hash, so a permission has the hash the document died with. |
| `Documents.NoGaps` | crates/ferret-catalog/src/overlay.rs:50-61 | Every id allocated in a run was live at some later view of it: allocation leaves no gaps. |
| `DocumentLaws.PutLaw` | crates/ferret-catalog/src/overlay.rs:374-386 | A lone put is accepted if and only if it is of the next new id, a live document's own hash, or the hash a permission keeps; then the id is live under it, no longer retained, and nothing else changes. |
| `DocumentLaws.DeleteLaw` | crates/ferret-catalog/src/overlay.rs:387-399 | A lone delete is accepted if and only if its document is live, which it ends. |
| `DocumentLaws.GrantLaw` | crates/ferret-catalog/src/overlay.rs:387-449 | A lone grant is accepted if and only if its document is live under that hash, no permission has the hash, and there is room. |
| `DocumentLaws.ForgetLaw` | crates/ferret-catalog/src/overlay.rs:400-402 | A lone forget is accepted if and only if there is a permission, which it ends. |
| `DocumentLaws.EachSubject` | crates/ferret-catalog/src/overlay.rs:356-404 | In any accepted transaction every document's last record has the subject it needs. |
| `DocumentLaws.Batched` | crates/ferret-catalog/src/overlay.rs:351-406 | Accepted transactions about different documents are accepted as one, to the same view. |
| `Documents.FoldIsRun` | crates/ferret-catalog/src/overlay.rs:229-280 | Transactions accepted one after another form a run. |
| `Documents.PrepareTransaction` | crates/ferret-catalog/src/dormant.rs:107-202 | A change set in order, once prepared, passes every check a reader makes. |
| `Documents.Projection.CheckDoc` | crates/ferret-catalog/src/overlay.rs:357-396 | One document's record is accepted exactly by the simple rule. |
| `Documents.Projection.CheckDocs` | crates/ferret-catalog/src/overlay.rs:342-405 | A transaction is accepted if and only if every last record is in order and births are exactly the allocated ids; the live count is exact and never underflows. |
| `Documents.Projection.AdvanceDormant` | crates/ferret-catalog/src/overlay.rs:411-449 | Permissions advance at the cost of changed rows exactly when the whole new table is unique and within the cap; otherwise nothing changes. |
| `Documents.Projection.Apply` | crates/ferret-catalog/src/overlay.rs:120-133 | The rows over the base then present the next view. |
| `Documents.Projection.Load` | crates/ferret-catalog/src/overlay.rs:229-280 | A log is accepted if and only if every transaction is admissible and the stated count is the number of live documents. |
| `Inodes.Step` | crates/ferret-catalog/src/overlay.rs:281-339 | One accepted transaction keeps retirement, directory-or-not, stated kinds, and births. |
| `Inodes.LifetimesKept` | crates/ferret-catalog/src/overlay.rs:281-339 | Over every run a retired id never lives again, an inode never changes between directory and not, and a stated kind is kept. |
| `Inodes.NoGaps` | crates/ferret-catalog/src/overlay.rs:338 | Every id below the counter was live at some point of the run. |
| `InodeLaws.PutLaw` | crates/ferret-catalog/src/overlay.rs:298-336 | A lone put is accepted if and only if it is of the next new id, or of a live inode under its stated kind or on its side of directory. |
| `InodeLaws.DeleteLaw` | crates/ferret-catalog/src/overlay.rs:298-336 | A lone delete is accepted if and only if its inode is live, which it ends. |
| `InodeLaws.OneMoreOrLess` | crates/ferret-catalog/src/overlay.rs:298-336 | A birth adds an inode, and a directory only of that kind; a death takes away what it was. |
| `InodeLaws.BaseDirs` | crates/ferret-catalog/src/overlay.rs:494-508 | Of a checkpoint's inodes the first are its directories. |
| `InodeLaws.EachSubject` | crates/ferret-catalog/src/overlay.rs:298-336 | In any accepted transaction every inode's last record has the subject it needs. |
| `InodeLaws.Batched` | crates/ferret-catalog/src/overlay.rs:281-339 | Accepted transactions about different inodes are accepted as one, to the same view. |
| `Inodes.FoldIsRun` | crates/ferret-catalog/src/overlay.rs:229-280 | A loaded namespace log is a run. |
| `Inodes.Projection.LiveInodeExact` | crates/ferret-catalog/src/overlay.rs:494-501 | The lookup from row or checkpoint is right for every id, because every id from the base count to the counter has a row. |
| `Inodes.Projection.CheckOne` | crates/ferret-catalog/src/overlay.rs:298-336 | One inode's record is accepted exactly by the simple rule. |
| `Inodes.Projection.CheckInodes` | crates/ferret-catalog/src/overlay.rs:281-339 | A transaction is accepted if and only if admissible, with inode and directory counts exact. |
| `Inodes.Projection.Load` | crates/ferret-catalog/src/overlay.rs:229-280 | A log is accepted if and only if all its transactions are and both stated counts are exact. |
| `Session.CacheStep` | crates/ferret-catalog/src/session.rs:484-552 | From exact overrides, clearing what touched ids held and installing what they hold is exact, and every lookup right, if and only if no key lost its last touched holder while an untouched id holds it: for documents by hash and for files by identity. |
| `Session.UniqueHidesNone` | crates/ferret-catalog/src/session.rs:266-310 | One live holder for each key is enough for that. |
| `Documents.TwoHolders` | crates/ferret-catalog/src/overlay.rs:342-405 | Accepted transactions lead to two live documents with one hash, and on to the death of one alone. |
| `Session.SecondHolderLost` | crates/ferret-catalog/src/session.rs:301-310 | Along that accepted run the survivor is hidden: the lookup finds nothing, and a search would find it. |
| `Session.NamesExact` | crates/ferret-catalog/src/session.rs:450-477 | The cached names are right for every inode if and only if every name put away from where it was stays where it was put. |
| `Session.NamedByLast` | crates/ferret-catalog/src/session.rs:454-476 | A name is where its last record puts it, or where it was if it has none. |
| `Session.OncePerNameSteady` | crates/ferret-catalog/src/session.rs:450-477 | One record for each name id is enough for that. |
| `Session.TwicePutKeptTwice` | crates/ferret-catalog/src/session.rs:450-477 | Two puts of one name in one set leave it under both inodes: a concrete case. |
| `Session.AnswerUnique` | crates/ferret-catalog/src/session.rs:266-310 | A correct answer is the only one, so cached and rebuilt lookups agree. |
| `Session.KeyTells` | crates/ferret-catalog/src/session.rs:266-275 | Two identities have two keys. |
| `Session.TouchedAre` | crates/ferret-catalog/src/session.rs:488-525 | An id is touched by every kind of record about it and by no other. |
| `Session.WriterSession.Rebuild` | crates/ferret-catalog/src/session.rs:75-139 | Tables built afresh answer as a search of the view if and only if the overlay's rows hide no document of the checkpoint. |
| `Session.WriterSession.Identity` | crates/ferret-catalog/src/session.rs:266-275 | What is found is a live inode, not a directory, of exactly that device and inode number; nothing is found only if there is none. |
| `Session.WriterSession.Document` | crates/ferret-catalog/src/session.rs:301-310 | What is found has exactly that hash, by its row or failing that the checkpoint; nothing is found only if no document has it. |
| `Session.WriterSession.NamesFor` | crates/ferret-catalog/src/session.rs:382-403 | The names are exactly the view's names of that inode. |
| `Session.WriterSession.Commit` | crates/ferret-catalog/src/session.rs:427-448 | After a commit every lookup is right if and only if the change set hides no document and no file and puts each name for good; across an epoch, if and only if the rebuilt tables are. |
| `Session.WriterSession.CacheNames` | crates/ferret-catalog/src/session.rs:450-477 | Each inode's cached names are what tracking the records comes to. |
| `Session.WriterSession.CacheIdentities` | crates/ferret-catalog/src/session.rs:484-527 | Document and identity caches are exact for the final view, each if and only if the set hides none of theirs; permissions always are. |
| `Session.ChangedDocs` | crates/ferret-catalog/src/session.rs:94-107 | Overrides from the overlay's rows, in any order of rows, are exact and lookups right if and only if the rows hide no document of the checkpoint. |
| `Session.NameTables` | crates/ferret-catalog/src/session.rs:110-124 | First names and aliases together are each inode's names. |
| `NameOrder.PrefixMonotone` | crates/ferret-catalog/src/resident_names.rs:118-124 | The eight-byte prefix never reverses the order of two names. |
| `NameOrder.PrefixByte` | crates/ferret-catalog/src/resident_names.rs:120-125 | A prefix is the name's first eight bytes, zeros after a shorter name. |
| `NameOrder.PrefixThenNameIsNameLe` | crates/ferret-catalog/src/resident_names.rs:218-225 | Comparing prefixes first is comparing names. |
| `NameOrder.PartitionPoint` | crates/ferret-catalog/src/resident_names.rs:282 | The binary search counts the splitters at most the key. |
| `NameOrder.PartsInOrder` | crates/ferret-catalog/src/resident_names.rs:133-146 | Every name of a part sorts before every name of a later part. |
| `NameOrder.Splitters` | crates/ferret-catalog/src/resident_names.rs:136-146 | Sampled splitters rise and are one fewer than the parts, for every non-empty list; each is the sample's order statistic at its share. |
| `NameOrder.SpreadEven` | crates/ferret-catalog/src/resident_names.rs:136-146 | Each place is as near below its share as whole numbers allow. |
| `Scatter.BeforeAll` | crates/ferret-catalog/src/resident_names.rs:296-318 | Group sizes tile the whole. |
| `Scatter.GroupedStep` | crates/ferret-catalog/src/resident_names.rs:310-316 | Writing the next value at its place keeps every group filled in order and no other group touched. |
| `Scatter.OfAt` | crates/ferret-catalog/src/resident_names.rs:338-351 | A value is found again in its group by counting. |
| `ResidentNames.OneDictionary` | crates/ferret-catalog/src/resident_names.rs:412-424 | A list of names has one dictionary, so the result is the same at every thread count. |
| `ResidentNames.Assign` | crates/ferret-catalog/src/resident_names.rs:268-292 | Each row's part fits a byte, and every chunk's count is exact. |
| `ResidentNames.Slots` | crates/ferret-catalog/src/resident_names.rs:299-308 | A chunk's slots begin after earlier parts and earlier chunks' rows of the part. |
| `ResidentNames.Group` | crates/ferret-catalog/src/resident_names.rs:296-318 | Rows grouped by part, ascending within each, for every division into chunks. |
| `ResidentNames.Intern` | crates/ferret-catalog/src/resident_names.rs:202-213 | Each name is met once, and each row's key stands for its name. |
| `ResidentNames.Rank` | crates/ferret-catalog/src/resident_names.rs:214-227 | Sorting the distinct names and remapping keeps every key on its name. |
| `ResidentNames.BuildPart` | crates/ferret-catalog/src/resident_names.rs:201-254 | One part: strictly ascending names, each row's local key in its place, each list its name's rows in order; nothing outside the span changes. |
| `ResidentNames.BuildParts` | crates/ferret-catalog/src/resident_names.rs:357-379 | Every part is built in its own span, whatever the others hold. |
| `ResidentNames.Keys` | crates/ferret-catalog/src/resident_names.rs:322-353 | Each row's global key is its part's first key plus its local key. |
| `ResidentNames.BuildWith` | crates/ferret-catalog/src/resident_names.rs:424-481 | At any rising splitters and any chunks the four passes give the dictionary: ascending distinct names, ranks as keys, exact ascending postings. |
| `ResidentNames.Build` | crates/ferret-catalog/src/resident_names.rs:400-481 | The same for every list and every number of threads. |
| `FanOut.StepInv` | crates/ferret-catalog/src/fan_out.rs:35-56 | Every atomic step of any thread keeps each index unclaimed, held by one thread, or done with its own result. |
| `FanOut.RunInv` | crates/ferret-catalog/src/fan_out.rs:35-56 | That holds over every interleaving. |
| `FanOut.JoinedIsDone` | crates/ferret-catalog/src/fan_out.rs:17-64 | Once joined, each item was claimed once and in order and each result is its item's, whichever helpers started. |
| `FanOut.StepShrinks` | crates/ferret-catalog/src/fan_out.rs:35-45 | Every step leaves less to do: every schedule ends. |
| `FanOut.SomeStep` | crates/ferret-catalog/src/fan_out.rs:46-57 | Until all are joined some step can be taken. |
| `FanOut.NoThreadWaits` | crates/ferret-catalog/src/fan_out.rs:35-57 | Whatever the others do, a thread that has started and not exited can move. |
| `FanOut.Run` | crates/ferret-catalog/src/fan_out.rs:17-64 | Taking any enabled step at each turn ends with the results in the items' order. |
| `Compact.NewPlan` | crates/ferret-catalog/src/compact.rs:31-86 | Renumbering succeeds if and only if a plan exists, and then numbers live inodes one to one with directories first, each under a lower-numbered parent by the one row that names it. |
| `Compact.OnlyOne` | crates/ferret-catalog/src/compact.rs:51-56 | Under a plan a directory has one name. |
| `Compact.RowsAreChildren` | crates/ferret-catalog/src/compact.rs:57-76 | Under a plan the name rows of a directory are exactly its children. |
| `Compact.RootUnnamed` | crates/ferret-catalog/src/compact.rs:44-53 | Under a plan a root has none. |
| `Compact.PlanTotal` | crates/ferret-catalog/src/compact.rs:71-73 | A plan has all names of all directories. |
| `CompactWrite.DocRow` | crates/ferret-catalog/src/compact.rs:96-107 | The subtraction shortcut and the search find the same row, or that there is none. |
| `CompactWrite.CountReferences` | crates/ferret-catalog/src/compact.rs:138-184 | References are counted exactly; it fails for a document with no row, with no references, with other than the view's stored count or more than 32 bits hold, and only then. |
| `CompactWrite.ChildBack` | crates/ferret-catalog/src/compact.rs:89-94 | A written child reads back as the same target under the new numbers. |
| `CompactWrite.WriteNames` | crates/ferret-catalog/src/compact.rs:277-308 | Rows by parent and view order, children renumbered, offsets exact into the heap. |
| `CompactWrite.SizeNames` | crates/ferret-catalog/src/compact.rs:188-222 | The size found beforehand is the size of the heap written; a heap beyond 32-bit offsets is refused. |
| `CompactWrite.ReadsBack` | crates/ferret-catalog/src/compact.rs:277-308 | Every written row reads back as its old name: parent, target and bytes. |
| `Bulk.BeforeFits` | crates/ferret-catalog/src/bulk.rs:116-147 | What ended in a window before one of its transfers fits the rate. |
| `Bulk.AllowanceExact` | crates/ferret-catalog/src/bulk.rs:140-146 | At the rate, the allowance is exactly what the bytes take. |
| `Bulk.WindowBound` | crates/ferret-catalog/src/bulk.rs:116-147 | In every closed window that ends before the clock saturates, bytes are at most the rate times its length and one largest transfer. |
| `Bulk.WindowTight` | crates/ferret-catalog/src/bulk.rs:116-147 | The extra transfer is needed: a concrete window. |
| `Bulk.Limiter.Transfer` | crates/ferret-catalog/src/bulk.rs:116-147 | A transfer waits out its predecessor's allowance and starts its own at completion; counters are exact; rate zero and empty transfers are not paced. |
| `Bulk.Limiter.Bounded` | crates/ferret-catalog/src/bulk.rs:116-147 | The bound holds of everything a limiter ever let through. |
| `Budget.FamilyOrder` | crates/ferret-catalog/src/budget.rs:79-96 | Replaying by family leaves the same sets as commit order. |
| `Budget.SumsUnique` | crates/ferret-catalog/src/budget.rs:97-128 | The sets are determined by the records; dirty and dead never meet. |
| `Budget.DeadCounted` | crates/ferret-catalog/src/budget.rs:123-128 | Dead counts are of the checkpoint's inodes deleted and of its names whose last record deletes them. |
| `Budget.RecordsCount` | crates/ferret-catalog/src/budget.rs:97-122 | Every row of an inode touches it, and every put or delete of a name counts. |
| `Budget.FamiliesApart` | crates/ferret-catalog/src/budget.rs:84-90 | Stat rows are replayed apart from names and lifetimes. |
| `Budget.Budget.Apply` | crates/ferret-catalog/src/budget.rs:97-128 | One record: touched and never deleted is dirty, deleted is dead for ever, names follow their last record. |
| `Budget.Budget.Project` | crates/ferret-catalog/src/budget.rs:129-140 | Projecting a transaction gives the budget of the longer log and leaves this one alone. |
| `Budget.Budget.Open` | crates/ferret-catalog/src/budget.rs:79-96 | Opening a log family by family gives its budget. |
| `Budget.Budget.Agree` | crates/ferret-catalog/src/budget.rs:79-140 | Projected and opened budgets of one log are equal in every set and total. |
| `ChangeLog.ReadBlocks` | crates/ferret-catalog/src/log.rs:366-407 | Descriptors are accepted if and only if they tile the body with each family at most once; no sum or difference leaves its width. |
| `ChangeLog.BlocksTile` | crates/ferret-catalog/src/log.rs:366-407 | Accepted blocks lie end to end from the descriptors to the footer. |
| `ChangeLog.ReadEnvelope` | crates/ferret-catalog/src/log.rs:305-363 | The transaction that stands at a place, or that there is none. |
| `ChangeLog.TransactionUnique` | crates/ferret-catalog/src/log.rs:305-363 | At most one transaction stands at a place. |
| `ChangeLog.Open` | crates/ferret-catalog/src/log.rs:174-229 | A log opens to the one framing of its committed prefix, or nothing if there is none. |
| `ChangeLog.Steps` | crates/ferret-catalog/src/log.rs:209-222 | Sequences rise by one from the checkpoint's and positions only rise. |
| `ChangeLog.CountersNeverFall` | crates/ferret-catalog/src/log.rs:336-342 | Counters never fall between any two places of a log. |
| `ChangeLog.AcceptedTiles` | crates/ferret-catalog/src/log.rs:205-222 | Every byte after the header is in exactly one transaction, and there are as many as sequences. |
| `ChangeLog.PrefixDecides` | crates/ferret-catalog/src/log.rs:188-229 | What opens depends only on the bytes up to the committed end. |
| `ChangeLog.Recover` | crates/ferret-catalog/src/log.rs:411-424 | Cutting the suffix changes nothing that opens. |
| `LogAppend.FrameReadsBack` | crates/ferret-catalog/src/log/writer.rs:472-519 | What is framed reads back, block for block and byte for byte. |
| `LogAppend.AppendAccepted` | crates/ferret-catalog/src/log/writer.rs:351-449 | An accepted log with a framed transaction appended is accepted with exactly that one more, whose blocks hold the payloads' bytes. |
| `LogAppend.AppendOverTail` | crates/ferret-catalog/src/log/writer.rs:401-405 | What stood past the committed end, or is left beyond the new transaction, makes no difference to that. |
| `LogAppend.FreshAccepted` | crates/ferret-catalog/src/log.rs:88-98 | A header alone is an accepted empty log. |
| `LogExact.OnlyFrames` | crates/ferret-catalog/src/log.rs:305-407 | Whatever opens as a transaction of this format with genuine blocks is, byte for byte, the frame of the payloads it holds. |
| `LogExact.OneHeader` | crates/ferret-catalog/src/log.rs:88-98 | A log goes with one identity and one checkpoint sequence only. |
| `LogExact.LegacyHead` | crates/ferret-catalog/src/log.rs:317-322 | A head that says format 5 is accepted wherever one of this format is. |
| `LogAppend.PayloadsFrame` | crates/ferret-catalog/src/log/writer.rs:477-490 | Any non-empty list of encoded records makes payloads that can be framed. |
| `LogAppend.FamilyPayload` | crates/ferret-catalog/src/log/writer.rs:478-490 | Every family with records has its payload, with all their bytes and their number. |
| `LogAppend.RecordAt` | crates/ferret-catalog/src/log/writer.rs:481-482 | Each record's bytes follow those of its family's records before it. |
| `LogAppend.CountIs` | crates/ferret-catalog/src/log/writer.rs:480-486 | A block's count is the number of its family's records. |
| `LogAppend.CheckedSize` | crates/ferret-catalog/src/log/writer.rs:453-470 | The size found record by record is the framed length; refused exactly for a record that does not decode, a family count beyond 32 bits or a length beyond 64. |
| `Generations.Successor` | crates/ferret-catalog/src/generation.rs:50-66 | The next identity is one more in both parts and is refused exactly where either would run out. |
| `Generations.CheckedIsAdvanced` | crates/ferret-catalog/src/generation.rs:198-216 | A manifest goes with a checkpoint if and only if it is the checkpoint's own, field by field but for its log end, or a later state of it. |
| `Generations.AdvancedStaysChecked` | crates/ferret-catalog/src/generation.rs:198-216 | Whatever advances from a manifest that goes with a checkpoint goes with it too. |
| `Generations.Encode` | crates/ferret-catalog/src/generation.rs:116-149 | The fixed record has every field at its place, reserved bytes zero, and is sealed. |
| `Generations.EncodeDecode` | crates/ferret-catalog/src/generation.rs:116-196 | A manifest comes back from its encoding exactly if its fields are acceptable. |
| `Generations.DecodeEncode` | crates/ferret-catalog/src/generation.rs:151-196 | A record of this format that decodes is the one encoding of what it decodes to. |
| `Generations.LegacyDecodes` | crates/ferret-catalog/src/generation.rs:152-196 | A record of the format before decodes to the same fields. |
| `Generations.AcceptedCounts` | crates/ferret-catalog/src/generation.rs:173-187 | The counts a manifest is accepted with are exactly those some view under its counters has. |

## Left out

- Packed.Writer.Push: a value above the width is cut to it, as the code masks it; callers promise values that fit.
- Screen.FilterReader.Admits: the offsets are taken to bound well-formed or empty filters, which the code checks as it reads and reports as an error.
- Publisher.Store.Append: a log is a sequence of blocks here, one for its header and one for each transaction; its bytes are modelled in ChangeLog and LogAppend.
- Publisher.Store.Recover: acknowledges what it makes durable; the read errors and payload checks that come first are not part of this model.
- Publisher.Store.Retire: a removal that fails is not reported, as in the code.
- Documents.Projection.Load: that counters never fall is required of the log, because opening it has checked that (ChangeLog.CountersNeverFall).
- Inodes.Projection.Load: the same.
- CompactWrite.CountReferences: the statistics and link targets the same walk sizes are not part of this model.
- LogAppend.CheckedSize: the descriptors' lengths are added last and unchecked in the code; here that sum is exact.
- Session.WriterSession.Document: with several live holders of one hash any of them is an answer.
- Budget.Budget.Open: a committed transaction has records, which the framing checks.
- Bulk.WindowBound: durations are reals, so rounding to nanoseconds is not modelled; windows end before the longest representable time.
- Compact.NewPlan: roots come already sorted by path, and names already refer to live inodes.
- Compaction limits (`BudgetUsage::reached`): a pure test of the totals proved in `Budget`.
- Floating-point sizing of a filter (`Shape::for_size`) and its false-positive rate: any power-of-two shape with at least one segment is allowed.
- The digest is an arbitrary function; no tamper detection is claimed.
- Reading errors, lock files, `directory_identity`, command lines, reports and timing.
- The legacy log without a header (`log_end` of zero) and format 5 checkpoints, but for the format 5 markers that framing and manifests accept.
- Sequence numbers are unbounded in `Publisher`; their exhaustion is modelled in `Generations` and `ChangeLog`.
- A rename loses each name's entry on its own in a crash, which is more than a file system that renames atomically may lose.
- A failed step may have had its whole effect, part of it if it writes, or none; an operation that reports failure while its effect stays is modelled as one after which the writer stops.
- The passes of the name build run one chunk after another; that sharing them among threads changes nothing is proved in `FanOut` for work that yields values.
- Packed byte tables of the dictionary, blocked columns and the record codec are taken as lossless.
- `LogAppend.Frame` gives a transaction's bytes as one expression where the code patches a buffer.
- Pairs of device and inode number are one number in `Session`, in the same order.
- Validation of paths, link counts and stat fields across families.
