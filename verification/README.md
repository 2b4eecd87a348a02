# Maincopy: proofs about content archives, identities, resolution and backups

This Dafny project models the deterministic core of Maincopy, a self-hosted publishing system, and
proves what that core promises. Bytes are integers from 0 to 255 and strings are byte sequences
(UTF-8 as section 4 of RFC 3629 defines it, where the program checks it). Files are a map from
names to bytes. BLAKE3 is a parameter: an arbitrary function of a context string and transcript
bytes, never assumed injective; where a digest comparison matters, the lemma names the two
transcripts that would have to collide. `usize` is 64 bits wide.

`dafny verify dfyconfig.toml` checks everything.

## What is modelled

**Candidate archives and their store** (`crates/markdown-compiler`). `framing.dfy`, `ordering.dfy`
and `content.dfy` hold the shared vocabulary: length framing and prefix-free codes, stable sorting
and uniqueness of sorted arrangements, and the content tree with its limits. `transcript.dfy` and
`tree_digest.dfy` model the framed transcripts and the order-independent tree digest.
`path_registry.dfy` is the case-folding prefix registry, `tree_validation.dfy` the validation of a
tree, `archive_format.dfy` the encoder and the size calculation, `archive_decoding.dfy` the bounded
decoder as functions and `archive_reader.dfy` the cursor-based decoder that refines it. Decoding
accepts exactly the archives of accepted trees. `candidate_names.dfy`, `directory_scan.dfy` and
`candidate_store.dfy` model the store as a state machine in which a retain can be stopped behind
every step, and as a class whose operations are runs of that machine (`runs.dfy` defines runs and
what holds along them). `archive_limits.dfy` shows
where the size arithmetic is exact and where it is not.

**Identities and asset resolution.** `keyed_sort.dfy` is the sort that refuses repeated keys,
`documents.dfy`, `identity_fields.dfy`, `content_identity.dfy`, `identity.dfy` and
`site_identity.dfy` the content digests, source and policy bindings, post revisions and site
snapshots. `text.dfy`, `asset_targets.dfy`, `resolver.dfy` and `resolver_closure.dfy` model the
resolver over an arbitrary stream of Markdown events and prove that a prepared content is closed
under its references and that the prepared fast path equals the checked one.

**Content validation.** `diagnostics.dfy` and `validation_diagnostics.dfy` model sort keys and the
diagnostic collector, `route_claims.dfy` the global identity and route checks,
`content_validation.dfy` the validation of a whole tree over an arbitrary per-post parser, and
`frontmatter.dfy` the frontmatter splitter.

**Backups** (`nix/scripts`). `retention.dfy` holds the time windows and cutoffs,
`epoch_rotation.dfy` the rotation of replica epochs, `checkpoint_protocol.dfy` and
`checkpoint_service.dfy` publication and expiration of checkpoints, and `manifest_inventory.dfy`
the inventory of a manifest. The publisher lock appears as the rule that expiration steps happen
only between publications; the clock is a sequence of readings that does not go backwards.

**Client loops** (`crates/cli`). `pagination.dfy` follows cursors against an arbitrary server whose
answers may depend on everything asked before; `protected_buffer.dfy` is the growable request
buffer over real arrays.

## What turned out false of the code

- A tree can pass validation and still not be written: `ContentPathByteLimit` may be 2^32 or more, and
  a path of that length does not fit the archive's four-byte length.
  `AcceptedTreeThatCannotBeArchived` is the case, and `RetainableExactlyWhenWritable` the exact condition:
  every path is shorter than 2^32 bytes and the archive fits 64 bits. Only the crate's public constructors
  allow such limits: the host configuration (`crates/server/src/config/host.rs`, lines 1009 to 1109) caps
  the path limit at its default of 1,024. A public store, whose capacity is 1 GiB, refuses such a tree in
  `require_capacity_for_new_candidate` before it writes anything (`ReservableTreesAreWritable`).
- `maximum_archive_bytes` multiplies two 64-bit limits and adds to the product in 128 bits without a
  check. For limits near 2^64 it wraps, and `load` rejects what `retain` wrote.
  `WrappedBoundRejectsAnAcceptedTree` is the case, `WrittenArchivesPassTheSizeCheck` the exact condition:
  the bound does not wrap, or the archive is no longer than its remainder. Here too the host configuration
  stays far below the case, with at most 10,000 entries; for all limits it admits
  `DefaultsAdmitEveryAcceptedTree` proves that neither of the two cases arises.
- A recognised local checkpoint directory can be incomplete when an expiration is stopped while it
  removes that directory. `StoppedRemovalLeavesAnIncompleteCopy` gives a run from the empty store,
  `CopiesBreakExactlyWhenExpirable` the exact condition: no publication runs and the checkpoint is past
  its retention. `SelectorSafety` proves completeness for every other checkpoint.

A publication that is reported as failed may have switched the selector: when the upload of the
selector took effect before it failed, or when pruning the cache fails behind it. No promise is
broken by that: `Publish` says exactly when it happens, and the new selection can then be restored.

## Model

| member | source | states |
|---|---|---|
| `PathRegistries.PathRegistry.RegisterPath` | crates/markdown-compiler/src/candidate_store.rs:803-831 | One registration: the folded path and all its slash-delimited prefixes enter the map unless one of them is already there under another spelling; the outcome and the new map are those of the pure ledger |
| `PathRegistries.RegisterAllSpec` | crates/markdown-compiler/src/candidate_store.rs:797-832 | A whole sequence is registered without an error exactly when it is pairwise compatible, and the map then describes exactly its prefixes |
| `PathRegistries.AcceptsExactlyCompatible` | crates/markdown-compiler/src/candidate_store.rs:797-832 | Acceptance is exactly: all paths distinct and no two prefixes differ only by ASCII case |
| `PathRegistries.AcceptanceIsOrderFree` | crates/markdown-compiler/src/candidate_store.rs:797-832 | Every permutation of the paths is accepted or refused alike, which lets validation and decoding register in different orders |
| `PathRegistries.OnlyInvalidArchive` | crates/markdown-compiler/src/candidate_store.rs:804-830 | A refused registration is always reported as an invalid archive |
| `Transcripts.Transcript.FramedBytes` | crates/markdown-compiler/src/transcript.rs:20-23 | Bytes are appended behind their eight-byte big-endian length |
| `Transcripts.OptionalSplit` | crates/markdown-compiler/src/transcript.rs:41-49 | An optional field can be read back: equal encodings followed by anything come from equal options and equal rests |
| `Transcripts.FramePrefixFree` | crates/markdown-compiler/src/transcript.rs:20-23 | No framed byte string is a prefix of the frame of another one |
| `Framing.FrameSplit` | crates/markdown-compiler/src/transcript.rs:20-27 | Frames followed by anything split in one way only |
| `Framing.CountedSplit` | crates/markdown-compiler/src/transcript.rs:33-35 | A counted sequence of prefix-free records can be read back in one way only, whatever follows |
| `Framing.BigEndianRoundTrip` | crates/markdown-compiler/src/transcript.rs:21-34 | Big-endian encoding loses nothing on integers that fit its width |
| `TreeDigests.DigestTree` | crates/markdown-compiler/src/tree_digest.rs:88-122 | The imperative feed computes the hash of the canonical transcript of the tree |
| `TreeDigests.TranscriptIsTheUnorderedTree` | crates/markdown-compiler/src/tree_digest.rs:88-139 | Two trees have one transcript exactly when publication, posts and assets agree, the last two as multisets, whatever the declared byte totals |
| `TreeValidations.TranscriptDecidesAcceptedTrees` | crates/markdown-compiler/src/candidate_store.rs:443-460 | For trees that validation accepts, under whatever limits, the transcripts agree exactly when the trees are canonically equal |
| `TreeDigests.DigestOfCanonical` | crates/markdown-compiler/src/tree_digest.rs:88-122 | Reordering a tree canonically does not change its digest |
| `TreeDigests.DecodeHex` | crates/markdown-compiler/src/tree_digest.rs:34-52 | Sixty-four digits decode to the digest whose hexadecimal form they are, or some digit is not lowercase hexadecimal |
| `TreeDigests.ParseDigest` | crates/markdown-compiler/src/tree_digest.rs:34-52 | Each of the four outcomes occurs exactly under its condition, and a parsed value is the display form of the result |
| `TreeDigests.DisplayParses` | crates/markdown-compiler/src/tree_digest.rs:70-86 | Display is injective and passes every check of parsing, so parsing inverts it |
| `Content.CanonicallyEqualIsUnordered` | crates/markdown-compiler/src/candidate_store.rs:443-460 | Canonical equality is equality of publication, total, and posts and assets as multisets |
| `ArchiveFormat.ArchiveWriter.EncodeCandidate` | crates/markdown-compiler/src/candidate_store.rs:462-492 | Encoding appends the whole archive exactly when every path and count fits its field, and otherwise has written a prefix of it |
| `ArchiveFormat.ArchiveWriter.WriteString` | crates/markdown-compiler/src/candidate_store.rs:920-926 | A path is written behind its four-byte length, or refused when its length does not fit |
| `ArchiveFormat.ArchiveWriter.WritePosts` | crates/markdown-compiler/src/candidate_store.rs:462-492 | The count and the records are appended in the given order exactly when all of them fit; otherwise a prefix of the section has been appended |
| `ArchiveFormat.ReservedSizeIsExact` | crates/markdown-compiler/src/candidate_store.rs:413-441 | When the size calculation succeeds on a tree with a consistent total it is the exact length of the archive |
| `ArchiveFormat.ArchiveLength` | crates/markdown-compiler/src/candidate_store.rs:29-35 | The archive length in closed form from the overheads, path lengths and file sizes |
| `ArchiveFormat.WritableIsUnordered` | crates/markdown-compiler/src/candidate_store.rs:462-492 | Whether a tree can be written does not depend on the order of its collections |
| `TreeValidations.RunValidation` | crates/markdown-compiler/src/candidate_store.rs:657-738 | The imperative validation with its running total and registry gives the outcome of the pure ledger |
| `TreeValidations.TreeValidation.Posts` | crates/markdown-compiler/src/candidate_store.rs:719-727 | One pass over the posts updates total and registry exactly as admitting their entries does |
| `TreeValidations.TreeValidation.Assets` | crates/markdown-compiler/src/candidate_store.rs:729-738 | The same for assets |
| `TreeValidations.ValidatesExactlyAcceptable` | crates/markdown-compiler/src/candidate_store.rs:657-738 | Validation passes exactly the trees whose entries fit their limits, whose paths are compatible and whose total is declared correctly |
| `TreeValidations.AcceptanceIsUnordered` | crates/markdown-compiler/src/candidate_store.rs:657-738 | Acceptance depends only on the unordered tree |
| `TreeValidations.AcceptedIsWritable` | crates/markdown-compiler/src/candidate_store.rs:657-697 | An accepted tree can be encoded exactly when each of its paths is shorter than 2^32 bytes |
| `ArchiveReaders.Decoder.Count` | crates/markdown-compiler/src/candidate_store.rs:952-960 | A count is read as a big-endian u32 and refused beyond its limit, and the cursor moves as the specification says |
| `ArchiveReaders.Decoder.Text` | crates/markdown-compiler/src/candidate_store.rs:962-972 | A string is read only when its length is within the limit and available and its bytes are UTF-8 |
| `ArchiveReaders.Decoder.Blob` | crates/markdown-compiler/src/candidate_store.rs:980-991 | A sized field is read only within its limit and what is available |
| `ArchiveReaders.CandidateDecoder.ReadPosts` | crates/markdown-compiler/src/candidate_store.rs:566-578 | The posts loop keeps path order, registry and running total as the specification does |
| `ArchiveReaders.CandidateDecoder.ReadAssets` | crates/markdown-compiler/src/candidate_store.rs:598-617 | The assets loop keeps path order, registry and running total as the specification does, with the entries that the posts leave over as its limit |
| `ArchiveReaders.DecodeCandidate` | crates/markdown-compiler/src/candidate_store.rs:494-655 | The imperative decoder computes the specified decoding |
| `ArchiveDecoding.DecodeSound` | crates/markdown-compiler/src/candidate_store.rs:494-655 | If decoding a byte string under a digest gives a tree, the tree is accepted and canonical and the bytes are its archive |
| `ArchiveDecoding.DecodeComplete` | crates/markdown-compiler/src/candidate_store.rs:494-655 | The archive of an accepted, writable tree in canonical order decodes to that tree |
| `ArchiveDecoding.DecodesExactlyArchives` | crates/markdown-compiler/src/candidate_store.rs:494-738 | Decoding succeeds with a tree exactly on the archive of that tree, for accepted canonical writable trees under their own digest |
| `ArchiveDecoding.ArchiveRoundTrip` | crates/markdown-compiler/src/candidate_store.rs:462-655 | For every accepted writable tree, decoding its encoding under its digest and the same limits gives the tree in canonical order |
| `ArchiveDecoding.AcceptedArchivesAreUnique` | crates/markdown-compiler/src/candidate_store.rs:494-655 | Two accepted byte strings, under any digests and limits, are equal exactly when the decoded trees are canonically equal |
| `ArchiveDecoding.SameArchiveSameTree` | crates/markdown-compiler/src/candidate_store.rs:462-492 | Two writable canonical trees with one archive are one tree |
| `ArchiveLimits.ArchiveWithinExactMaximum` | crates/markdown-compiler/src/candidate_store.rs:887-895 | The archive of an accepted tree never exceeds the bound computed from the limits |
| `ArchiveLimits.WrittenArchivesPassTheSizeCheck` | crates/markdown-compiler/src/candidate_store.rs:194-207 | For every accepted tree under any limits: loading passes its archive on size exactly when the 128-bit bound does not wrap or the archive is no longer than what is left behind the wrap |
| `ArchiveLimits.WrappedBoundRejectsAnAcceptedTree` | crates/markdown-compiler/src/candidate_store.rs:887-895 | Limits near 2^64 wrap the bound below the size of the smallest accepted archive: the concrete case where the size check fails |
| `ArchiveLimits.AcceptedTreeThatCannotBeArchived` | crates/markdown-compiler/src/candidate_store.rs:913-926 | A path of 2^32 bytes passes validation but cannot be encoded: the concrete case where retaining fails after validation |
| `ArchiveLimits.RetainableExactlyWhenWritable` | crates/markdown-compiler/src/candidate_store.rs:462-492 | An accepted tree is read back from its archive exactly when it can be written and sized, that is when its paths fit four-byte lengths and its archive 64 bits |
| `ArchiveLimits.DefaultsAdmitEveryAcceptedTree` | crates/server/src/config/host.rs:1009-1109 | Under limits up to the defaults, which is all a host can configure, every accepted tree can be written, sized, passed on size and read back |
| `ArchiveLimits.ReservableTreesAreWritable` | crates/markdown-compiler/src/candidate_store.rs:385-411 | Whatever the limits, a tree whose reserved size is below 4 GiB, as the default capacity demands, can be written |
| `CandidateNames.ParsesExactlyCandidateNames` | crates/markdown-compiler/src/candidate_store.rs:1226-1246 | A file name parses to a digest exactly when it is the name that digest is stored under |
| `CandidateNames.CandidateNamesAreInjective` | crates/markdown-compiler/src/candidate_store.rs:269-271 | Distinct digests are stored under distinct names |
| `CandidateNames.StagingNamesAreNotCandidates` | crates/markdown-compiler/src/candidate_store.rs:1248-1260 | A staging file is never mistaken for a candidate |
| `DirectoryScans.ScanDirectory` | crates/markdown-compiler/src/candidate_store.rs:331-383 | The scan, in any directory order, accepts exactly directories of known names within capacity, and counts entries and bytes and lists candidates in name order |
| `CandidateStores.ContentCandidateStore.TakeInventory` | crates/markdown-compiler/src/candidate_store.rs:224-226 | An inventory exists exactly when all entries are recognised and within capacity |
| `CandidateStores.ContentCandidateStore.LoadCandidate` | crates/markdown-compiler/src/candidate_store.rs:194-207 | Loading is the size check followed by decoding under the name digest |
| `CandidateStores.ContentCandidateStore.LoadAll` | crates/markdown-compiler/src/candidate_store.rs:209-222 | Loads every candidate once in name order, or fails with the error of the first one in name order that does not load |
| `CandidateStores.ContentCandidateStore.ConfirmExisting` | crates/markdown-compiler/src/candidate_store.rs:228-246 | An existing candidate is confirmed exactly when it loads to a canonically equal tree |
| `CandidateStores.ContentCandidateStore.RequireCapacity` | crates/markdown-compiler/src/candidate_store.rs:385-411 | Room is granted exactly when one more entry and the whole archive fit |
| `CandidateStores.ContentCandidateStore.WriteStaging` | crates/markdown-compiler/src/candidate_store.rs:281-329 | The staging file holds a prefix of the archive, and all of it, at the reserved size, when the write succeeds |
| `CandidateStores.ContentCandidateStore.PublishStaged` | crates/markdown-compiler/src/candidate_store.rs:248-267 | The rename replaces nothing; an occupied name must hold an equal tree |
| `CandidateStores.ContentCandidateStore.Retain` | crates/markdown-compiler/src/candidate_store.rs:170-192 | Every change of the directory is a step of the protocol, a healthy retain succeeds exactly when it is admissible, and afterwards loading the digest gives the canonical tree, exactly when the size check admits its archive |
| `CandidateStores.ContentCandidateStore.AddCandidate` | crates/markdown-compiler/src/candidate_store.rs:170-192 | Stage, fill, publish and clean up as protocol steps, with a fault possible behind each |
| `CandidateStores.NextKeepsInv` | crates/markdown-compiler/src/candidate_store.rs:170-267 | Every step, including a stop anywhere, keeps soundness, capacity and the reservation of the job in flight, and keeps every published candidate |
| `CandidateStores.StoreSafety` | crates/markdown-compiler/src/candidate_store.rs:331-411 | In every state of every run from an empty store each candidate decodes under its own name, and entries and bytes with leftover staging are within capacity |
| `CandidateStores.PublishedBytesAreImmutable` | crates/markdown-compiler/src/candidate_store.rs:1131-1164 | Published bytes never change later in the run |
| `CandidateStores.RetainedTreesStayLoadable` | crates/markdown-compiler/src/candidate_store.rs:170-207 | From publication on and under any limits, loading the digest gives the canonical tree when the size check admits its archive, and otherwise the limit error |
| `CandidateStores.RetryConfirms` | crates/markdown-compiler/src/candidate_store.rs:170-246 | Once a tree is published, retaining it again succeeds exactly when the size check admits its archive, however the first attempt ended |
| `KeyedSorts.SortedWithoutRepeats` | crates/markdown-compiler/src/identity.rs:602-616 | Sorting a copy and scanning neighbours gives the keyed outcome: all members in key order or the repeated key |
| `KeyedSorts.SortUniqueMeaning` | crates/markdown-compiler/src/identity.rs:602-693 | Accepted exactly when keys are distinct; otherwise the least repeated key is reported |
| `KeyedSorts.SortUniqueForgetsOrder` | crates/markdown-compiler/src/identity.rs:602-693 | Every permutation has the same outcome, the reported key included |
| `KeyedSorts.SortUniqueKeepsMembers` | crates/markdown-compiler/src/identity.rs:602-693 | Accepted collections come out equal exactly when they hold the same members |
| `ContentIdentities.DigestPostContent` | crates/markdown-compiler/src/identity.rs:535-563 | The feed of a post computes the hash of its content transcript |
| `ContentIdentities.PostContentIsTheDocument` | crates/markdown-compiler/src/identity.rs:535-563 | The content transcript determines every field of a post except its path and its image, which it leaves out |
| `ContentIdentities.DigestPublicationContent` | crates/markdown-compiler/src/identity.rs:587-600 | The feed of a publication computes the hash of its content transcript |
| `ContentIdentities.PublicationContentIsTheSettings` | crates/markdown-compiler/src/identity.rs:587-600 | The content transcript of a publication determines every setting but favicon, image and origins, which it leaves out |
| `ContentIdentities.BindPostSource` | crates/markdown-compiler/src/identity.rs:273-287 | The source binding is the hash over the content digest and the authored image |
| `ContentIdentities.BindPublicationSource` | crates/markdown-compiler/src/identity.rs:289-311 | The publication binding covers content digest, favicon, image and authored origins in authored order |
| `ContentIdentities.BindPolicy` | crates/markdown-compiler/src/identity.rs:313-328 | The policy binding is the hash over the sorted effective allowlist |
| `ContentIdentities.PolicyIsTheAllowlist` | crates/markdown-compiler/src/identity.rs:313-328 | The policy transcript is the allowlist as a multiset |
| `ContentIdentities.BindingIdentifiesThePost` | crates/markdown-compiler/src/identity.rs:330-350 | A binding made for a different post is accepted only if two named transcripts collide under the hash |
| `ContentIdentities.BindingIdentifiesThePublication` | crates/markdown-compiler/src/identity.rs:289-311 | Equal bindings come from equal settings, all fields included, or exhibit one of two named collisions |
| `IdentityFields.FeedReference` | crates/markdown-compiler/src/identity.rs:628-640 | A reference is fed as its tag, framed path and digest, or its tag and framed URL |
| `IdentityFields.ReferencePrefixFree` | crates/markdown-compiler/src/identity.rs:628-640 | Reference fields can be read back in one way only |
| `IdentityFields.FeedPublicPosts` | crates/markdown-compiler/src/identity.rs:507-512 | Public posts are fed as id, revision and UTC time behind their count |
| `IdentityFields.UtcTimeIsTheInstant` | crates/markdown-compiler/src/transcript.rs:58-62 | Two UTC fields agree exactly on equal instants, whatever the offsets |
| `IdentityFields.AuthoredTimeSplit` | crates/markdown-compiler/src/transcript.rs:51-56 | An authored time field determines instant and offset |
| `Identities.DigestRevisionParts` | crates/markdown-compiler/src/identity.rs:374-394 | The feed of revision components computes the hash of the revision transcript |
| `Identities.DigestPostRevision` | crates/markdown-compiler/src/identity.rs:330-356 | Duplicate references, duplicate generated assets, source binding and policy binding are checked in this order before hashing |
| `Identities.RevisionTranscriptIsInjective` | crates/markdown-compiler/src/identity.rs:374-394 | A revision transcript determines each of its components |
| `Identities.PostRevisionAccepts` | crates/markdown-compiler/src/identity.rs:330-356 | Accepted exactly when no key repeats and both bindings hold; repeated references are refused before anything else |
| `Identities.PostRevisionForgetsOrder` | crates/markdown-compiler/src/identity.rs:330-356 | The order of references and generated assets changes neither digest nor error |
| `Identities.PostRevisionIsUnordered` | crates/markdown-compiler/src/identity.rs:330-394 | Accepted inputs have one transcript exactly when scalar parts agree and references and generated assets agree as multisets |
| `Identities.DigestPrepared` | crates/markdown-compiler/src/identity.rs:358-372 | The fast path hashes the references as they are |
| `Identities.PreparedIsChecked` | crates/markdown-compiler/src/identity.rs:330-372 | With references in strictly increasing key order and both bindings in place the fast path equals the checked path |
| `SiteIdentities.DigestSiteSnapshot` | crates/markdown-compiler/src/identity.rs:482-512 | References, origins, posts and then the binding are checked before the snapshot is hashed |
| `SiteIdentities.SiteTranscriptIsInjective` | crates/markdown-compiler/src/identity.rs:482-512 | A snapshot transcript determines its components, publication times as instants |
| `SiteIdentities.SiteSnapshotAccepts` | crates/markdown-compiler/src/identity.rs:482-512 | Accepted exactly when references, origins and post ids are distinct and the binding holds |
| `SiteIdentities.SiteSnapshotForgetsOrder` | crates/markdown-compiler/src/identity.rs:482-512 | The order of references, origins and posts changes neither digest nor error |
| `SiteIdentities.SiteSnapshotIsUnordered` | crates/markdown-compiler/src/identity.rs:482-512 | Accepted snapshots have one transcript exactly when scalar parts agree and the three collections agree as multisets, times compared as instants |
| `AssetTargets.AssetPathsAreFileReferences` | crates/markdown-compiler/src/resolver.rs:532-537 | Every valid logical asset path is classified as a local file reference, so no link to an asset goes unnoticed |
| `AssetTargets.FoundTargetsAreSound` | crates/markdown-compiler/src/resolver.rs:539-616 | A resolved target is a discovered asset under the digest of its bytes, or a URL on an allowed origin |
| `AssetTargets.KeysIdentifySoundTargets` | crates/markdown-compiler/src/resolver.rs:645-648 | Resolved targets with equal sort keys are equal |
| `Resolvers.Resolver.IndexLocalAssets` | crates/markdown-compiler/src/resolver.rs:383-398 | The first asset of a path wins, every later one is an error |
| `Resolvers.Resolver.ResolveAllowedOrigins` | crates/markdown-compiler/src/resolver.rs:400-450 | Invalid and repeated origins are reported with their 1-based position, the rest is sorted |
| `Resolvers.Resolver.ResolveReference` | crates/markdown-compiler/src/resolver.rs:539-578 | Resolution answers and records exactly what the specification of one destination says |
| `Resolvers.Resolver.ResolveExternalReference` | crates/markdown-compiler/src/resolver.rs:580-616 | The same for external references, with the mutability warning |
| `Resolvers.Resolver.ResolveDestinations` | crates/markdown-compiler/src/resolver.rs:461-508 | The event loop counts all destinations and collects references, destinations and diagnostics as specified |
| `Resolvers.Resolver.ResolvePost` | crates/markdown-compiler/src/resolver.rs:452-530 | A post is prepared with its cached content digest and both bindings |
| `Resolvers.Resolver.Resolve` | crates/markdown-compiler/src/resolver.rs:314-381 | The answer is every recorded error in canonical order, or the prepared content with the store of its local assets |
| `ResolverClosure.DestinationsRecordEvents` | crates/markdown-compiler/src/resolver.rs:461-508 | Recorded destinations are in event order and each carries the position, kind, range and target of its event |
| `ResolverClosure.EventsAreRecordedOrReported` | crates/markdown-compiler/src/resolver.rs:461-508 | Every image or asset link is recorded, or an error at its position reports it |
| `ResolverClosure.ReferencesAreTargets` | crates/markdown-compiler/src/resolver.rs:499-520 | The references of a post are exactly its targets, once each, in strictly increasing key order |
| `ResolverClosure.PreparedPostIsClosed` | crates/markdown-compiler/src/resolver.rs:314-530 | After success every asset event of every post is recorded once, nothing else is, targets are sound and references are exactly the targets |
| `ResolverClosure.StoreIsTheReferencedAssets` | crates/markdown-compiler/src/resolver.rs:118-134 | The store holds exactly the referenced paths and answers each with the discovered bytes under their digest |
| `ResolverClosure.PostTargetsAreStored` | crates/markdown-compiler/src/resolver.rs:118-134 | Every local target of a post reads back from the store |
| `ResolverClosure.FastPathIsTheCheckedPath` | crates/markdown-compiler/src/resolver.rs:94-109 | For every post of a prepared content the fast path succeeds on the checked path with the same digest |
| `ResolverClosure.PreparedSiteIsAccepted` | crates/markdown-compiler/src/identity.rs:519-533 | A snapshot of prepared content is refused only for a repeated public post |
| `ResolverClosure.RejectionsAreCanonical` | crates/markdown-compiler/src/resolver.rs:348-354 | A failed resolution lists each error once in strictly increasing order |
| `Retention.DependenciesOutliveCheckpoint` | nix/scripts/backup_epochs.py:137-155 | While a checkpoint is at most R days old its epoch is not expired and no object of it is within a day of the L-day hiding age |
| `Retention.UploadsStayInWindow` | nix/scripts/backup_epochs.py:55-59 | Within the publication alarm every upload falls into the epoch that was loaded |
| `Retention.ExpiredEpochsStayClosed` | nix/scripts/backup_epochs.py:208-223 | An epoch old enough to be expired is never loaded again |
| `Retention.LeastSafeAllowance` | nix/scripts/backup_epochs.py:144-146 | An allowance for the length of an epoch never expires an epoch under a checkpoint within its retention exactly when it is at least 86,399 seconds; the code uses 86,400 |
| `EpochRotations.NextKeepsInv` | nix/scripts/backup_epochs.py:97-192 | Every file-system step keeps an active epoch complete, overwrites no retired epoch and reassigns no replica directory |
| `EpochRotations.RotationSafety` | nix/scripts/backup_epochs.py:120-134 | In every reachable state, wherever the process stopped, an active epoch has its complete record |
| `EpochRotations.NoReplicaServesTwoEpochs` | nix/scripts/backup_epochs.py:117-132 | One replica directory is active for one epoch only |
| `EpochRotations.RetiredIsNeverOverwritten` | nix/scripts/backup_epochs.py:115-117 | A retired epoch keeps its own contents, or what a removal left of them |
| `EpochRotations.FreshNamesNeverCollide` | nix/scripts/backup_epochs.py:115-122 | As long as names do not repeat, the refusal to overwrite a retired epoch is never met |
| `EpochRotations.RefusalsAreTheDocumentedOnes` | nix/scripts/backup_epochs.py:97-116 | In reachable states preparation refuses only for duration, inventory, legacy paths, clock or collision |
| `EpochRotations.ReplicaRoot.PrepareEpoch` | nix/scripts/backup_epochs.py:97-134 | A preparation refuses exactly for its reasons without changing anything, otherwise runs to the rotated root unless it is stopped; every change is a protocol step |
| `EpochRotations.ReplicaRoot.FillEpoch` | nix/scripts/backup_epochs.py:127-134 | Directories and record are built aside and exposed by one rename |
| `EpochRotations.ReplicaRoot.ExpireRetired` | nix/scripts/backup_epochs.py:147-152 | When it finishes, exactly the retired epochs older than the cutoff are gone; a stop leaves a run of removals and a sound root |
| `EpochRotations.ReplicaRoot.ExpireStoppedReplica` | nix/scripts/backup_epochs.py:158-192 | A stale active epoch is retired and removed only when its replica does not run, and never over an existing one |
| `CheckpointProtocol.NextKeepsInv` | nix/scripts/checkpoint-backup.py:228-275 | Every step of publication and expiration keeps manifests backed by objects and the selector on a listed checkpoint, and never moves the selector back in time |
| `CheckpointProtocol.SelectorSafety` | nix/scripts/checkpoint-backup.py:228-275 | In every reachable state the selector names a restorable checkpoint of one epoch unless that epoch was expired, and local checkpoints are complete unless past retention |
| `CheckpointProtocol.FreshSelectionIsRestorable` | nix/scripts/backup_epochs.py:208-223 | While the selected checkpoint is at most R days old its epoch is unexpired, its manifest and objects exist, and neither they nor the selector are within a day of hiding |
| `CheckpointProtocol.SelectorAdvances` | nix/scripts/checkpoint-backup.py:260-269 | The selected checkpoint never gets older during a run |
| `CheckpointProtocol.CopiesOutliveTheirRetention` | nix/scripts/backup_epochs.py:137-143 | A local checkpoint is still there, unchanged and complete, at every later step of the run at which it is within its retention |
| `CheckpointProtocol.StoppedRemovalLeavesAnIncompleteCopy` | nix/scripts/backup_epochs.py:141-143 | A whole run from the empty store, for any job named at the start of its epoch, that ends with a recognised local checkpoint that is not complete |
| `CheckpointProtocol.CopiesBreakExactlyWhenExpirable` | nix/scripts/backup_epochs.py:137-143 | A complete local checkpoint can become incomplete in one step exactly when no publication runs and it is past its retention |
| `CheckpointServices.CheckpointService.Publish` | nix/scripts/checkpoint-backup.py:228-275 | Publication is a run of the protocol and succeeds exactly under its conditions; wherever it stops, behind the switch included, selector and local copies are exactly the old ones or the new ones, and a switched selector names a checkpoint whose manifest and objects are in place |
| `CheckpointServices.CheckpointService.Announce` | nix/scripts/checkpoint-backup.py:252-269 | Manifest, recheck, local copy and selector in this order, with a fault possible between any two and a selector upload that may take effect although it is reported as failed |
| `CheckpointServices.CheckpointService.PruneCache` | nix/scripts/checkpoint-backup.py:270-274 | Pruning leaves exactly the objects of the checkpoint in the cache of its epoch, or a superset of them when stopped |
| `CheckpointServices.CheckpointService.SendObjects` | nix/scripts/checkpoint-backup.py:193-197 | Objects already in the epoch keep their upload time, delivered ones are added |
| `CheckpointServices.CheckpointService.RetainCheckpoint` | nix/scripts/checkpoint-backup.py:200-225 | A local checkpoint becomes recognisable complete or not at all |
| `CheckpointServices.CheckpointService.EncryptObjects` | nix/scripts/checkpoint-backup.py:179-190 | One object per digest, however many files share it |
| `CheckpointServices.CheckpointService.ExpireRemoteEpochs` | nix/scripts/backup_epochs.py:208-223 | When it finishes, the remote is exactly its epochs within the cutoff, unchanged; these are kept even when stopped |
| `CheckpointServices.CheckpointService.ExpireLocalCheckpoints` | nix/scripts/backup_epochs.py:78-154 | Foreign checkpoint names are skipped, and a listing that is too long or holds a malformed name refuses before anything in that directory is removed; when the job finishes, checkpoints and caches are exactly the ones within their cutoffs, unchanged, and these are kept even when it is stopped inside either removal |
| `ManifestInventories.ManifestInventory` | nix/scripts/backup_common.py:178-207 | An inventory is accepted exactly when count, names, identities, path distinctness and the byte total are in order, and lists the entries in manifest order |
| `ManifestInventories.CheckEntries` | nix/scripts/backup_common.py:196-206 | The scan accepts exactly entries with distinct paths, good identities and a total within the limit |
| `ManifestInventories.PathsIdentifyItems` | nix/scripts/backup_common.py:186-195 | Listed paths identify their items, and transaction files never share a path with archives |
| `Diagnostics.CanonicaliseMeaning` | crates/markdown-compiler/src/validation.rs:226-229 | Sorting by key and dropping repeats lists each diagnostic once in strictly increasing order |
| `Diagnostics.CanonicaliseForgetsOrder` | crates/markdown-compiler/src/validation.rs:226-229 | The canonical list depends only on the set of diagnostics |
| `ValidationDiagnostics.DiagnosticKeysIdentify` | crates/markdown-compiler/src/validation.rs:162-182 | Diagnostics with equal sort keys are equal |
| `ValidationDiagnostics.DiagnosticCollector.Finish` | crates/markdown-compiler/src/validation.rs:217-230 | A finished list is never empty, strictly increasing, and holds exactly what was collected |
| `RouteClaims.ValidatePostIdentities` | crates/markdown-compiler/src/parser.rs:738-762 | Every candidate whose identity an earlier one has is reported against the first that has it |
| `RouteClaims.NoIdentityReports` | crates/markdown-compiler/src/parser.rs:738-762 | Nothing is reported exactly when identities are pairwise distinct |
| `RouteClaims.IdentityReportCount` | crates/markdown-compiler/src/parser.rs:738-762 | Among candidates with distinct paths, an identity claimed n times has n - 1 entries in the reported list against its first claimant |
| `RouteClaims.IdentityReportTotal` | crates/markdown-compiler/src/parser.rs:738-762 | For any candidates, the reports and the distinct identities together number the identities claimed |
| `RouteClaims.CollectClaims` | crates/markdown-compiler/src/parser.rs:770-793 | The route table lists the claims of each route in post order |
| `RouteClaims.ValidatePostRoutes` | crates/markdown-compiler/src/parser.rs:770-848 | Exactly the conflicting claims are reported, and nothing when routes are distinct |
| `ContentValidation.DeliveredRouteReports` | crates/markdown-compiler/src/parser.rs:20-73 | In the list validation delivers for sources with distinct paths, a route claimed n times has exactly n - 1 different reports |
| `ContentValidation.DeliveredIdentityReports` | crates/markdown-compiler/src/parser.rs:20-73 | In the delivered list, an identity claimed by n posts has exactly n - 1 different reports against the first of them |
| `RouteClaims.RouteReportsAreDistinct` | crates/markdown-compiler/src/parser.rs:795-845 | Among posts with distinct paths these n - 1 reports are different diagnostics |
| `RouteClaims.NoRouteReports` | crates/markdown-compiler/src/parser.rs:770-848 | No route is reported exactly when all claimed routes are pairwise distinct |
| `ContentValidation.ValidateContent` | crates/markdown-compiler/src/parser.rs:20-73 | The outcome is the canonical list of everything reported, or the documents in path order |
| `ContentValidation.ValidationForgetsOrder` | crates/markdown-compiler/src/parser.rs:27-33 | For sources with distinct paths every permutation gives the same outcome |
| `ContentValidation.ValidExactlyWhenConflictFree` | crates/markdown-compiler/src/parser.rs:20-73 | Valid exactly when every parse is silent, identities are distinct and no slug or alias occurs twice |
| `ContentValidation.ValidContentIsConflictFree` | crates/markdown-compiler/src/parser.rs:738-848 | In validated content identities are pairwise distinct, and so are all slugs and aliases of all posts |
| `Frontmatter.SplitFrontmatter` | crates/markdown-compiler/src/parser.rs:663-716 | The cursor loop gives the split defined over the lines of the source, with the same four failures |
| `Frontmatter.NextLine` | crates/markdown-compiler/src/parser.rs:718-731 | A line without its LF, CRLF or final CR, and the start of the next one |
| `Frontmatter.SplitPartitionsTheSource` | crates/markdown-compiler/src/parser.rs:663-716 | A split partitions the source into opening line, frontmatter, closing line and body, and no frontmatter line looks like a delimiter |
| `Frontmatter.SplitsExactlyWhereItCloses` | crates/markdown-compiler/src/parser.rs:663-716 | A source splits into a frontmatter and a body exactly when some line closes it: the lines between the two delimiters do not look like one and the four parts make up the source |
| `Frontmatter.WrittenPostsSplit` | crates/markdown-compiler/src/parser.rs:663-716 | Any frontmatter without delimiter-like lines between two delimiter lines splits off exactly, whatever the body and the line endings, a closing line at the end of the input included |
| `Pagination.CollectPostPages` | crates/cli/src/startup.rs:837-892 | Against any server: at most 10,001 fetches, no cursor asked twice, success exactly when the chain is complete, and the posts of the pages in fetch order |
| `Pagination.FollowCursors` | crates/cli/src/startup.rs:854-892 | The loop behind the first page with its page limit, cursor, snapshot and post checks |
| `Pagination.AppendPostPage` | crates/cli/src/startup.rs:895-909 | A page is appended exactly when no post repeats |
| `Pagination.CompletionsArePromising` | crates/cli/src/startup.rs:854-883 | Once a check fails no answer of the server can complete the chain |
| `Pagination.WalkIsUnique` | crates/cli/src/startup.rs:837-892 | A server gives one walk of each length |
| `ProtectedBuffers.ProtectedJsonWriter.Write` | crates/cli/src/transport.rs:226-248 | Bytes are appended within the limit or nothing changes; a replaced allocation is erased and its length is what growth moves |
| `ProtectedBuffers.ProtectedJsonWriter.Grow` | crates/cli/src/transport.rs:239-245 | The new capacity is a power of two below twice the required length, contents are kept and the old allocation is erased |
| `ProtectedBuffers.SerialiseJson` | crates/cli/src/transport.rs:208-215 | The body is the concatenation of the chunks exactly when it fits, growth moves fewer than twice its bytes, and a failed body is erased |
| `ProtectedBuffers.ChosenCapacity` | crates/cli/src/transport.rs:240 | The capacity chosen for a required length fits it, stays within the limit and is less than twice as large |
| `ProtectedBuffers.GrowthDoubles` | crates/cli/src/transport.rs:239-245 | A capacity that is outgrown at least doubles |

## Left out

- Static texts of error messages: errors carry their variant, and diagnostics the interpolated value in place of the formatted message, which also takes the message's place in the sort key.
- File descriptors, permissions, symbolic links, inode checks, fsync and private-directory checks around the store and the backup scripts: operating-system calls; atomic rename, no-replace publication and stopping between operations are kept.
- BLAKE3 itself, random UUIDs, TOML, CommonMark, URL and RFC 3339 parsing: parameters of the model. A staging name or epoch name is any well-formed name; `FreshNamesNeverCollide` states what unused names add.
- `ContentCandidateStore.open`: opening only prepares and checks directories; reopening appears as a run that continues after a stop. The capacity (4,096 entries and 1 GiB by default) is a parameter.
- Concurrent store instances in several processes: one instance at a time.
- Resolvers.Resolver.ResolveDestinations: does not model the branch for more than 2^64 - 1 destinations, nor `ResolveAllowedOrigins` the one for as many origins, because no list in memory is that long.
- `appears_immutable`: the heuristic behind the mutability warning is a parameter, because nothing else depends on it.
- CheckpointServices.CheckpointService.ExpireRemoteEpochs: the source walks the sorted names, the model any order, which covers it; names that are no epoch's, and the inventory limit of 16,384 on the remote listing, are not modelled.
- Hidden and unfinished object versions on the remote side: hiding by age is stated as a bound on the ages of selector, manifest and objects, not as a step.
- Refusals of `epoch_directories` for foreign entries below `retired`: reachable states hold only epoch directories there.
- Staging cleanup (`cleanup_staging`), credential profiles, encryption, lifecycle-policy validation and status reports: each is settled by one branch.
- The preview digest, the shell-output digest, the frontend digest: they repeat the framing argument with other fields.
- Typed field extraction from TOML tables and per-field diagnostics: a per-post parser with an arbitrary result stands for it; what it promises is stated as `Faithful`.
- Discovery of the content tree on disk, release tooling, source-synchronisation polling, the HTTP client beyond its buffer, and the server: separate components, or easy members.
- ProtectedBuffers.ProtectedJsonWriter.Grow: allocates exactly the chosen capacity; an allocator that rounds capacities up is not modelled, because the amortised bound then depends on its rounding.
