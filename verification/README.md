# CaseWeaver: verified models of its algorithms and protocols

This Dafny project models the parts of CaseWeaver that compute, parse or coordinate, and proves what they promise.
`dafny verify dfyconfig.toml` checks all of it.

| part of CaseWeaver | modules |
|---|---|
| ZIP reader of the attachment processor | `JsNumbers`, `Utf8`, `ZipReader`, `ZipRoundTrip` |
| glob compiler of the Git connector | `Glob`, `GlobLaws` |
| S3 blob store against the in-memory one | `ObjectKeys`, `ByteChunks`, `ObjectStore`, `MemoryBlobStore`, `S3BlobStore`, `BlobParts`, `BlobRuns`, `BlobSafety`, `BlobUploads`, `BlobCleanup`, `BlobRefinement` |
| canonical configuration text | `KeyOrder`, `CanonicalJson`, `JsonReader`, `JsonText` |
| transactional outbox, relays and queue | `OutboxStore`, `OutboxRuns`, `OutboxGuarantees`, `OutboxTurns`, `OutboxClaims` |
| resource leases | `Leases` |
| Git tree parser, difference, paging and scans | `KeyedLists`, `TreeParser`, `GitSync`, `Paging`, `GitScans` |
| log redaction | `LogRedaction`, `RedactionLaws` |
| processor protocol and socket framing | `ProcessorProtocol`, `LossyUtf8`, `LineFraming` |
| Markdown links, fences and headings | `RelativeLinks`, `MarkdownFences`, `FencedLines` |
| Jitbit discovery and publication | `JitbitDiscovery`, `JitbitPublication` |
| repository tools | `RepositoryWalk`, `RepositorySearch` |
| shared vocabulary | `Wrappers`, `Characters`, `SplitText`, `Substrings`, `Selections`, `RepositoryPaths`, `Uuids` |

Code that updates state is a class or a method with its loops, proved equal to a function of the old state. The laws
are lemmas about those functions: over all inputs, or by induction over all runs of calls and faults.

## How things are modelled

- Texts are sequences of Unicode scalar values; lone surrogates do not occur. Lengths in UTF-16 code units are counted
  where the code measures them. Where decoding is lossy, one replacement character stands for each longest start of a
  character that is not completed, as in the UTF-8 decoder of the WHATWG Encoding standard.
- Foreign functions are parameters. SHA-256 and number printing are functions; of the latter the JSON laws use that it
  is injective and keeps to the characters of numbers, and the JSON reader leaves number texts to a function that undoes
  it. The scope HMAC has 43 characters without a slash and is injective on the workspaces in use. Deflate is undone by
  inflate. `JSON.parse` undoes the printer on requests. Comparators of `localeCompare` are arbitrary.
- The object store is a map from keys to bytes with a script of faults: each request works, is lost before it takes
  effect, or takes effect while its response is lost. A conditional put follows section 13.1.2 of RFC 9110. A request that
  the service refuses fails like the in-memory store does in the same case; the error types of its client library are not
  distinguished.
- Random identifiers, clocks, listings, locks of other transactions and the order in which the database returns rows are
  parameters of the call or of the event. Claim tokens are serial numbers, so none occurs twice.
- Each SQL statement and each request is one step. Relays interleave between their steps and may crash at any of them.
- A configuration value is a tree, and an object keeps its own key order. Objects rebuilt from sorted entries enumerate
  array indices first and then the sorted rest, with scalar values as the order of characters.

## Where the code differs from its promises

- `cleanupStaging` is documented never to delete production data. It does when the key prefix or the backend id brings a
  `staging` segment into every key (`BlobCleanup.StagingBackendIsCleaned`), and it deletes an accepted output whose own
  name has such a segment (`BlobCleanup.AcceptedOutputIsCleaned`); `BlobCleanup.CleanupSparesProduction` is the exact
  condition for both.
- A failed append or commit does not always end its handle: the size guard and the digest's syntax check throw first
  (`BlobSafety.FailureEndsHandle`).
- The in-memory store accepts workspace ids at begin, and handles at abort, that the S3 store refuses (`BlobRefinement`).
- Names and paths lose a leading byte order mark when they are decoded (`ZipRoundTrip.NamesDecode`,
  `TreeParser.MarkedPathCollides`); a tree listing comes back exactly when no blob path begins with one
  (`TreeParser.TreeComesBackIff`).
- The socket decodes every chunk by itself. A chunk that ends inside a character turns it into replacement characters,
  which take more bytes, so that a line within the limit can destroy the connection (`LossyUtf8.DecodedInChunksIff`,
  `LineFraming.SplitCharacterOverflows`). Requests are ASCII and are not affected (`LineFraming.RequestsArrive`).
- The default Markdown glob accepts a line terminator in a file name, though not in a directory
  (`GlobLaws.MarkdownFilterMeaning`).
- The tree limit also strikes when only skipped records follow the last admitted blob (`TreeParser.TreeRoundTrip`), and
  the delta limit counts changes, so a delta between two acceptable trees can be refused (`GitScans.DeltaRefusedIff`).
- Fencing tokens restart after a completion; across completions they do not fence (`Leases.StaleHolderCompletesLaterLease`).
- An outbox envelope whose id is no UUID is never delivered (`OutboxGuarantees.DeliverableIffUuid`), and at the head of
  the table it can hold back the batch it is claimed with for ever (`OutboxTurns.HeadHoldsBatchBack`).
- A commit for a malformed workspace leaves the in-memory staging with a spent hash, so that nothing more can be appended
  or committed (`MemoryBlobStore.MalformedCommitSpendsHash`).
- A property named `__proto__` is missing from the log (`LogRedaction.LogRedactor.RedactObject`).
- A Jitbit run that takes longer than the overlap can miss updates for ever (`JitbitDiscovery.EveryUpdateIsSeenIff`).

## Model

| member | source | states |
|---|---|---|
| `ZipReader.LittleEndian16` | infrastructure/attachment-runtime/src/attachment-processor-service.ts:105-110 | shifting and or-ing signed 32-bit integers yields the plain 16-bit little-endian value |
| `ZipReader.LittleEndian32` | infrastructure/attachment-runtime/src/attachment-processor-service.ts:112-126 | three signed shifts, three ors and `>>> 0` yield the plain unsigned 32-bit value, also when the top byte makes the intermediate result negative |
| `ZipReader.FindEndOfCentralDirectory` | infrastructure/attachment-runtime/src/attachment-processor-service.ts:128-136 | the backward loop returns the last end signature that leaves room for a record, inside the window of the longest comment, or fails when there is none |
| `ZipReader.ZipEntries` | infrastructure/attachment-runtime/src/attachment-processor-service.ts:138-195 | the reader's loops compute exactly the recursive directory reader that the laws below are about |
| `ZipReader.WalkRecords` | infrastructure/attachment-runtime/src/attachment-processor-service.ts:157-195 | the loop over central records yields all of them, and only when the last one ends exactly at the stated end of the directory |
| `ZipReader.DirectoryIsTiled` | infrastructure/attachment-runtime/src/attachment-processor-service.ts:138-195 | reading succeeds with certain entries if and only if records with those fields tile the central directory without gap or overlap, before the last end record of the archive |
| `ZipReader.FoundIffLast` | infrastructure/attachment-runtime/src/attachment-processor-service.ts:128-136 | the search finds a given end record if and only if no signature lies behind it |
| `ZipReader.ExtractionMeaning` | infrastructure/attachment-runtime/src/attachment-processor-service.ts:197-240 | for every archive and entry, extraction yields certain bytes if and only if a local header with the entry's flags and method lies at the entry's offset, the compressed bytes that the entry counts follow its name and extra fields, and they expand to those bytes within the entry's size |
| `ZipRoundTrip.WrittenEndIsFound` | infrastructure/attachment-runtime/src/attachment-processor-service.ts:128-155 | in a written archive the true end record is found if and only if the archive comment hides no later signature; its bounds are then those written |
| `ZipRoundTrip.DirectoryRoundTrip` | infrastructure/attachment-runtime/src/attachment-processor-service.ts:138-195 | reading a written archive returns every name, flag word, method, size and offset, and fails exactly when a name is not UTF-8 |
| `ZipRoundTrip.FilesRoundTrip` | infrastructure/attachment-runtime/src/attachment-processor-service.ts:197-240 | every file of a written archive is extracted with its original bytes, stored or deflated, whatever checksum, sizes, name and times its local header holds, as with an archive written to a stream |
| `ZipRoundTrip.NamesDecode` | infrastructure/attachment-runtime/src/attachment-processor-service.ts:176-180 | a UTF-8 name comes back as it was, except that one leading byte order mark is lost |
| `ZipRoundTrip.CommentFreeRoundTrip` | infrastructure/attachment-runtime/src/attachment-processor-service.ts:105-240 | writing and reading a comment-free archive gives back all names and all bytes, for every list of fewer than 65535 files that the format can express, with arbitrary local headers and data descriptors |
| `Utf8.DecodeOfEncode` | infrastructure/git-repository-runtime/src/index.ts:1328-1336 | a fatal `TextDecoder` undoes the UTF-8 encoder on every text, up to one leading byte order mark |
| `Utf8.DecodesExactly` | infrastructure/git-repository-runtime/src/index.ts:1328-1336 | on any bytes, decoding yields a text if and only if the bytes are the encoding of that text, up to one leading byte order mark; all others are refused |
| `Glob.CompileGlob` | connectors/git-markdown/src/git-markdown-source.ts:83-110 | the one-pass loop with its lookahead emits the text of the recursive compiler, between anchors |
| `Glob.EmittedParses` | connectors/git-markdown/src/git-markdown-source.ts:83-110 | the emitted text, escapes included, parses to the regex that belongs to the glob |
| `Glob.GlobRegexMeaning` | connectors/git-markdown/src/git-markdown-source.ts:83-110 | the language of that regex is the direct meaning of the glob: `*` and `?` stay in a segment, `**/` is an optional run of directories, `**` crosses segments, any other character matches itself |
| `Glob.CompiledGlobMeaning` | connectors/git-markdown/src/git-markdown-source.ts:83-110 | end to end: the compiled expression accepts a path if and only if the glob means it |
| `GlobLaws.InclusionMeaning` | connectors/git-markdown/src/git-markdown-source.ts:79-122 | a path is included if and only if it ends in `.md` or `.mdx`, each letter in either case, some including glob means it and no excluding one does |
| `GlobLaws.LiteralGlob` | connectors/git-markdown/src/git-markdown-source.ts:105-108 | a glob without `*` and `?` matches its own text only, whatever regex syntax it holds |
| `GlobLaws.GlobIsSegmentwise` | connectors/git-markdown/src/git-markdown-source.ts:83-110 | a glob without `**` matches if and only if it has as many segments as the path and matches it segment by segment |
| `GlobLaws.MarkdownFilterMeaning` | connectors/git-markdown/src/git-markdown-source.ts:83-110 | the default Markdown filter matches exactly the paths that end in `.md` and have no line terminator in their directories |
| `GlobLaws.FileNameMayHaveLineTerminator` | connectors/git-markdown/src/git-markdown-source.ts:101-104 | a concrete path with a line feed in its file name passes that filter, so freedom from line terminators holds for directories only |
| `ObjectKeys.KindsAreDisjoint` | infrastructure/object-storage/src/key-derivation.ts:56-76 | no key is at once a content key, a derivative key or a staging key |
| `ObjectKeys.ContentKeyNamesDigest` | infrastructure/object-storage/src/key-derivation.ts:56-59 | a content key determines its digest, whatever the workspace |
| `ObjectKeys.KeyNamesWorkspace` | infrastructure/object-storage/src/key-derivation.ts:126-142 | a key under the root of one workspace in use lies under that of no other |
| `ByteChunks.Join` | infrastructure/object-storage/src/in-memory.ts:175-184 | joining chunks front to back gives their concatenation |
| `ByteChunks.Take` | infrastructure/object-storage/src/s3-compatible.ts:324-344 | taking bytes succeeds if and only if there are enough, and splits the concatenation of the chunks at that length |
| `ByteChunks.TakeBytes` | infrastructure/object-storage/src/s3-compatible.ts:324-344 | the loop that shifts and shortens chunks computes `Take`, and fails exactly when bytes are missing |
| `MemoryBlobStore.InMemoryBlobStore.constructor` | infrastructure/object-storage/src/in-memory.ts:36-42 | a new store is empty |
| `MemoryBlobStore.InMemoryBlobStore.BeginStaging` | infrastructure/object-storage/src/in-memory.ts:44-62 | the whole new state and reply of a begin, including the refused maximum |
| `MemoryBlobStore.InMemoryBlobStore.AppendBytes` | infrastructure/object-storage/src/in-memory.ts:64-78 | the whole new state and reply of an append: unknown handle, exceeded limit, spent hash, or the bytes counted, hashed and kept |
| `MemoryBlobStore.InMemoryBlobStore.CommitStaged` | infrastructure/object-storage/src/in-memory.ts:80-102 | the whole new state and reply of a commit; a mismatch ends the staging, and a malformed workspace leaves it with its hash spent |
| `MemoryBlobStore.MalformedCommitSpendsHash` | infrastructure/object-storage/src/in-memory.ts:80-102 | after a commit that is refused for its malformed workspace, every append and every commit on that handle fails |
| `MemoryBlobStore.InMemoryBlobStore.AbortStaged` | infrastructure/object-storage/src/in-memory.ts:104-106 | the record goes and nothing else |
| `MemoryBlobStore.InMemoryBlobStore.OpenBlob` | infrastructure/object-storage/src/in-memory.ts:108-122 | the bytes under an accepted handle of the owning workspace, or the failure |
| `MemoryBlobStore.InMemoryBlobStore.WriteOutput` | infrastructure/object-storage/src/in-memory.ts:124-139 | an output is stored only under a derivative key that is free |
| `MemoryBlobStore.InMemoryBlobStore.DeleteBlob` | infrastructure/object-storage/src/in-memory.ts:141-148 | the blob goes, unless it belongs to another workspace |
| `MemoryBlobStore.LimitIsExact` | infrastructure/object-storage/src/in-memory.ts:64-78 | an append to a new staging succeeds if and only if all bytes together stay within the maximum, and changes nothing otherwise |
| `MemoryBlobStore.CommittedIsOpened` | infrastructure/object-storage/src/in-memory.ts:44-122 | what is staged in any chunks is stored if and only if the commit names the digest and the length of all of them, is then opened as appended, and otherwise leaves all blobs as they were |
| `MemoryBlobStore.OutputComesAndGoes` | infrastructure/object-storage/src/in-memory.ts:108-148 | an output is written if and only if its handle is accepted and its key free, is opened as written, cannot be written again, and its deletion restores the store |
| `S3BlobStore.S3CompatibleBlobStore.constructor` | infrastructure/object-storage/src/s3-compatible.ts:43-48 | a new store stages nothing and its records are well buffered |
| `S3BlobStore.S3CompatibleBlobStore.BeginStaging` | infrastructure/object-storage/src/s3-compatible.ts:50-78 | the whole new state of bucket and staging map, on every fault |
| `S3BlobStore.S3CompatibleBlobStore.AppendBytes` | infrastructure/object-storage/src/s3-compatible.ts:80-116 | the whole new state and reply; a failure while parts are sent ends the staging |
| `S3BlobStore.S3CompatibleBlobStore.FillBufferedParts` | infrastructure/object-storage/src/s3-compatible.ts:92-112 | the re-chunking loop: fill, upload at exactly one part size, go on; buffers stay below one part |
| `S3BlobStore.S3CompatibleBlobStore.UploadBufferedPart` | infrastructure/object-storage/src/s3-compatible.ts:293-315 | one part goes out with the next number; the error of `takeBytes` is unreachable from here |
| `S3BlobStore.S3CompatibleBlobStore.CommitStaged` | infrastructure/object-storage/src/s3-compatible.ts:118-178 | the whole new state and reply of a commit, on every fault |
| `S3BlobStore.S3CompatibleBlobStore.StoreStaged` | infrastructure/object-storage/src/s3-compatible.ts:134-173 | flush, complete, copy and delete, or abort and put for empty content |
| `S3BlobStore.S3CompatibleBlobStore.AbortStaged` | infrastructure/object-storage/src/s3-compatible.ts:180-197 | the whole new state of an abort, whose request failures are swallowed |
| `S3BlobStore.S3CompatibleBlobStore.OpenBlob` | infrastructure/object-storage/src/s3-compatible.ts:199-211 | what a read returns, and that it changes nothing but the faults met |
| `S3BlobStore.S3CompatibleBlobStore.WriteText` | infrastructure/object-storage/src/s3-compatible.ts:213-230 | the conditional put of an output |
| `S3BlobStore.S3CompatibleBlobStore.DeleteBlob` | infrastructure/object-storage/src/s3-compatible.ts:232-238 | the deletion of an accepted key |
| `S3BlobStore.S3CompatibleBlobStore.CleanupStaging` | infrastructure/object-storage/src/s3-compatible.ts:249-279 | the two cleanup loops stop at the first failed request, and otherwise treat every listed staging entry and return how many there were |
| `BlobParts.FillPartsAccounts` | infrastructure/object-storage/src/s3-compatible.ts:92-112 | however requests fail, while an append succeeds uploaded parts followed by buffers equal the bytes hashed, parts are numbered 1..n and each has exactly one part size; without faults and within the capacity it cannot fail |
| `BlobParts.StoreContentStores` | infrastructure/object-storage/src/s3-compatible.ts:134-173 | a commit leaves under the content key either the bytes received or what was there, touches no other object but its staging object, and without faults succeeds |
| `BlobSafety.EveryCallIsSafe` | infrastructure/object-storage/src/s3-compatible.ts:50-279 | every call, on every fault, keeps all staging records sound and changes objects only as the frame permits |
| `BlobSafety.ContentIsNeverCorrupted` | infrastructure/object-storage/src/s3-compatible.ts:118-178 | over every run with any lost requests or responses, every object at a content key hashes to the digest that the key names |
| `BlobSafety.DerivativeIsNeverOverwritten` | infrastructure/object-storage/src/s3-compatible.ts:213-230 | over every such run a present derivative keeps its bytes until a call deletes it |
| `BlobSafety.FailureEndsHandle` | infrastructure/object-storage/src/s3-compatible.ts:80-178 | a handle survives a failed append if and only if the size guard threw, and a failed commit if and only if the digest was malformed |
| `BlobSafety.EndedHandleStaysEnded` | infrastructure/object-storage/src/s3-compatible.ts:281-291 | over every run that does not draw the identifier again, an ended handle refuses every append and commit and nothing changes |
| `BlobUploads.AbortLeavesNothing` | infrastructure/object-storage/src/s3-compatible.ts:180-197 | without faults the abort of a staging takes its record, its multipart upload with all parts and its staging object, and nothing else |
| `BlobUploads.NoUploadIsOrphaned` | infrastructure/object-storage/src/s3-compatible.ts:50-197 | over every fault-free run every open multipart upload belongs to a staged record, so that none is left when nothing is staged: aborts, failed appends and mismatched commits leak nothing |
| `BlobCleanup.ProductionLooksStaged` | infrastructure/object-storage/src/s3-compatible.ts:262-265 | the key of any content or derivative passes the cleanup's filter if and only if the storage prefix or the name brings in a `staging` segment |
| `BlobCleanup.CleanupSparesProduction` | infrastructure/object-storage/src/s3-compatible.ts:248-279 | whatever it lists and whatever fails, the cleanup never removes a content object if and only if the storage prefix holds no `staging` segment, and never an output, whatever its name, if and only if neither prefix nor name holds one |
| `BlobCleanup.WrittenThenCleaned` | infrastructure/object-storage/src/s3-compatible.ts:213-279 | an accepted output whose key passes the filter is written, and the next cleanup that lists it deletes it |
| `BlobCleanup.AcceptedOutputIsCleaned` | infrastructure/object-storage/src/key-derivation.ts:87-94 | a concrete key below `derivative/staging/` is accepted for an output, under a prefix without that segment, and is not safe from the cleanup |
| `BlobCleanup.StagingBackendIsCleaned` | infrastructure/object-storage/src/key-derivation.ts:52-54 | with the backend id `staging` no content object and no output is safe from the cleanup |
| `BlobCleanup.StagingKeyLooksStaged` | infrastructure/object-storage/src/s3-compatible.ts:262-265 | every staging key passes the filter |
| `BlobCleanup.CleanupIsComplete` | infrastructure/object-storage/src/s3-compatible.ts:249-279 | without faults exactly the listed staging objects are gone, and all listed staging uploads, and the reply counts both |
| `BlobRefinement.StoresAgree` | infrastructure/object-storage/src/s3-compatible.ts:50-238 | after every fault-free run of served calls both stores hold the same bytes under the same keys and reply alike to the next call; the 10000-part error and transport failures never appear |
| `BlobRefinement.CommitNeedsCapacity` | infrastructure/object-storage/src/s3-compatible.ts:293-305 | without faults a commit with the right digest goes through if and only if the bytes fit into 10000 parts |
| `BlobRefinement.BeginDiffersOnMalformedWorkspace` | infrastructure/object-storage/src/in-memory.ts:44-62 | the two stores reply alike to a begin if and only if the workspace id is well formed |
| `BlobRefinement.AbortDiffersOnForeignHandle` | infrastructure/object-storage/src/in-memory.ts:104-106 | the two stores reply alike to the abort of a staged id if and only if the handle names this backend and a well formed workspace |
| `CanonicalJson.CanonicalizeSucceeds` | packages/administration/src/configuration.ts:87-113 | canonicalization succeeds if and only if the value is JSON with finite numbers at every depth |
| `CanonicalJson.SortOrders` | packages/administration/src/configuration.ts:104-111 | the rebuilt object has its keys in one fixed total order and the same members |
| `KeyOrder.IndicesAreDecimals` | packages/administration/src/configuration.ts:104-111 | the keys that an object enumerates first are exactly the decimal texts of the numbers up to 2^32 - 2 |
| `KeyOrder.KeyOrderMeaning` | packages/administration/src/configuration.ts:104-111 | these come in the order of their numbers and before all others, which come by their first differing character |
| `CanonicalJson.CanonicalFormsDecide` | packages/administration/src/configuration.ts:87-113 | two values have the same canonical form if and only if they are equal up to key order at every depth |
| `CanonicalJson.CanonicalIsSame` | packages/administration/src/configuration.ts:87-113 | the canonical form is equal to the value up to key order at every depth |
| `CanonicalJson.CanonicalIsFixed` | packages/administration/src/configuration.ts:87-113 | a canonical form is its own canonical form |
| `JsonText.PrintedIsRead` | packages/administration/src/configuration.ts:83-85 | a reader by the grammar of RFC 8259 reads the printed text of every JSON value back as that value, also inside a larger text |
| `JsonText.TextIsRead` | packages/administration/src/configuration.ts:83-85 | the printed text is one JSON text of that value and nothing besides |
| `JsonText.CanonicalTextIsRead` | packages/administration/src/configuration.ts:83-113 | the canonical text of a configuration is read as a value equal to it up to key order |
| `JsonText.PrintIsUnique` | packages/administration/src/configuration.ts:83-85 | the printed text of a JSON value determines the value, also inside a larger text |
| `JsonText.CanonicalTextIsIdentity` | packages/administration/src/configuration.ts:83-113 | two configurations have the same canonical text if and only if they are equal up to key order at every depth |
| `JsonText.CanonicalizationIsIdempotent` | packages/administration/src/configuration.ts:83-113 | canonicalizing the canonical form again gives the same text |
| `OutboxStore.SelectionMeaning` | infrastructure/postgres/src/index.ts:676-687 | the selected rows are as many as fit, in `occurred_at, id` order, without repetition, and no candidate is passed over for a later one |
| `OutboxStore.PostgresOutboxStore.Append` | infrastructure/postgres/src/index.ts:626-655 | an append inserts an unclaimed row available from its instant, or fails on a taken id |
| `OutboxStore.PostgresOutboxStore.ClaimBatch` | infrastructure/postgres/src/index.ts:657-716 | the claim refuses bad limits and leases, changes nothing when a selected row cannot be deserialized, and otherwise returns and marks exactly the selection with one fresh token and one lease |
| `OutboxStore.PostgresOutboxStore.SelectRows` | infrastructure/postgres/src/index.ts:676-687 | taking the earliest unlocked eligible row, limit times, is the selection |
| `OutboxStore.PostgresOutboxStore.Acknowledge` | infrastructure/postgres/src/index.ts:718-739 | exactly an undelivered row that carries this claim is marked delivered; otherwise nothing changes and the call fails |
| `OutboxStore.PgBossDurableMessageQueue.Publish` | infrastructure/queue-postgres/src/index.ts:84-97 | an envelope with a UUID id is enqueued unless its id is there already; another id is refused |
| `OutboxRuns.EveryStepKeepsSound` | packages/application/src/use-cases.ts:415-446 | appends, ticks, claims, publishes, acknowledgements and crashes of any relays keep the invariant of rows, jobs, claims and history |
| `OutboxGuarantees.DeliveredIsEnqueued` | packages/application/src/use-cases.ts:436-442 | over every interleaving, a row marked delivered has its envelope, unchanged, in the queue |
| `OutboxGuarantees.OneJobPerEnvelope` | infrastructure/queue-postgres/src/index.ts:84-97 | over every interleaving, the queue holds at most one job per envelope id, and only appended envelopes |
| `OutboxGuarantees.AcknowledgedOnceByLatestClaimant` | infrastructure/postgres/src/index.ts:718-739 | over every interleaving, an envelope is acknowledged at most once, and with the token of its latest claim |
| `OutboxGuarantees.UnexpiredClaimsAreDisjoint` | infrastructure/postgres/src/index.ts:676-694 | over every interleaving, two relays never hold unexpired claims on one envelope |
| `OutboxGuarantees.AppendedIsKept` | infrastructure/postgres/src/index.ts:621-740 | no step changes or removes an appended envelope, and a delivered row never changes again |
| `OutboxGuarantees.EligibleInTime` | infrastructure/postgres/src/index.ts:679-684 | every undelivered row is claimable again after some time |
| `OutboxGuarantees.DeliverableFromAnywhere` | packages/application/src/use-cases.ts:415-446 | from every reachable state some continuation delivers a given undelivered envelope with a UUID id |
| `OutboxGuarantees.DeliverableIffUuid` | infrastructure/queue-postgres/src/index.ts:84-89 | an undelivered envelope can still be delivered if and only if its id is a UUID |
| `OutboxClaims.RowsAreTheFirstAppended` | infrastructure/postgres/src/index.ts:626-655 | after every run the outbox holds exactly the envelopes that were the first with their ids to be appended |
| `OutboxClaims.ClaimTakesTheEarliest` | infrastructure/postgres/src/index.ts:676-710 | after every run a claim takes rows that are due, undelivered, not locked and under no running claim of the run's history, each once and no more than the limit; a claimable row is passed over only by a full batch that precedes it by `occurred_at, id`; the new claims carry the envelopes, the end of the lease and a token that no claim had before |
| `OutboxTurns.TurnDeliversPrefix` | packages/application/src/use-cases.ts:424-446 | an undisturbed turn of the relay delivers exactly the envelopes before the first id that is no UUID, in the order returned; the rest of the batch stays claimed and no other row changes |
| `OutboxTurns.HeadHoldsBatchBack` | packages/application/src/use-cases.ts:424-446 | while such an id stands at the head, turns with one limit that return their batch in order never deliver any envelope of that first batch, whatever time passes and whatever arrives behind it |
| `Leases.PostgresResourceLeaseStore.Acquire` | infrastructure/postgres/src/index.ts:747-784 | the upsert: token 1 without a row, the next token for an expired row, nothing while the lease lasts |
| `Leases.PostgresResourceLeaseStore.Complete` | infrastructure/postgres/src/index.ts:786-797 | the row goes if and only if the token is the current one |
| `Leases.AcquireFences` | infrastructure/postgres/src/index.ts:756-777 | in every run an acquisition succeeds if and only if every lease since the last completion has ended, and its token is their number plus one |
| `Leases.CompleteFences` | infrastructure/postgres/src/index.ts:786-797 | in every run a completion succeeds if and only if its token is the number of acquisitions since the last completion |
| `Leases.SupersededNeverCompletes` | infrastructure/postgres/src/index.ts:786-797 | until the next completion a superseded token completes nothing, whatever happens meanwhile |
| `Leases.StaleHolderCompletesLaterLease` | infrastructure/postgres/src/index.ts:767-797 | a concrete run in which a stale holder completes another holder's running lease, because tokens restart after a completion |
| `KeyedLists.SortMeaning` | infrastructure/git-repository-runtime/src/index.ts:520-532 | sorting by any comparator keeps the members, their number and the distinctness of their keys |
| `GitSync.DiffMeaning` | infrastructure/git-repository-runtime/src/index.ts:511-532 | the difference of two trees holds exactly the change of every path that differs, once |
| `GitSync.SnapshotItemsMeaning` | connectors/git-markdown/src/git-markdown-source.ts:213-215 | the items of a snapshot are the fresh filtered snapshot, entry for entry, in the order of their paths |
| `GitSync.DeltaItemsMeaning` | connectors/git-markdown/src/git-markdown-source.ts:409-411 | the filtered delta leads from one filtered snapshot to the other, in the order of its paths |
| `GitSync.DeltaReachesSnapshot` | connectors/git-markdown/src/git-markdown-source.ts:383-455 | applying a delta to the snapshot of one commit gives the snapshot of the other |
| `GitSync.RerunConverges` | connectors/git-markdown/src/git-markdown-source.ts:383-455 | after an interrupted delta whose first changes were applied, the delta to the same target reaches the target's snapshot |
| `GitSync.MovedTargetConvergesIff` | connectors/git-markdown/src/git-markdown-source.ts:383-455 | when the target has moved, that holds if and only if no path already applied has its old blob back |
| `Paging.PagesMeaning` | connectors/git-markdown/src/git-markdown-source.ts:232-255 | pages concatenate to the list, every page but the last is full, exactly the last is complete, and all carry the target as cursor |
| `Paging.PagesCount` | connectors/git-markdown/src/git-markdown-source.ts:232-255 | there are no more pages than the items need |
| `Paging.Discover` | connectors/git-markdown/src/git-markdown-source.ts:440-455 | the generator loop yields exactly those pages |
| `GitScans.Collect` | packages/knowledge/src/ingestion.ts:430-467 | the consumer accepts pages exactly when the last, and only the last, is complete |
| `GitScans.ScanCommitsWhole` | packages/knowledge/src/ingestion.ts:430-485 | a scan commits its target when all pages arrive, and otherwise changes nothing |
| `GitScans.ScanMeaning` | packages/knowledge/src/ingestion.ts:430-485 | after every run a scan commits its target with the filtered snapshot of its tree if and only if its page size and trees are allowed and as many pages arrive as the differing paths fill, at least one; otherwise it changes nothing |
| `GitScans.DocumentsAreSnapshot` | connectors/git-markdown/src/git-markdown-source.ts:175-255 | for every sequence of target commits, page sizes, interruptions, full rescans and refused trees the committed documents are the fresh filtered snapshot of the cursor's commit |
| `GitScans.DeltaRefusedIff` | connectors/git-markdown/src/git-repository.ts:79-102 | a delta is refused if and only if one of the two trees cannot be read or they differ at more than 100000 paths |
| `GitScans.DisjointTreesRefused` | connectors/git-markdown/src/git-repository.ts:79-102 | between readable trees without common paths that is so if and only if together they exceed 100000 entries, even when a snapshot of either is accepted |
| `TreeParser.ParseTreeEntries` | infrastructure/git-repository-runtime/src/index.ts:1289-1326 | the offset loop with its set of seen paths computes the record-by-record parser |
| `TreeParser.ParsedTreeIsValid` | infrastructure/git-repository-runtime/src/index.ts:1289-1326 | whatever the bytes, an accepted listing has distinct safe paths, well formed ids and no more than the limit |
| `TreeParser.TreeRoundTrip` | infrastructure/git-repository-runtime/src/index.ts:1289-1326 | of every printed listing with plain fields the parser returns exactly the blobs in order, with decoded paths, when no record has a defect, and otherwise the first defect: limit, id, path, or a repeated path |
| `TreeParser.TreeComesBackIff` | infrastructure/git-repository-runtime/src/index.ts:1289-1326 | of a tree with distinct safe paths exactly the original blobs come back if and only if no blob path begins with a byte order mark and no record, blob or not, follows as many blobs as the limit admits |
| `TreeParser.MarkedPathCollides` | infrastructure/git-repository-runtime/src/index.ts:1310-1321 | two files whose paths differ by a leading byte order mark make the listing invalid, under any limit of at least two |
| `LogRedaction.LogRedactor.RedactLogValue` | apps/api/src/logger.ts:22-71 | on every heap, shared or cyclic, the walk terminates, computes the redaction and restores the set of visited objects |
| `LogRedaction.LogRedactor.RedactArray` | apps/api/src/logger.ts:42-55 | the array loop redacts every slot and restores the set of visited objects |
| `LogRedaction.LogRedactor.RedactObject` | apps/api/src/logger.ts:57-68 | the property loop redacts every property but one named `__proto__`, which an assignment does not store |
| `LogRedaction.RedactLogObject` | apps/api/src/logger.ts:73-80 | a log object always comes out as an object: arrays as an empty one, errors as their fixed shape |
| `RedactionLaws.MaskedNeverSurvives` | apps/api/src/logger.ts:22-71 | two heaps that differ only under sensitive names, behind accessors, in errors, or in objects reachable through those alone, are logged alike |
| `RedactionLaws.CircularExactlyAtAncestors` | apps/api/src/logger.ts:36-40 | the circular marker stands at a path if and only if the path leads through distinct objects back to one of its own ancestors, errors excepted |
| `RedactionLaws.AcyclicIsUnfolded` | apps/api/src/logger.ts:22-71 | on acyclic heaps the result is the plain unfolding: shared objects are copied in full and no marker appears |
| `ProcessorProtocol.QuotasExactly` | infrastructure/attachment-runtime/src/attachment-processor-protocol.ts:129-165 | quotas are read if and only if the object is, up to key order, the printed form of valid quotas |
| `ProcessorProtocol.RequestsExactly` | infrastructure/attachment-runtime/src/attachment-processor-protocol.ts:167-204 | a parsed value is accepted as a request if and only if it is, up to key order, the printed value of that valid request |
| `LossyUtf8.DecodeOfCut` | infrastructure/attachment-runtime/src/attachment-processor-service.ts:354 | decoding two pieces apart equals decoding them together if they are cut at a character boundary, and yields more characters otherwise, on all bytes, well formed or not |
| `LossyUtf8.DecodedInChunksIff` | infrastructure/attachment-runtime/src/attachment-processor-service.ts:354 | chunks decoded one by one give the decoded stream if and only if no chunk ends inside a character |
| `LossyUtf8.ReplacedAreMaximalStarts` | infrastructure/attachment-runtime/src/attachment-processor-service.ts:354 | on any bytes a character at the front is decoded, and where there is none one replacement stands for the longest start of a character, or for one byte |
| `LineFraming.Connection.OnData` | infrastructure/attachment-runtime/src/attachment-processor-service.ts:353-367 | the whole new state of buffer, connection and handled requests after a chunk of bytes |
| `LineFraming.Connection.HandleLines` | infrastructure/attachment-runtime/src/attachment-processor-service.ts:359-366 | the line loop handles every complete line in order and leaves the tail |
| `LineFraming.FramingIsSplitting` | infrastructure/attachment-runtime/src/attachment-processor-service.ts:350-368 | however the bytes are cut, the connection survives if and only if no chunk overflows the buffer, and then the requests are those of the complete lines of the text decoded chunk by chunk and the buffer is its newline-free tail; that text is the stream's own if and only if no chunk ends inside a character |
| `LineFraming.CharacterCutsDoNotMatter` | infrastructure/attachment-runtime/src/attachment-processor-service.ts:350-368 | of a well formed stream with chunks that end between characters, the connection survives if and only if every chunk and the unfinished line before it have at most 16384 bytes together, and it then is as if the text had come at once |
| `LineFraming.SplitCharacterOverflows` | infrastructure/attachment-runtime/src/attachment-processor-service.ts:353-358 | a concrete line of 16384 bytes is accepted in one chunk, and destroys the connection when a chunk ends inside its last character |
| `LineFraming.PrintedCharacter` | infrastructure/attachment-runtime/src/attachment-processor-protocol.ts:249-253 | every character of printed JSON is plain ASCII, or above U+007F and taken from a key or text of the value |
| `LineFraming.PrintNewlineFree` | infrastructure/attachment-runtime/src/attachment-processor-protocol.ts:249-253 | printed JSON is one line, whatever its texts |
| `LineFraming.StreamIsAscii` | infrastructure/attachment-runtime/src/attachment-processor-protocol.ts:249-253 | valid requests print to ASCII |
| `LineFraming.RequestsArrive` | infrastructure/attachment-runtime/src/attachment-processor-service.ts:350-368 | any valid requests, printed, concatenated and cut into any chunks of bytes, are handled as exactly that sequence if and only if every chunk and the unfinished line before it stay within 16 KiB together |
| `LineFraming.ReaderParsesPrinted` | infrastructure/attachment-runtime/src/attachment-processor-protocol.ts:167-175 | the reader of RFC 8259 is such a parser: it reads every printed request back |
| `LineFraming.SomeParserParsesPrinted` | infrastructure/attachment-runtime/src/attachment-processor-protocol.ts:167-175 | some parser undoes the printer on all valid requests, so the assumption about `JSON.parse` can be met |
| `RelativeLinks.ResolveSegments` | connectors/git-markdown/src/markdown-attachments.ts:144-155 | the loop that pushes and pops names computes the resolution |
| `RelativeLinks.ResolvesIffNeverClimbs` | connectors/git-markdown/src/markdown-attachments.ts:144-155 | resolution fails if and only if a prefix of the segments climbs above the root; its result holds only names, at the depth reached |
| `RelativeLinks.ResolvedIsClean` | connectors/git-markdown/src/markdown-attachments.ts:120-161 | every resolved path is a legal repository path without empty, `.` or `..` segments |
| `RelativeLinks.ResolvesExactly` | connectors/git-markdown/src/markdown-attachments.ts:120-161 | a link resolves if and only if its syntax is not refused, it never climbs above the root, and it ends at a legal path |
| `RelativeLinks.RelativeLinkResolves` | connectors/git-markdown/src/markdown-attachments.ts:142-155 | the relative link through any common ancestor of document and target resolves to the target |
| `RelativeLinks.RelativeDestinationResolves` | connectors/git-markdown/src/markdown-attachments.ts:120-161 | so does its text, for every target that a destination can spell, with blanks or angle brackets around it |
| `RelativeLinks.BareForms` | connectors/git-markdown/src/markdown-attachments.ts:124 | blanks around a destination do not matter, nor does a pair of angle brackets or one of the two; blanks alone are no destination |
| `RelativeLinks.QueryDoesNotMatter` | connectors/git-markdown/src/markdown-attachments.ts:124-161 | a link with a question mark or a hash and any text after it leads where the link alone does, unless that text has a backslash or a control character, which has it refused |
| `MarkdownFences.BlankFencedCode` | connectors/git-markdown/src/markdown-attachments.ts:41-64 | the line callback with its open fence computes the blanked text |
| `FencedLines.FenceOfMeaning` | connectors/git-markdown/src/markdown-attachments.ts:41-64 | a line is a fence of a marker and a length if and only if it begins with at most three spaces and a run of exactly that many of the marker, at least three |
| `FencedLines.ExactlyFencedLinesAreBlanked` | connectors/git-markdown/src/markdown-attachments.ts:41-64 | a line is blanked if and only if it is a fence or lies behind an opener that no later line closes with the same marker and at least its length; every other line stays as it was |
| `MarkdownFences.BlankingKeepsPositions` | connectors/git-markdown/src/markdown-attachments.ts:41-64 | blanking keeps the number of lines and the length of each in UTF-16 units, so every newline stays where it was |
| `MarkdownFences.BlankingIsIdempotent` | connectors/git-markdown/src/markdown-attachments.ts:41-64 | blanking twice changes nothing more |
| `MarkdownFences.ExtractHeadings` | connectors/git-markdown/src/markdown.ts:119-160 | the heading loop with its fence and its counts computes the specification |
| `FencedLines.HeadingsAreOutside` | connectors/git-markdown/src/markdown.ts:119-160 | the headings are those of the lines outside fenced code, one for each, in order, with their line numbers, and no others |
| `MarkdownFences.BlankingKeepsHeadings` | connectors/git-markdown/src/markdown.ts:119-160 | blanking fenced code changes no heading, not even its line number |
| `MarkdownFences.HeadingsAreNumbered` | connectors/git-markdown/src/markdown.ts:147-156 | the k-th heading outside fences with a given base anchor gets the suffix k - 1, and the first gets none |
| `JitbitDiscovery.Discover` | connectors/jitbit/src/jitbit-case-source.ts:125-172 | the generator refuses bad page sizes and otherwise yields the specified pages |
| `JitbitDiscovery.YieldPages` | connectors/jitbit/src/jitbit-case-source.ts:136-171 | the loop ends at the first short page |
| `JitbitDiscovery.PagesConcatenate` | connectors/jitbit/src/jitbit-case-source.ts:136-171 | the pages of a run concatenate to the eligible rest of the list |
| `JitbitDiscovery.PagesHoldTheEligible` | connectors/jitbit/src/jitbit-case-source.ts:136-171 | all pages of a run hold one event for each eligible summary from the offset on, with its issue id and its fingerprint, in the order of the list, and no other event |
| `JitbitDiscovery.PagesCarryOn` | connectors/jitbit/src/jitbit-case-source.ts:163-168 | exactly the last page is complete and carries the watermark; the others carry the same date, each one page size further |
| `JitbitDiscovery.ResumeYieldsTheRest` | connectors/jitbit/src/jitbit-case-source.ts:31-73 | stopping after any page and resuming from its cursor, with any page size, yields exactly the remaining events, and the overlap is not subtracted again |
| `JitbitDiscovery.EveryUpdateIsSeenIff` | connectors/jitbit/src/jitbit-case-source.ts:75-90 | over successive runs every update since the initial date is seen by some run if and only if each run's end day less the overlap reaches back to its start |
| `JitbitDiscovery.ShortRunsMissNothing` | connectors/jitbit/src/jitbit-case-source.ts:75-90 | that holds when no run takes longer than the overlap |
| `JitbitPublication.JitbitAnalysisDestination.FindPublication` | connectors/jitbit/src/jitbit-destination.ts:49-73 | the first comment that carries the marker |
| `JitbitPublication.JitbitAnalysisDestination.PublishComment` | connectors/jitbit/src/jitbit-destination.ts:75-129 | the whole new comment list and reply, for lost reads, requests and responses and for other errors of the post, which are thrown on |
| `JitbitPublication.OneCommentPerMarker` | connectors/jitbit/src/jitbit-destination.ts:75-129 | over every run, whatever is lost, whatever bodies contain and whatever others add, the destination stores at most one comment per marker |
| `JitbitPublication.FreshPublication` | connectors/jitbit/src/jitbit-destination.ts:75-129 | of a marker that no comment carries, the body with its marker is posted if and only if comments can be read and the request is neither lost nor refused; the outcome is unknown if and only if request or response is lost |
| `JitbitPublication.PublishedForGood` | connectors/jitbit/src/jitbit-destination.ts:75-129 | once a publication has succeeded, every later one with its marker names the same comment, the first that carries it, and changes nothing, whatever happens in between |
| `JitbitPublication.CarriesExactly` | connectors/jitbit/src/mapping.ts:308-321 | a published comment carries a marker if and only if it is its own or the body already carried it |
| `JitbitPublication.FindsOwnComment` | connectors/jitbit/src/jitbit-destination.ts:49-73 | for bodies free of marker text a publication is found if and only if its marker was posted, and what is found carries that marker alone |
| `JitbitPublication.PublishingKeepsCase` | connectors/jitbit/src/mapping.ts:392-420 | over every run the normalized case is that of the same ticket on which only the others have commented |
| `JitbitPublication.ContentIsUnmarked` | connectors/jitbit/src/mapping.ts:392-399 | the comments of a case are those of people without a marker, each once, in order, and no others |
| `RepositoryWalk.Walk` | infrastructure/repository-runtime/src/oci-tool-runner.ts:131-152 | the stack walk finds exactly the regular files reachable without links, and fails if and only if they exceed the limit or one has an unsafe path |
| `RepositoryWalk.FilesAreTheReached` | infrastructure/repository-runtime/src/oci-tool-runner.ts:131-152 | a path is found if and only if a chain of directories leads to a regular file of that name |
| `RepositoryWalk.AllFiles` | infrastructure/repository-runtime/src/oci-tool-runner.ts:114-153 | the listing is those files, sorted; it fails also without a directory to start from |
| `RepositoryWalk.EachFileOnce` | infrastructure/repository-runtime/src/oci-tool-runner.ts:131-152 | in a tree with legal names no file is reached twice |
| `RepositorySearch.SearchPaths` | infrastructure/repository-runtime/src/oci-tool-runner.ts:228-252 | the search returns exactly the first matches, up to the maximum, in path and line order |
| `RepositorySearch.AllMatchesMeaning` | infrastructure/repository-runtime/src/oci-tool-runner.ts:228-252 | the matches are those of the files one after the other: of a file that is read its lines that contain the query, in order, numbered from one, and of a skipped file none |
| `RepositorySearch.LinesOfText` | infrastructure/repository-runtime/src/oci-tool-runner.ts:245 | lines joined by any mix of the three terminators are split again exactly as joined, if and only if no lone carriage return, empty line and lone line feed follow each other |
| `RepositorySearch.SearchFiles` | infrastructure/repository-runtime/src/oci-tool-runner.ts:202-253 | the search fails if and only if query, maximum, prefix or listing are refused, and otherwise searches the sorted listing |
| `RepositorySearch.ExcerptIsRange` | infrastructure/repository-runtime/src/oci-tool-runner.ts:173-200 | a read succeeds if and only if its bounds are line numbers in order and the file reaches the first; the excerpt begins at the requested line, or the first, ends at the requested line or with the file, and split again is exactly those lines |

## Left out

- BlobRefinement.StoresAgree: covers calls with well formed workspaces in use, maximal sizes within 10000 parts and aborts of this backend's handles, because the stores part on the others as the lemmas beside it show; `cleanupStaging` has no in-memory counterpart.
- BlobSafety.EndedHandleStaysEnded: assumes that the random identifier is not drawn again.
- BlobUploads.NoUploadIsOrphaned: assumes that random identifiers are not drawn twice; a lost abort leaves its upload to the cleanup.
- S3BlobStore.S3CompatibleBlobStore.AppendBytes: staging records are values in a map, so concurrent calls on one handle are not modelled; neither is cancellation on entry, which changes nothing.
- OutboxStore.PgBossDurableMessageQueue.Publish: jobs are never archived and ids are compared as texts; a job table that drops finished jobs would enqueue a republished envelope again, and one that folds the case of UUIDs would merge ids that differ in case.
- OutboxGuarantees.DeliverableIffUuid: assumes that every row deserializes; a row that does not rolls each claim of it back, which leaves the world as it is.
- OutboxTurns.HeadHoldsBatchBack: turns do not interleave, and rows locked by other transactions do not occur; a batch returned in another order can deliver what comes before the bad id, as `OutboxTurns.TurnDeliversPrefix` says.
- LogRedaction.LogRedactor.RedactLogValue: the list of sensitive names is a parameter, as it belongs to another package; proxies and stack overflow are not modelled.
- JitbitPublication.OneCommentPerMarker: publishes on one ticket are sequential and comments are not deleted; two concurrent publishes of one marker can both find nothing.
- JitbitPublication.PublishingKeepsCase: the order of comments and the mapping of fields are parameters, because only the choice of comments depends on what is published.
- JitbitDiscovery.ResumeYieldsTheRest: the list does not change during a run, and cursors are values rather than their JSON text.
- JitbitDiscovery.PagesHoldTheEligible: which tickets are eligible is a parameter, because the case source and the knowledge source differ in it.
- RepositoryWalk.AllFiles: the starting directory is a node of the tree; links above it, which the operating system follows, are not modelled.
- GitScans.DocumentsAreSnapshot: a document is represented by its blob id; loading, normalizing, embedding and attachments are not modelled.
- MarkdownFences.HeadingsAreNumbered: reading a heading line is a parameter, and anchors are not globally unique, as headings `a`, `a` and `a-1` show.
- ZIP: checksums are not compared by the reader, and `inspectZipArchive`, `normalizeText` and the processor's job directories belong to code with input and output of its own.
- JsonText.TextIsRead: the reader refuses no number text by itself, as number texts belong to a parameter.
- `JSON.stringify` on sparse arrays and on objects with `toJSON` is not modelled.
- The event machine that supervises Git processes is not modelled.
- Composition, environment parsing, HTTP routes, the administration client and the documentation site are wiring or user interface.
- Retrieval, schedules and connector descriptors would only add members of one branch each.
