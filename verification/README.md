# iQDB: codec, core engine and handle

This project models the parts of iQDB that carry hard state and proves what they promise.

* **The payload codec.** `PayloadFormat` gives the format as functions: `Enc*` yields the bytes an
  encoder hands to its writer and how it ended, `Parse*` reads from a position and yields a value
  with the position after it. `Encoder` and `Decoder` are the imperative encoder and decoder over a
  writer and a reader, proved equal to those functions. `PayloadLayout` states the documented layout
  byte by byte, apart from encoder and parser, and that the encoder writes exactly it;
  `PayloadSample` spells out one whole file. `PayloadReadBack`, `PayloadLocality` and `PayloadNormal`
  prove round trips, prefix-freedom and normal forms, `PayloadAcceptance` what else is accepted and
  how the rest is refused.
* **The core engine.** `RowStore` is the vector of rows with its position map. `AnyIndex` is the
  derived index behind its cache layer. `CoreState` gives the transitions of the core, `CoreSteps`
  the coupling invariant of each, `CorePersistence` save and load, `CoreRuns` whole runs. The class
  `IqdbCore` updates itself in place and is proved against the transitions.
* **Search.** `FlatSearch` ranks exactly and says what the order of rows has to do with it,
  `FlatReload` what a save and a load do to it. `Searching` is a search at the handle, with the
  dimension gate and the index that may first have to be materialized; `Retraining` says what a
  failed `optimize` does to it; `ConcurrentSearch` treats threads that interleave between the read
  guard and the write guard.
* **The handle.** `Handle` is the database handle with an in-memory or durable backend.
  `Durability`, `CrashRuns` and `CrashSteps` treat log, snapshot, crashes and reopens.

## Results that need a word

* **Empty keys.** The encoder writes a `Bytes` id of length zero, the decoder refuses it. So a saved
  database loads again exactly when no stored id is an empty key (`SaveThenLoad`), a crashed database
  opens again exactly when its current snapshot holds none, the requested dimension and metric are
  its own and the requested cache can be wrapped (`EveryRunIsExplained`), and `EmptyKeyBlocksReopen`
  is a run in which nothing but such an id keeps the files from opening. `docs/API.md:374` documents
  a `Bytes` key as non-empty, but `src/engine/codec.rs:234` builds the variant directly and from
  outside the crate that defines it, so the type does not rule an empty key out; where every writer
  keeps to the documentation the condition always holds (`CleanRunsRecover`).
* **Dimensions.** Vectors are written without a length. `RoundTripIff` states that decoding gives a
  payload back exactly when every vector has `dim` components and no id is an empty key. The core's
  `insert` stores a row before the index checks its dimension, so an insert keeps the coupling
  invariant exactly when the dimension is right (`InsertStep`); the handle's check makes it so.
* **Failed retraining.** `optimize` fails exactly on a non-empty IVF database whose rows cannot be
  trained on (`OptimizeStep`). The dirty flag it leaves behind makes every admitted search fail in the
  same way, although an index trained before still holds every row; of all runs without a write -
  more searches, further attempts, another cache, reloads - none gets out of this
  (`FailedOptimizeBlocksSearch`). `OptimizeCanBlockSearch` is a run that gets into it.
* **Ties.** A reload may order the rows of a flat index differently, because the store keeps a
  replaced row's position and fills a removed one from the end, and the live index does neither. The
  answer for a given k stays the same exactly when the new order keeps the ties of the hits that were
  returned (`FlatSurvivesReload`), and for every k exactly when it keeps all ties
  (`FlatRankingSurvivesReload`). Where it does not, equally distant hits come back in another order
  or, when the k-th place falls between them, other hits come back; a hit that does not tie with the
  first one left out always comes back. `ReloadMayReorderTies` shows both.

## Assumptions about code outside the repository

* The index crates are represented by `Env`: arbitrary functions for what they accept, whether
  training succeeds, distances, filters and the answers of the approximate indices. An index is what
  it was built with and the mutations it accepted, so any deterministic implementation is an instance.
  An untrained index is empty and refuses work; a search is refused for the dimension of its query,
  for an untrained index and for a malformed filter, in this order; inserting an absent id of the right dimension
  succeeds; deleting an absent id reports that it was not found; equally distant hits of the exact
  index come in insertion order.
* The cache is cleared by every mutation attempt, as `src/engine/mod.rs:44-48` states; eviction is an
  arbitrary function of the lookups since then.
* The persistence crate logs a write before it is applied (`src/handle.rs:58-60`), replaces the
  snapshot atomically and resets the log in a second step (`src/handle.rs:75-82`), writes a first
  snapshot when a database is created (`tests/recovery.rs:61-63`), replays through `insert` and
  `delete` (`src/engine/mod.rs:10-13`), and drops a torn record at the end of the log
  (`tests/recovery.rs:80-82`). An append that fails leaves the records on the log as they were. An
  append that has been acknowledged is on disk, which is the default fsync policy.
* Metadata iterates in ascending key order. Floating-point values are bit patterns; distances are
  integers because only their order matters. A client's vector is not empty and holds no infinity and
  no NaN (`docs/API.md:357`). `usize` has 64 bits.

## Model

| member | source | states |
|---|---|---|
| Types.AcceptedIsShortestScalar | src/engine/codec.rs:322-328 | a UTF-8 character is accepted exactly when it is the shortest form of a Unicode scalar value that is no surrogate |
| Types.TextSplits | src/engine/codec.rs:322-328 | bytes are accepted as text exactly when they split, to the end, into such characters |
| Types.LessAtFirstDifference | src/engine/codec.rs:251-255 | keys are ordered by the first byte in which they differ, a proper prefix first |
| Types.FiniteByExponent | src/handle.rs:318-326 | a component is finite exactly when its exponent is not all ones, whatever sign and mantissa |
| MetadataMap.InsertIsUpdate | src/engine/codec.rs:271 | ordered insertion into metadata is the map update |
| MetadataMap.InsertAscending | src/engine/codec.rs:271 | ordered insertion keeps the key order |
| MetadataMap.CollectIsLastWins | src/engine/codec.rs:264-271 | collecting decoded pairs gives the map in which later pairs overwrite earlier ones |
| MetadataMap.CollectAscending | src/engine/codec.rs:251-271 | collecting entries already in order changes nothing |
| MetadataMap.SameMapSameMetadata | src/engine/codec.rs:251-271 | metadata in key order is determined by the map it stands for |
| Bytes.FromLeOfLe | src/engine/codec.rs:363-387 | a number that fits a width reads back from its bytes |
| Bytes.LeOfFromLe | src/engine/codec.rs:363-387 | every byte string of a width is the form of the number read from it |
| Bytes.LeSpelled | src/engine/codec.rs:363-369 | the bytes of a 32-bit or 64-bit number are exactly those that spell it lowest byte first |
| Bytes.FromLeSpelled | src/engine/codec.rs:381-387 | the number read from four or eight bytes is the one they spell lowest byte first |
| Bytes.TwosIsModular | src/engine/codec.rs:304 | a signed word is the number modulo 2^64 |
| PayloadLayout.StrWritten | src/engine/codec.rs:315-320 | a string is encoded as its four-byte length and its bytes |
| PayloadLayout.ValueWritten | src/engine/codec.rs:279-300 | a value is encoded under tag 0 to 4 in the documented layout |
| PayloadLayout.MetaWritten | src/engine/codec.rs:244-258 | metadata is encoded as a presence byte, an entry count and the entries |
| PayloadLayout.IdWritten | src/engine/codec.rs:207-221 | an id is encoded under tag 0 as eight bytes or under tag 1 as length and key |
| PayloadLayout.RowWritten | src/engine/codec.rs:74-80 | a row is encoded as id, components without a count, metadata |
| PayloadLayout.KindWritten | src/engine/codec.rs:131-161 | an index kind is encoded under tag 0, 1 or 2 with every field at its offset |
| PayloadLayout.EncodedIsLayout | src/engine/codec.rs:13-23 | a payload is encoded to the bytes of the documented layout and to no others |
| PayloadSample.SampleFile | src/engine/codec.rs:59-127 | one complete file, literally: written and read back byte for byte |
| PayloadAcceptance.LayoutIsRead | src/engine/codec.rs:85-127 | bytes in the documented layout are decoded to the payload they stand for |
| PayloadAcceptance.NumbersRead | src/engine/codec.rs:371-391 | a field is read as the number its bytes spell lowest byte first, or refused when cut short |
| PayloadAcceptance.HeaderRead | src/engine/codec.rs:85-97 | only "IQDC" and version 1 are accepted, and the error says which is missing |
| PayloadAcceptance.BooleansRead | src/engine/codec.rs:307 | any byte but 0 reads as true |
| PayloadAcceptance.IvfFlagRead | src/engine/codec.rs:177 | any byte but 0 reads as the quantization flag being set |
| PayloadAcceptance.MetaRead | src/engine/codec.rs:260-277 | of repeated keys in any order the last one is read |
| PayloadAcceptance.TagsRefused | src/engine/codec.rs:163-352 | a tag without a meaning is refused with the error of its kind |
| PayloadAcceptance.LengthsRefused | src/engine/codec.rs:223-328 | a length beyond the input, an empty key and bad UTF-8 are refused each with its error |
| PayloadAcceptance.EncodesIff | src/engine/codec.rs:59-82 | encoding succeeds exactly when every length and count fits its field and the metric has a tag |
| PayloadAcceptance.RowErrors | src/engine/codec.rs:207-320 | which error stops the encoding of a row |
| PayloadAcceptance.PayloadErrors | src/engine/codec.rs:59-82 | which error stops the encoding of a payload |
| PayloadAcceptance.FirstRowStops | src/engine/codec.rs:74-80 | the first row that cannot be encoded stops the encoding with its error |
| PayloadReadBack.ReadsU32 | src/engine/codec.rs:367-383 | a 32-bit length reads back; one that does not fit leaves nothing readable |
| PayloadReadBack.ReadsCount | src/engine/codec.rs:363-391 | a 64-bit count reads back; one that does not fit leaves nothing readable |
| PayloadReadBack.ReadsStr | src/engine/codec.rs:315-328 | a string reads back, or its cut-short encoding is refused |
| PayloadReadBack.ReadsValue | src/engine/codec.rs:279-313 | a metadata value reads back, or its cut-short encoding is refused |
| PayloadReadBack.ReadsEntry | src/engine/codec.rs:252-269 | a metadata entry reads back, or its cut-short encoding is refused |
| PayloadReadBack.ReadsEntries | src/engine/codec.rs:251-270 | the entry list reads back entry by entry, or its cut-short encoding is refused |
| PayloadReadBack.ReadsMeta | src/engine/codec.rs:244-277 | optional metadata reads back, or its cut-short encoding is refused |
| PayloadReadBack.ReadsId | src/engine/codec.rs:207-240 | an id reads back exactly when its encoding finished and it is not the empty key |
| PayloadReadBack.ReadsComponents | src/engine/codec.rs:74-113 | vector components without a count read back under the right dimension |
| PayloadReadBack.ReadsRow | src/engine/codec.rs:74-119 | a row reads back exactly when its encoding finished and its id is not the empty key |
| PayloadReadBack.ReadsRows | src/engine/codec.rs:74-119 | the row sequence reads back in order, or is refused as a whole |
| PayloadReadBack.ReadsKind | src/engine/codec.rs:131-203 | an index kind with all its parameters reads back |
| PayloadReadBack.ReadsMetric | src/engine/codec.rs:332-352 | a supported metric reads back; for an unsupported one nothing readable is written |
| PayloadReadBack.ReadsPayload | src/engine/codec.rs:59-127 | whatever the encoder left behind is decoded to exactly what was encoded, or refused |
| PayloadLocality.LocalRows | src/engine/codec.rs:103-120 | parsing rows depends only on the bytes consumed |
| PayloadLocality.LocalKind | src/engine/codec.rs:163-203 | parsing an index kind depends only on the bytes consumed |
| PayloadLocality.LocalMeta | src/engine/codec.rs:260-277 | parsing metadata depends only on the bytes consumed |
| PayloadLocality.LocalPayload | src/engine/codec.rs:85-127 | decoding depends only on the bytes consumed |
| PayloadLocality.PrefixFree | src/engine/codec.rs:85-127 | an accepted input may be extended freely and is rejected when cut inside what was consumed |
| PayloadNormal.InsertWithin | src/engine/codec.rs:271 | an overwritten metadata entry gives its encoded bytes back |
| PayloadNormal.CollectWithin | src/engine/codec.rs:264-271 | collected metadata encodes in no more bytes than the decoded pairs |
| PayloadNormal.FitsMeta | src/engine/codec.rs:244-277 | decoded metadata can be encoded again in no more bytes than were read |
| PayloadNormal.FitsRows | src/engine/codec.rs:103-120 | decoded rows can be encoded again in no more bytes than were read |
| PayloadNormal.FitsKind | src/engine/codec.rs:163-203 | a decoded kind encodes in no more bytes than were read, also from a non-canonical boolean |
| PayloadNormal.ParsedStorable | src/engine/codec.rs:223-240 | no decoded row has the empty key |
| PayloadNormal.FitsPayload | src/engine/codec.rs:85-127 | a decoded payload with rows that need no more room encodes in no more bytes than were read |
| PayloadNormal.ConsumptionBound | src/engine/codec.rs:85-127 | an accepted input is at least 26 bytes plus 7 and four times the dimension for every row |
| Encoder.Writer.WriteAll | src/engine/codec.rs:66-70 | bytes are appended, or the writer fails having taken what fits |
| Encoder.EmitThen | src/engine/codec.rs:66-82 | writing two encodings one after the other is writing their sequence, the first failure ending it |
| Encoder.EncodeU32 | src/engine/codec.rs:367-369 | a length is written in four bytes, lowest first, or refused with nothing written when it does not fit |
| Encoder.EncodeU64 | src/engine/codec.rs:363-365 | a count is written in eight bytes, lowest first, or refused with nothing written when it does not fit |
| Encoder.EncodeStr | src/engine/codec.rs:315-320 | writes the string encoding to any writer and stops where it fails |
| Encoder.EncodeValue | src/engine/codec.rs:279-300 | writes the value encoding to any writer and stops where it fails |
| Encoder.EncodeEntry | src/engine/codec.rs:252-255 | writes the key and then the value, stopping at the first failure |
| Encoder.EncodeMeta | src/engine/codec.rs:244-258 | writes the metadata encoding to any writer and stops where it fails |
| Encoder.EncodeId | src/engine/codec.rs:207-221 | writes the id encoding to any writer and stops where it fails |
| Encoder.EncodeKind | src/engine/codec.rs:131-161 | writes the kind encoding to any writer and stops where it fails |
| Encoder.EncodeMetric | src/engine/codec.rs:332-341 | writes the metric tag, or fails on an unsupported metric without writing |
| Encoder.EncodeRow | src/engine/codec.rs:74-80 | writes the row encoding to any writer and stops where it fails |
| Encoder.Encode | src/engine/codec.rs:59-82 | the bytes written are the documented layout and are decoded to exactly what was encoded, or not at all |
| Encoder.EncodedIsAllOrNothing | src/engine/codec.rs:59-82 | whatever stopped the encoder, at any byte, what it left behind is rejected |
| Encoder.TruncationRejected | src/engine/codec.rs:489-524 | every proper prefix of an encoding is rejected |
| Decoder.Reader.ReadExact | src/engine/codec.rs:371-375 | takes the next bytes, or fails when too few are left |
| Decoder.Reader.ReadU8 | src/engine/codec.rs:377-379 | computes the one-byte parse |
| Decoder.Reader.ReadU32 | src/engine/codec.rs:381-383 | reads the number that the next four bytes spell, lowest first |
| Decoder.Reader.ReadU64 | src/engine/codec.rs:385-391 | reads the number that the next eight bytes spell, lowest first, also for a `usize` field |
| Decoder.Reader.ReadVec | src/engine/codec.rs:393-406 | reads the bytes or reports truncation, reserving at most the clamped hint |
| Decoder.Reader.DecodeStr | src/engine/codec.rs:322-328 | computes the string parse within its allocation bound |
| Decoder.Reader.DecodeValue | src/engine/codec.rs:302-313 | computes the value parse within its allocation bound |
| Decoder.Reader.DecodeEntry | src/engine/codec.rs:266-269 | computes the parse of one pair, which pushes at least four elements fewer than the bytes it reads |
| Decoder.Reader.DecodeEntries | src/engine/codec.rs:264-270 | computes the entry parse with two hints open and iterations paid for by bytes |
| Decoder.Reader.DecodeMeta | src/engine/codec.rs:260-277 | computes the metadata parse with two hints open |
| Decoder.Reader.DecodeId | src/engine/codec.rs:223-240 | computes the id parse with one hint open |
| Decoder.Reader.DecodeComponents | src/engine/codec.rs:105-112 | computes the component parse with one hint open and iterations paid for by bytes |
| Decoder.Reader.DecodeRow | src/engine/codec.rs:104-119 | computes the row parse with two hints open |
| Decoder.Reader.DecodeRows | src/engine/codec.rs:101-120 | computes the row parse with three hints open and iterations paid for by bytes |
| Decoder.Reader.DecodeKind | src/engine/codec.rs:163-203 | computes the kind parse without reserving anything |
| Decoder.Reader.Decode | src/engine/codec.rs:85-127 | computes the payload parse from the reader's position within all bounds |
| Decoder.DecodeBytes | src/engine/codec.rs:40-46 | on any bytes: at most three hints of 4096 slots open at once, pushed elements and loop iterations linear in the bytes read, and every row and component accounted for |
| RowStore.PositionOf | src/engine/store.rs:69-71 | in a store of distinct ids a row's id leads to its position and its payload |
| RowStore.UpsertDistinct | src/engine/store.rs:76-91 | upsert keeps ids distinct |
| RowStore.UpsertIsUpdate | src/engine/store.rs:76-91 | upsert is the map update |
| RowStore.RemoveDistinct | src/engine/store.rs:95-107 | swap-remove keeps ids distinct and leaves no row of the removed id |
| RowStore.RemoveIsSubtract | src/engine/store.rs:95-107 | swap-remove removes one key from the map and nothing else |
| RowStore.ContentsSize | src/engine/store.rs:54-56 | the number of rows is the size of the map |
| RowStore.RowStore.Len | src/engine/store.rs:54-56 | the number of stored ids |
| RowStore.RowStore.IsEmpty | src/engine/store.rs:59-61 | true exactly when no id is stored |
| RowStore.RowStore.Contains | src/engine/store.rs:64-66 | true exactly when the id is stored |
| RowStore.RowStore.Get | src/engine/store.rs:69-71 | the stored row, present exactly when the id is stored |
| RowStore.RowStore.Upsert | src/engine/store.rs:76-91 | the position map stays the inverse of the vector, the map is updated, every other row keeps its position |
| RowStore.RowStore.Remove | src/engine/store.rs:95-107 | the position map stays the inverse of the vector, the id is gone, only the vacated slot changed |
| AnyIndex.CachedSearchIsSearch | src/engine/mod.rs:107-112 | a cached search answers what the bare index answers and leaves the cache fresh |
| AnyIndex.CacheRemembers | src/engine/mod.rs:44-112 | an answer that is not evicted is kept for the same query, and every mutation attempt clears the cache |
| AnyIndex.InsertAddsRow | src/engine/index.rs:79-90 | an accepted insert adds the row behind the others |
| AnyIndex.DeleteDropsRow | src/engine/index.rs:92-98 | an accepted delete removes one id and keeps the order of the rest |
| AnyIndex.BuildSucceeds | src/engine/mod.rs:231-236 | bulk loading new rows of the right dimension into a ready index never fails and keeps their order |
| CoreSteps.GetIsAnswer | src/engine/mod.rs:195-199 | a lookup in the store is a lookup in the stored map |
| CoreSteps.CreateSound | src/engine/mod.rs:337-350 | a new core is refused exactly for dimension 0 or by the index, and otherwise is empty, coupled and as configured |
| CoreSteps.ReplaceInIndex | src/engine/mod.rs:268-288 | on a ready index an insert replaces the row in the index as it does in the store |
| CoreSteps.InsertStep | src/engine/mod.rs:268-288 | insert updates the stored map, changes nothing but rows and index contents, and keeps the coupling invariant exactly when the dimension is right |
| CoreSteps.DeleteInIndex | src/engine/mod.rs:290-301 | on a ready index a delete drops one id, keeps the order of the rest and what the index was trained on, and leaves the flag alone |
| CoreSteps.DeleteStep | src/engine/mod.rs:290-301 | delete always succeeds, removes the id, changes nothing but rows and index contents and keeps the coupling invariant |
| CoreSteps.RebuiltHoldsRows | src/engine/mod.rs:226-236 | a rebuilt index holds the stored rows in order and was trained on the vector of every row; only refusal or training can fail |
| CoreSteps.EnsureReadyStep | src/engine/mod.rs:222-240 | materialization trains on the vector of every row when a rebuild is due, fails exactly when the constructor or that training refuses, and then changes nothing |
| CoreSteps.OptimizeStep | src/engine/mod.rs:244-249 | optimize retrains on the vector of every row and clears the flag, leaves an empty IVF core dirty, and fails exactly when the rows cannot be built, leaving only the flag |
| CoreSteps.SetCacheStep | src/engine/mod.rs:209-218 | re-wrapping changes only the cache, is refused exactly with the flat placeholder, and then changes nothing |
| CoreSteps.SearchStep | src/engine/mod.rs:254-256 | a search changes only the cache; an approximate index is asked for the same query, k and filter |
| CoreSteps.IndexAnswers | src/engine/index.rs:100-106 | what an index refuses, in which order, and that everything else reaches its implementation with the filter |
| Retraining.StuckStep | src/engine/mod.rs:222-249 | a core whose rows wait for a failing rebuild stays so through searches, further attempts, another cache and a reload, and reports the same failure |
| Retraining.StuckUntilWritten | src/engine/mod.rs:222-249 | no run without a write gets out of a failing rebuild, and each rebuild and admitted search in it reports the failure |
| Retraining.FailedOptimizeBlocksSearch | src/handle.rs:511-541 | after a failed optimize every search and rebuild of a run without writes fails with the same error |
| Retraining.OptimizeCanBlockSearch | src/engine/mod.rs:222-249 | a run in which the same search succeeds before and fails after an optimize |
| CorePersistence.DeduplicateDistinct | src/engine/mod.rs:363-366 | distinct rows are loaded as they are, in order |
| CorePersistence.DeduplicateLastWins | src/engine/mod.rs:363-366 | of several rows with one id the last is loaded |
| CorePersistence.DeduplicateFirstOrder | src/engine/mod.rs:363-366 | ids are loaded in the order of their first rows |
| CorePersistence.DeduplicateWithin | src/engine/mod.rs:363-366 | rows loaded with repeated ids encode in no more bytes than before |
| CorePersistence.FromPayloadStep | src/engine/mod.rs:360-397 | loading decoded rows fails only when the index constructor refuses, and yields a coupled core |
| CorePersistence.LoadOutcome | src/engine/mod.rs:360-397 | loading fails as parsing fails or because the index is refused, and loads the last row of each id |
| CorePersistence.RoundTripIff | src/engine/codec.rs:59-127 | a payload survives encoding and decoding exactly when all vectors have the declared dimension and no id is the empty key |
| CorePersistence.SaveThenLoad | src/engine/mod.rs:356-397 | a saved core loads again exactly when no id is the empty key, with the same kind, dimension, metric and row sequence |
| CorePersistence.LoadNormalizes | src/engine/mod.rs:356-397 | any accepted input loads to a core that saves in at most the bytes consumed and loads back to the same state |
| CorePersistence.RebuildIsDeterministic | src/engine/mod.rs:222-249 | optimizing in place and materializing a reloaded copy build the same IVF index or fail alike |
| FlatSearch.RankedIsExpected | tests/properties.rs:40-74 | the ranking is sorted and holds exactly once each hit the stored map calls for |
| FlatSearch.NearestIsTopK | tests/properties.rs:40-74 | the exact search is the top k: sorted, bounded, without duplicates, nothing nearer left out |
| FlatSearch.RankedOrdered | src/engine/mod.rs:254-256 | the ranking is stable: equally distant hits keep the order of their rows |
| FlatSearch.OrderOnlyBreaksTies | src/engine/mod.rs:268-301 | over two row orders of one map, exact searches give the same distances, and the same hits when there are no ties |
| FlatSearch.RankedAgreeIff | src/engine/mod.rs:268-301 | two row orders of one map rank alike exactly when they order all ties alike |
| FlatSearch.NearestAgreeIff | src/engine/mod.rs:268-301 | for a given k they answer alike exactly when the second keeps the ties of the hits that the first returns |
| FlatSearch.OnlyTheCutDiffers | src/engine/mod.rs:268-301 | a hit that does not tie with the first one left out is returned under every row order |
| FlatReload.FlatSurvivesReload | src/engine/mod.rs:376-382 | after a reload a flat database gives the same distances, the same answer exactly when the ties of the returned hits are kept, and always the hits that do not tie with the first one left out |
| FlatReload.FlatRankingSurvivesReload | src/engine/mod.rs:376-382 | the answers for every k survive a reload exactly when store and index order all ties alike |
| FlatReload.ReplacedIsReached | src/engine/mod.rs:284-287 | inserting 1, 2 and 1 again leads to a store and an index in different orders |
| FlatReload.ReloadMayReorderTies | src/engine/store.rs:82-84 | with a tie, a reload returns two ids in the other order, and for k = 1 another id |
| CoreRuns.ExecStep | src/engine/mod.rs:163-397 | every operation keeps the coupling invariant and acts on the stored map as it should |
| CoreRuns.ReplyStep | src/engine/mod.rs:163-301 | inserts, deletes, lookups and counts are answered as the stored map answers them, searches as it accounts for them |
| CoreRuns.ExecReports | src/engine/mod.rs:209-249 | when rebuilds, reloads and cache changes fail, and what index they leave |
| CoreRuns.RunConcat | src/engine/mod.rs:163-397 | a run is its operations one after the other |
| CoreRuns.RunRefinesMap | src/engine/mod.rs:163-397 | after any run the coupling invariant holds, the store is the fold of the writes, every reply on the way is that of a plain map, and the map accounts for every search |
| CoreRuns.ExecTransparent | src/engine/mod.rs:44-112 | every operation replies and acts the same with and without a cache |
| CoreRuns.CacheIsTransparent | src/engine/mod.rs:44-112 | no run can tell whether there is a cache, through mutation, rebuild, reload and re-wrapping |
| Durability.LastRecordDecides | src/engine/mod.rs:268-301 | the last record on an id decides its entry, whatever the log is applied to |
| Durability.ReplayAbsorbsPrefix | src/engine/mod.rs:371-374 | replaying a log whose prefix is already in the snapshot gives what replaying the rest gives |
| Durability.ApplyStep | src/engine/mod.rs:10-13 | a logged write always applies and has the effect of its record |
| Durability.ReplayStep | src/engine/mod.rs:10-13 | replay never fails and is the fold of the records |
| Durability.GateIsExact | src/handle.rs:493-502 | the dimension gate admits exactly the writes that keep a sound core sound |
| Durability.ReplayStops | src/engine/mod.rs:10-13 | replay goes record by record and stops at the first that is refused |
| Durability.OpenRestores | src/handle.rs:202-237 | files open exactly when their snapshot holds no empty key, dimension and metric match and the cache can be wrapped, and give the map they stand for |
| Durability.OpenChecksShape | src/handle.rs:214-221 | a reopen with another dimension or metric is refused |
| Durability.Logging | src/handle.rs:58-62 | appending a record makes the files stand for the written map |
| Durability.SnapshotReplaced | src/handle.rs:75-82 | a replaced snapshot stands for the same map both before and after the log is reset |
| CrashSteps.StartPossible | src/handle.rs:227-230 | when a database can be created, and with which files |
| CrashSteps.WriteCompletes | src/handle.rs:56-62 | an admitted write goes behind the log first and is then applied and acknowledged, or left behind by a crash |
| CrashSteps.CheckpointCompletes | src/handle.rs:75-82 | a checkpoint can be made whenever the payload can be encoded, and what both halves leave |
| CrashSteps.ReadsAnswered | src/handle.rs:253-326 | reads and searches are always possible, answered from the map, and touch no file |
| CrashSteps.ReopenPossible | src/handle.rs:202-237 | a crashed database can only be reopened, exactly as the files and the request allow |
| CrashRuns.StartInv | src/handle.rs:227-230 | a created database is recoverable before its first write |
| CrashRuns.StepInv | src/handle.rs:41-83 | every write step, refused write, checkpoint step, read, search, crash and reopen keeps the files and the core in step with the plain map |
| CrashRuns.EveryRunIsExplained | src/handle.rs:56-82 | after any run a plain map accounts for all answers and searches, and a crashed database reopens to it exactly when its snapshot holds no empty key, the shape matches and the cache can be wrapped |
| CrashRuns.LoggedWritesFinish | src/handle.rs:56-73 | a write that reached the log is never refused afterwards |
| CrashRuns.CleanRunsRecover | src/handle.rs:202-237 | after a run without empty keys a crashed database reopens under every cache that can be wrapped |
| CrashRuns.EmptyKeyBlocksReopen | src/engine/codec.rs:228-232 | an insert under the empty key and a checkpoint leave files that no longer open |
| CrashRuns.AtMostOneWriteInFlight | src/handle.rs:56-73 | between two reopens at most one write is interrupted |
| Searching.AnswerReflectsStore | src/handle.rs:511-541 | an index that a search reaches is trained and holds exactly the stored map, whatever the search reports; a flat answer is the exact top k |
| Searching.AskStep | src/handle.rs:511-541 | a search through the cache gives the sequential answer and keeps the core sound and its rows |
| Searching.AskIsAccounted | src/handle.rs:511-541 | the stored map accounts for every search: a refused dimension, nothing stored, an index holding exactly the map, or a failed rebuild |
| Searching.FlatAnswers | tests/properties.rs:40-74 | what a map accounts for on a flat database is its exact top k, or a refused filter |
| Searching.ApproximateAnswers | src/engine/index.rs:100-106 | an HNSW or IVF database answers as a trained index holding exactly the map does for the same query, k and filter |
| Searching.AskAnswers | src/handle.rs:511-541 | the answer of a search in terms of the index in place afterwards |
| Searching.WritesNeedNoRebuild | src/engine/mod.rs:268-301 | after a write on a clean core a search is answered without a rebuild by an index trained as before |
| ConcurrentSearch.StepKeeps | src/handle.rs:511-541 | every guarded section of every thread keeps all returned answers linearized |
| ConcurrentSearch.SearchesLinearize | src/handle.rs:511-541 | in every interleaving each search gave the sequential answer at one instant within its call, from a trained index holding exactly the rows of that instant or from none |
| ConcurrentSearch.SearchesSeeWrites | src/handle.rs:288-541 | every state is the map of the writes so far, and a search is answered from the map of exactly the writes before a section of its own behind its call |
| ConcurrentSearch.SectionEffect | src/handle.rs:511-541 | a section answers its thread or, under the read guard only, sends it to the write guard, and leaves all others alone |
| ConcurrentSearch.WriterEffect | src/handle.rs:288-446 | a write or a rebuild moves no thread and adds one state: the written map under the same training, or the same map newly trained |
| ConcurrentSearch.StepsPossible | src/handle.rs:288-541 | when each step of each thread can be taken |
| ConcurrentSearch.LoneSearch | src/handle.rs:511-541 | a search with nobody else about is answered sequentially in one or two sections |
| IqdbCore.IqdbCore.Create | src/engine/mod.rs:337-350 | builds a sound empty core or reports the constructor's refusal |
| IqdbCore.IqdbCore.Len | src/engine/mod.rs:165-167 | the number of stored ids, materialized or not |
| IqdbCore.IqdbCore.GetRow | src/engine/mod.rs:195-199 | the stored vector and metadata, or none |
| IqdbCore.IqdbCore.Insert | src/engine/mod.rs:268-288 | the in-place insert is the insert transition, updates the map, keeps flag and training and stays sound exactly when the dimension is right |
| IqdbCore.IqdbCore.Delete | src/engine/mod.rs:290-301 | the in-place delete is the delete transition, always succeeds on a sound core, and keeps flag and training |
| IqdbCore.IqdbCore.IndexReplaceDelete | src/engine/mod.rs:259-264 | never fails; the index loses the id if it held it and keeps the other rows in order, and no cached answer is left |
| IqdbCore.IqdbCore.EnsureReady | src/engine/mod.rs:222-240 | materializes in place to an index trained on the vector of every row, atomically in case of failure |
| IqdbCore.IqdbCore.Optimize | src/engine/mod.rs:244-249 | retrains in place on the vector of every row; a failure leaves only the dirty flag |
| IqdbCore.IqdbCore.SetCache | src/engine/mod.rs:209-218 | re-wraps in place; a failure leaves everything as it was |
| IqdbCore.IqdbCore.Search | src/engine/mod.rs:254-256 | the exact top k of what is stored, or what the approximate index finds for the same query, k and filter |
| IqdbCore.IqdbCore.SaveTo | src/engine/mod.rs:356-358 | writes the core's payload in the documented layout; after a failure the bytes written are rejected |
| IqdbCore.IqdbCore.LoadFrom | src/engine/mod.rs:360-397 | decodes, fills the store row by row and builds the index, yielding the loaded core |
| Handle.Iqdb.OpenInMemory | src/handle.rs:153-163 | opens exactly when the dimension is non-zero and the index accepts the configuration, and says which is wrong |
| Handle.Iqdb.CreateAt | src/handle.rs:227-230 | a durable database is created exactly when the dimension is non-zero, the index accepts and the first snapshot can be written; it is empty and its files stand for that |
| Handle.Iqdb.OpenAt | src/handle.rs:202-237 | loads, replays, checks the shape and re-applies the cache; the files then stand for the opened map |
| Handle.Iqdb.ReplayLog | src/engine/mod.rs:10-13 | applies the log record by record and stops at the first failure |
| Handle.Iqdb.Len | src/handle.rs:253-255 | the number of stored ids |
| Handle.Iqdb.Get | src/handle.rs:318-326 | the stored vector and metadata, or none, or an error exactly for a stored vector that is no longer valid |
| Handle.Iqdb.Upsert | src/handle.rs:288-292 | refused without effect on a wrong dimension or a failing log, otherwise the map is updated in memory and in what the files stand for |
| Handle.Iqdb.Delete | src/handle.rs:334-339 | refused without effect on a failing log, otherwise reports whether the id was stored and removes it in memory and in what the files stand for; asks for no rebuild |
| Handle.Iqdb.Optimize | src/handle.rs:444-446 | retrains on the vector of every row; fails exactly on non-empty IVF rows that training refuses, and never changes the stored map |
| Handle.Iqdb.Checkpoint | src/handle.rs:461-477 | in a durable database succeeds exactly when the snapshot can be written in full, which then alone stands for the map; otherwise nothing has changed |
| Handle.Iqdb.Search | src/handle.rs:511-541 | the dimension gate, then the sequential answer: the exact top k, or what a trained index holding exactly the map finds for the same query, k and filter |

## Left out

- CrashRuns.EveryRunIsExplained: does not model fsync policies that acknowledge a write before it is on disk, or damage other than a torn last record.
- ConcurrentSearch.SearchesLinearize: treats each section under a guard as one step; overlapping read sections that share the cache are ordered.
- Decoder.DecodeBytes: bounds what capacity hints reserve and what is pushed; how a growing vector over-allocates by itself is not modelled.
- PayloadReadBack.ReadsCount: `usize` is taken to have 64 bits, so reading a count never fails for width.
- The async wrapper, which forwards to the handle and adds no state.
- Configuration builders, error display, cache statistics, index statistics and `flush` of the inner index.
- Batch search, a pointwise map of search.
- The inside of the HNSW and IVF indices, training, distance kernels and filter evaluation; no recall is claimed.
- The outer snapshot frame, checksums, compression, file system calls, and lock poisoning.
