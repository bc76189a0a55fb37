# Firestore LevelDB target cache, modelled in Dafny

This project models the target cache of the Firestore client SDK, which is
backed by LevelDB. A target is a registered query. The cache keeps:

- the target rows;
- a query->target index, keyed by the query's canonical id;
- two mirrored membership indexes: target->document and document->target.
  The document->target family also holds one "sentinel" row per document.
  That row carries a listen sequence number and belongs to no target;
- a singleton metadata row. It holds the highest target id, the highest
  listen sequence number, the target count and the last remote snapshot
  version.

The cache object keeps an in-memory copy of the metadata, and every write
goes through the current transaction.

The store is modelled as a record of row families (`CacheModel.Store`):

- a family with a payload is a `map`;
- a family with empty payloads is a `set` of key tuples.

Every prefix scan of the original is a fold over `Ordering.SortedBy`, the
enumeration of a family in ascending key order. Target ids are ordered as
integers and document keys lexicographically. The cache object is an
immutable `CacheModel.Cache`:

- `store` is the transaction's view;
- `metadata` and `lastRemoteSnapshotVersion` are the in-memory copies;
- `references` logs every call the cache makes on the reference delegate.

A `HARD_FAIL` becomes a `Fatal(...)` outcome, with one `Failure` per message
the original can abort with. The one exception is the `HARD_ASSERT` on a
document->target key that fails to decode, which cannot arise over decoded
keys (see "Left out").

Modules:

- `Ordering`: strict total orders, and `SortedBy`, the ordered enumeration of a finite set.
- `CacheModel`: data model, row layout of the document->target family, invariants (`Consistent`).
- `Metadata`: reading, raising and saving the metadata; `Start`; the snapshot-version watermark.
- `Membership`: the membership indexes and the delegate notifications.
- `Targets`: adding, updating and removing targets, the lookup by query, and the two scans over the target family.
- `TargetProperties`: the consistency invariant across operations, round trips, and the garbage-collection sweep's exact effect.
- `Orphans`: the orphaned-document scan, a reference reading of it, and its exactness.

## Model

| member | source | states |
|---|---|---|
| Metadata.TryReadMetadata | Firestore/core/src/firebase/firestore/local/leveldb_query_cache.cc:53-73 | A missing metadata row gives "absent". A row that does not parse is fatal. A parsed row gives its record, and nothing else does. |
| Metadata.ReadMetadata | Firestore/core/src/firebase/firestore/local/leveldb_query_cache.cc:75-84 | A missing metadata row is fatal (`MissingMetadata`). An unparsable row stays fatal. The result is `Ok(g)` exactly when the row holds `g`. |
| Metadata.Start | Firestore/core/src/firebase/firestore/local/leveldb_query_cache.cc:91-102 | Starting succeeds iff the metadata row parses and its snapshot version decodes. Otherwise it is fatal: `MissingMetadata` for a missing row, `UnreadableMetadata` for one that does not parse, `UndecodableVersion` for a version that does not decode. On success the in-memory metadata and watermark agree with the row, and no delegate call has been made. |
| Metadata.UpdateMetadata | Firestore/core/src/firebase/firestore/local/leveldb_query_cache.cc:369-383 | Each watermark ends at least as high as both its old value and the target's field, and equals one of them. The count and snapshot version are untouched. The flag is true iff a watermark rose, and false iff the record is unchanged. |
| Metadata.SaveMetadata | Firestore/core/src/firebase/firestore/local/leveldb_query_cache.cc:385-387 | The metadata row becomes the in-memory record; every other row and the in-memory state are unchanged. |
| Metadata.SetLastRemoteSnapshotVersion | Firestore/core/src/firebase/firestore/local/leveldb_query_cache.cc:315-324 | The getter then returns the new version. The metadata record changes only in its encoded version and is persisted. No other row changes. |
| Metadata.SnapshotVersionSurvivesRestart | Firestore/core/src/firebase/firestore/local/leveldb_query_cache.cc:91-102 | Restarting over the store that was just written succeeds. It yields the version and the metadata that were set. |
| Metadata.RestartRestoresCache | Firestore/core/src/firebase/firestore/local/leveldb_query_cache.cc:91-102 | When the in-memory state agrees with the store, restarting over that store rebuilds the same cache, with an empty delegate log. |
| Targets.Save | Firestore/core/src/firebase/firestore/local/leveldb_query_cache.cc:362-367 | The target row for the id now holds the encoded target; every other row is unchanged. |
| Targets.AddTarget | Firestore/core/src/firebase/firestore/local/leveldb_query_cache.cc:104-116 | The target row is present, and other target rows are unchanged. The query->target index gains exactly (canonical id, id). The count rises by one. Each watermark becomes the larger of its old value and the target's field. The metadata is persisted. Membership rows, sentinels and the delegate are untouched. |
| Targets.UpdateTarget | Firestore/core/src/firebase/firestore/local/leveldb_query_cache.cc:118-124 | The target row is rewritten. Each watermark becomes the larger of its old value and the target's field. The metadata row is rewritten iff a watermark rose; otherwise the metadata row and record are unchanged. The index rows are untouched. |
| Targets.RemoveTarget | Firestore/core/src/firebase/firestore/local/leveldb_query_cache.cc:126-140 | The target row is removed and so is its (canonical id, id) index row. Its target->document rows are all removed, each with its inverse, and symmetric indexes stay symmetric. The count is one lower, and the metadata is persisted. |
| Targets.Probe | Firestore/core/src/firebase/firestore/local/leveldb_query_cache.cc:159-187 | Over candidate ids in scan order, the result is the first candidate whose decoded query equals the probe's. It is absent iff every candidate decodes to another query. A fatal result names the first candidate that is not passed over and does not match. A missing row gives `DanglingReference` with the canonical id and target id; an undecodable row gives `UndecodableTarget`. |
| Targets.GetTarget | Firestore/core/src/firebase/firestore/local/leveldb_query_cache.cc:142-190 | A found target has an index row under the query's canonical id. Its query equals the query asked for. Every indexed candidate with a lower id was passed over. The result is absent iff every candidate under that canonical id decodes to a different query. A fatal result names the least candidate that neither matches nor is passed over, as a dangling reference when its row is missing. |
| TargetProperties.GetTargetFailsAtFirstBadCandidate | Firestore/core/src/firebase/firestore/local/leveldb_query_cache.cc:170-184 | When every lower candidate is passed over, a candidate with no target row makes the lookup fail with `DanglingReference` for that canonical id and target id. One whose row does not decode makes it fail with `UndecodableTarget`. |
| Targets.DecodeTargets | Firestore/core/src/firebase/firestore/local/leveldb_query_cache.cc:389-398 | Decoding a run of target rows succeeds iff every row decodes. It yields each row's target, in order. Otherwise the failure is `UndecodableTarget` of the first row that does not decode. |
| Targets.EnumerateTargets | Firestore/core/src/firebase/firestore/local/leveldb_query_cache.cc:192-202 | Succeeds iff every target row decodes. It makes one report per row, and the reports are exactly the stored targets. The reports follow an ascending enumeration of every key of the target family: the i-th report is the target held by the row at the i-th key. When every row holds the target of its own id, reports come in ascending target id, so each stored target is reported exactly once. |
| Targets.RemoveTargets | Firestore/core/src/firebase/firestore/local/leveldb_query_cache.cc:204-221 | Succeeds iff every target row decodes. The count returned is at most the number of targets. |
| TargetProperties.RemoveTargetsRemovesExactlySelected | Firestore/core/src/firebase/firestore/local/leveldb_query_cache.cc:204-221 | On a consistent cache the sweep succeeds and keeps the cache consistent. It removes exactly the targets at or below the bound whose ids are not live. It returns how many that is, and lowers the target count by the same amount. It deletes exactly the membership rows of the removed targets, in both indexes, and no others. |
| TargetProperties.SweepDropsMemberships | Firestore/core/src/firebase/firestore/local/leveldb_query_cache.cc:211-220 | Suppose the indexes start symmetric and every decodable row scanned holds the target of its own id. Then a successful sweep over those rows leaves the indexes symmetric. It keeps exactly the membership rows of the targets it did not remove. |
| TargetProperties.AddTargetKeepsConsistent | Firestore/core/src/firebase/firestore/local/leveldb_query_cache.cc:104-116 | Adding a target with a fresh id keeps every invariant, including count == number of target rows. |
| TargetProperties.UpdateTargetKeepsConsistent | Firestore/core/src/firebase/firestore/local/leveldb_query_cache.cc:118-124 | Updating an existing target under the same canonical id keeps every invariant. |
| TargetProperties.RemoveTargetKeepsConsistent | Firestore/core/src/firebase/firestore/local/leveldb_query_cache.cc:126-140 | Removing an existing target keeps every invariant. No membership row of its id is left in either index. |
| TargetProperties.MatchingKeysKeepConsistent | Firestore/core/src/firebase/firestore/local/leveldb_query_cache.cc:223-249 | Adding or removing matching keys keeps every invariant. |
| TargetProperties.GetTargetOnConsistent | Firestore/core/src/firebase/firestore/local/leveldb_query_cache.cc:142-190 | On a consistent cache the lookup never fails. It is absent iff no stored target has the query. Otherwise it returns the stored target with that query and the least id. |
| TargetProperties.AddThenGetTarget | Firestore/core/src/firebase/firestore/local/leveldb_query_cache.cc:104-116 | A target just added, for a query no stored target has, is then found by that query. |
| TargetProperties.AddKeepsSole | Firestore/core/src/firebase/firestore/local/leveldb_query_cache.cc:104-116 | Adding a target for a different query does not change the lookup of a query that exactly one stored target has. |
| TargetProperties.GetTargetSole | Firestore/core/src/firebase/firestore/local/leveldb_query_cache.cc:142-190 | On a consistent cache, when exactly one stored target has the query, the lookup returns that target. |
| TargetProperties.CanonicalIdCollision | Firestore/core/src/firebase/firestore/local/leveldb_query_cache.cc:142-190 | Two different queries that share a canonical id, neither stored before, are added under distinct ids. Each is then found as its own target. |
| TargetProperties.RemoveThenGetTarget | Firestore/core/src/firebase/firestore/local/leveldb_query_cache.cc:126-140 | When the removed target was the only one with its query, that query is no longer found. |
| TargetProperties.RemoveUndoesAddTarget | Firestore/core/src/firebase/firestore/local/leveldb_query_cache.cc:104-140 | Removing a target just added restores the target rows, the query->target index and the count. |
| TargetProperties.WatermarksNeverDecrease | Firestore/core/src/firebase/firestore/local/leveldb_query_cache.cc:369-383 | Over any sequence of target adds and updates, neither watermark ever decreases, and each ends at or above every written target's field. |
| Membership.AddMatchingKeys | Firestore/core/src/firebase/firestore/local/leveldb_query_cache.cc:223-238 | Both indexes gain exactly the (target, key) rows and their inverses, and symmetry is preserved. The delegate receives one AddReference per key, exactly for the given keys. The earlier delegate log is kept. Nothing else changes. |
| Membership.RemoveMatchingKeys | Firestore/core/src/firebase/firestore/local/leveldb_query_cache.cc:240-249 | Both indexes lose exactly those rows, and symmetry is preserved. The delegate receives one RemoveReference per key, exactly for the given keys. Nothing else changes. |
| Membership.RemoveAllKeysForTarget | Firestore/core/src/firebase/firestore/local/leveldb_query_cache.cc:251-271 | No target->document row of the target is left, and other targets' rows are untouched. A document->target row is deleted only if its inverse was scanned. With symmetric indexes, no row of the target is left on either side. No delegate call is made. |
| Membership.GetMatchingKeys | Firestore/core/src/firebase/firestore/local/leveldb_query_cache.cc:273-292 | A document is returned iff it has a target->document row for the target. |
| Membership.Contains | Firestore/core/src/firebase/firestore/local/leveldb_query_cache.cc:294-313 | True iff some document->target row other than the sentinel exists for the document. |
| Membership.ContainsIffSomeTargetMatches | Firestore/core/src/firebase/firestore/local/leveldb_query_cache.cc:273-313 | With symmetric indexes, a document is contained iff some target's matching keys include it. |
| Membership.SentinelOnlyIsNotContained | Firestore/core/src/firebase/firestore/local/leveldb_query_cache.cc:294-313 | A document with a sentinel row and no membership row is not contained. |
| Membership.MatchingKeysAfterAdd | Firestore/core/src/firebase/firestore/local/leveldb_query_cache.cc:223-292 | After adding keys, the target's matching keys are the previous ones plus exactly those keys. |
| Membership.MatchingKeysAfterRemove | Firestore/core/src/firebase/firestore/local/leveldb_query_cache.cc:240-292 | After removing keys, the target's matching keys are the previous ones minus exactly those keys. |
| Membership.RemoveUndoesAdd | Firestore/core/src/firebase/firestore/local/leveldb_query_cache.cc:223-249 | Removing keys that were just added, and were not present before, restores the store. |
| Orphans.EnumerateOrphanedDocuments | Firestore/core/src/firebase/firestore/local/leveldb_query_cache.cc:326-360 | The reports equal the reference reading of the ordered document->target rows. A sentinel with a non-zero sequence number is reported iff the next row is another sentinel or there is no next row. |
| Orphans.ScanMatchesReference | Firestore/core/src/firebase/firestore/local/leveldb_query_cache.cc:331-359 | From any pending state, the pending-report scan emits the pending report (when the rows start with a sentinel or run out) followed by the reference reading. |
| Orphans.OrphansInMembership | Firestore/core/src/firebase/firestore/local/leveldb_query_cache.cc:338-358 | A report names a reported sentinel row with its sequence number, and every reported row is reported. |
| Orphans.OrphanScanExact | Firestore/core/src/firebase/firestore/local/leveldb_query_cache.cc:326-360 | Suppose every referenced document has a sentinel row. Then the scan reports exactly the documents that have a non-zero sentinel and no target, each with its sentinel's number. Each document is reported once. |
| Orphans.MissedOrphanWithoutSentinel | Firestore/core/src/firebase/firestore/local/leveldb_query_cache.cc:338-353 | A counterexample: a document lacking a sentinel, whose membership row follows an orphan's sentinel, hides that orphan. |

## Left out

- LevelDB itself is not modelled. That covers iterators, seeks, `Status` values other than not-found, and the transaction's buffering and commit. Each scan is a fold over the family's keys in ascending order, and each write is an update of the family.
- The key codec (`leveldb_key.h`) is not part of this model. Decoded keys are tuples, and the byte order of encoded keys is taken to be ascending target id and lexicographic document key. As a result, the early `break` on a row that fails to decode, or that belongs to another prefix, is not modelled: every scan sees exactly its own prefix.
- The serializer and nanopb messages are not modelled. A target row is either a decoded `QueryData` or `MalformedTarget`. The metadata row is a parsed record or `UnparsableGlobal`, and its encoded version is a `SnapshotVersion` or `MalformedVersion`.
- Fixed integer widths of target ids, sequence numbers and the target count are not modelled, so no wrap-around is represented. `int` is unbounded here.
- Orphans.EnumerateOrphanedDocuments: a document->target key that fails to decode is fatal in the original, through `HARD_ASSERT` (leveldb_query_cache.cc:337). Keys here are decoded tuples, so that failure cannot arise and has no `Failure` constructor.
- Membership.Contains: the original scans the prefix of the document's path, which can also cover rows of longer paths, and then compares the document key. Because keys are tuples here, only the document's own rows are visited, so the result is the same.
- The `live_targets` argument of RemoveTargets is a map from target id to target; only its key set is consulted, so it is modelled as a set of ids.
- Targets.RemoveTargets: the original's scan iterates over the transaction while deleting through it (leveldb_query_cache.cc:209-216). The model sweeps a snapshot of the target rows taken at the start. The two agree when every row holds the target of its own id, as `Save` writes it (leveldb_query_cache.cc:363-366): each removal then deletes the row being visited. On other stores, removing the target decoded at one key deletes the row of a different id. The snapshot may later visit that deleted row, remove it again and count it twice. `TargetProperties.RemoveTargetsRemovesExactlySelected` assumes a consistent cache, whose rows hold their own ids.
- Targets.EnumerateTargets: in the original the callback has already been called for every earlier row when an undecodable row aborts the scan (leveldb_query_cache.cc:199-200, 393-395). The model's `Fatal` outcome does not carry those earlier reports.
- The reference delegate's policy is not part of this model. That includes writing the sentinel rows this cache scans, and what it does with AddReference/RemoveReference. The calls are recorded as an event log.
- The invariant that every referenced document has a sentinel row is maintained by the reference delegate, outside the target cache, so Orphans.OrphanScanExact takes it as a precondition.
- Orphans.EnumerateOrphanedDocuments relies on every document's rows in the document->target family starting with that document's sentinel row. The comment at leveldb_query_cache.cc:339-340 takes a sentinel to mean a new document key, so whatever is pending must have no target. The comment at :350-351 takes a membership row to belong to the pending document. A pending report is therefore flushed only at the next sentinel row, and any membership row clears it. When some document has membership rows but no sentinel, those rows can clear another document's pending report. Orphans.MissedOrphanWithoutSentinel exhibits such an input, on which an orphaned document goes unreported.
- GetLastRemoteSnapshotVersion: a plain accessor, with no contract beyond what SetLastRemoteSnapshotVersion and Start state about it.
- The constructor's non-null checks on the database and serializer, and the `HARD_FAIL` message texts, are not modelled.
- TargetProperties.RemoveTargetKeepsConsistent: RemoveTarget decrements the count unconditionally, even when no row exists for the id. The invariant is therefore proved only for removing a target that is stored under the same canonical id.
- TargetProperties.UpdateTargetKeepsConsistent: UpdateTarget writes no query->target row. The invariant is therefore proved only for an update that keeps the target's canonical id.
