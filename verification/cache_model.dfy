/**
  The persisted state of the target cache: the row families of the ordered
  key space, the singleton metadata row, and the cache object that holds an
  in-memory copy of that metadata between calls.
 */
module CacheModel {
  import opened Ordering

  type TargetId = int
  type SequenceNumber = int

  /** A document key, compared in the order the key codec lays it out. */
  type DocumentKey = string

  datatype Option<T> = None | Some(value: T)

  datatype SnapshotVersion = SnapshotVersion(seconds: int, nanos: int)

  /**
    A query as the cache sees it: an opaque value with a canonical id and
    structural equality. Distinct queries may share a canonical id.
   */
  datatype Query = Query(canonicalId: string, definition: string)

  /** A target: a registered query with its bookkeeping. */
  datatype QueryData = QueryData(
    targetId: TargetId,
    query: Query,
    sequenceNumber: SequenceNumber,
    snapshotVersion: SnapshotVersion,
    resumeToken: seq<int>)

  /** The payload of a target row, as the serializer does or does not decode it. */
  datatype TargetRow = EncodedTarget(data: QueryData) | MalformedTarget

  /** The snapshot-version field of the metadata row, before decoding. */
  datatype StoredVersion = EncodedVersion(version: SnapshotVersion) | MalformedVersion

  /** The singleton metadata record. */
  datatype TargetGlobal = TargetGlobal(
    highestTargetId: TargetId,
    highestListenSequenceNumber: SequenceNumber,
    targetCount: int,
    lastRemoteSnapshotVersion: StoredVersion)

  /** The metadata row as read back: parsed, or bytes that do not parse. */
  datatype GlobalRow = ParsedGlobal(global: TargetGlobal) | UnparsableGlobal

  /**
    The key space. Each family is a set of keys (or a map from key to payload):
      targets          target_id -> encoded target
      queryTargets     (canonical_id, target_id), empty payload
      targetDocuments  (target_id, document), empty payload
      documentTargets  (document, target_id), empty payload
      sentinels        (document, sentinel) -> sequence number
      global           the metadata row, when present
   */
  datatype Store = Store(
    targets: map<TargetId, TargetRow>,
    queryTargets: set<(string, TargetId)>,
    targetDocuments: set<(TargetId, DocumentKey)>,
    documentTargets: set<(DocumentKey, TargetId)>,
    sentinels: map<DocumentKey, SequenceNumber>,
    global: Option<GlobalRow>)

  /** A notification sent to the reference delegate. */
  datatype ReferenceEvent = AddReference(key: DocumentKey) | RemoveReference(key: DocumentKey)

  /** The unrecoverable failures of the cache. */
  datatype Failure =
    | MissingMetadata
    | UnreadableMetadata
    | UndecodableVersion
    | UndecodableTarget(targetId: TargetId)
    | DanglingReference(canonicalId: string, targetId: TargetId)

  /** A result, or a fatal failure that ends the process. */
  datatype Outcome<T> = Ok(value: T) | Fatal(failure: Failure)

  /**
    The cache object: the store under the current transaction, the in-memory
    metadata, the decoded last remote snapshot version, and every
    notification sent to the reference delegate so far.
   */
  datatype Cache = Cache(
    store: Store,
    metadata: TargetGlobal,
    lastRemoteSnapshotVersion: SnapshotVersion,
    references: seq<ReferenceEvent>)

  /** One row of the document->target family, in its decoded form. */
  datatype DocumentTargetRow =
    | Sentinel(doc: DocumentKey, sequenceNumber: SequenceNumber)
    | Membership(doc: DocumentKey, targetId: TargetId)

  /** Documents with a target->document row for `t`. */
  function DocumentsOf(s: Store, t: TargetId): set<DocumentKey> {
    set p | p in s.targetDocuments && p.0 == t :: p.1
  }

  /** Targets with a document->target row for `d`. */
  function TargetsOf(s: Store, d: DocumentKey): set<TargetId> {
    set p | p in s.documentTargets && p.0 == d :: p.1
  }

  /** Target ids with a query->target row under canonical id `cid`. */
  function Candidates(s: Store, cid: string): set<TargetId> {
    set p | p in s.queryTargets && p.0 == cid :: p.1
  }

  /** Every document with a row in the document->target family. */
  function IndexedDocuments(s: Store): set<DocumentKey> {
    s.sentinels.Keys + set p | p in s.documentTargets :: p.0
  }

  function MembershipRows(d: DocumentKey, ts: seq<TargetId>): (r: seq<DocumentTargetRow>)
    ensures |r| == |ts|
    ensures forall i :: 0 <= i < |r| ==> r[i] == Membership(d, ts[i])
  {
    if |ts| == 0 then [] else [Membership(d, ts[0])] + MembershipRows(d, ts[1..])
  }

  /**
    The rows sharing the prefix of document `d`, in key order: the sentinel
    (which sorts first) and then one membership row per target, by target id.
   */
  function DocumentGroup(s: Store, d: DocumentKey): seq<DocumentTargetRow> {
    (if d in s.sentinels then [Sentinel(d, s.sentinels[d])] else []) + MembershipsOf(s, d)
  }

  /** The membership rows of document `d`, one per target, by ascending target id. */
  function MembershipsOf(s: Store, d: DocumentKey): (r: seq<DocumentTargetRow>)
    ensures |r| == |TargetsOf(s, d)|
    ensures forall i :: 0 <= i < |r| ==> r[i].Membership? && r[i].doc == d
  {
    IntLtIsStrictTotalOrder();
    MembershipRows(d, SortedBy(TargetsOf(s, d), IntLt))
  }

  /** The shape of a document's group: optional sentinel first, then its memberships by ascending target id. */
  lemma DocumentGroupShape(s: Store, d: DocumentKey)
    requires StrictTotalOrder(IntLt)
    ensures var g := DocumentGroup(s, d);
      var ts := SortedBy(TargetsOf(s, d), IntLt);
      var off := if d in s.sentinels then 1 else 0;
      && |g| == off + |ts|
      && (d in s.sentinels ==> g[0] == Sentinel(d, s.sentinels[d]))
      && (forall i :: 0 <= i < |ts| ==> g[off + i] == Membership(d, ts[i]))
  {
    var ms := MembershipsOf(s, d);
    assert ms == MembershipRows(d, SortedBy(TargetsOf(s, d), IntLt));
    var head := if d in s.sentinels then [Sentinel(d, s.sentinels[d])] else [];
    assert DocumentGroup(s, d) == head + ms;
  }

  function GroupsOf(s: Store, docs: seq<DocumentKey>): seq<DocumentTargetRow> {
    if |docs| == 0 then [] else DocumentGroup(s, docs[0]) + GroupsOf(s, docs[1..])
  }

  /** The whole document->target family in key order. */
  function DocumentTargetRows(s: Store): seq<DocumentTargetRow> {
    StrLtIsStrictTotalOrder();
    GroupsOf(s, SortedBy(IndexedDocuments(s), StrLt))
  }

  /** Every target->document row has its document->target inverse, and conversely. */
  predicate IndexSymmetric(s: Store) {
    && (forall p :: p in s.targetDocuments ==> (p.1, p.0) in s.documentTargets)
    && (forall p :: p in s.documentTargets ==> (p.1, p.0) in s.targetDocuments)
  }

  /** Every decodable target row holds the target of its own id, as `Save` writes it. */
  predicate RowsHoldOwnIds(s: Store) {
    forall t :: t in s.targets && s.targets[t].EncodedTarget? ==> s.targets[t].data.targetId == t
  }

  /**
    Every target row decodes to the target of its own id and has its one
    query->target row; every query->target row resolves to a target row
    whose query has that canonical id.
   */
  predicate QueryIndexExact(s: Store) {
    && (forall t :: t in s.targets ==>
          && s.targets[t].EncodedTarget?
          && s.targets[t].data.targetId == t
          && (s.targets[t].data.query.canonicalId, t) in s.queryTargets)
    && (forall p :: p in s.queryTargets ==>
          && p.1 in s.targets
          && s.targets[p.1].EncodedTarget?
          && s.targets[p.1].data.query.canonicalId == p.0)
  }

  /** The metadata's watermarks cover every stored target. */
  predicate WatermarksCover(s: Store, m: TargetGlobal) {
    forall t :: t in s.targets ==>
      && t <= m.highestTargetId
      && (s.targets[t].EncodedTarget? ==>
            s.targets[t].data.sequenceNumber <= m.highestListenSequenceNumber)
  }

  /** The invariants of a store whose metadata is `m`. */
  predicate StoreConsistent(s: Store, m: TargetGlobal) {
    && IndexSymmetric(s)
    && QueryIndexExact(s)
    && WatermarksCover(s, m)
    && m.targetCount == |s.targets|
  }

  /** The cache's in-memory state agrees with what is persisted. */
  predicate MetadataSynced(c: Cache) {
    && c.store.global == Some(ParsedGlobal(c.metadata))
    && c.metadata.lastRemoteSnapshotVersion == EncodedVersion(c.lastRemoteSnapshotVersion)
  }

  predicate Consistent(c: Cache) {
    MetadataSynced(c) && StoreConsistent(c.store, c.metadata)
  }
}
