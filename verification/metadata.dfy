/**
  The target metadata record: reading it at start, raising its watermarks,
  persisting it, and the last remote snapshot version it carries.
 */
module Metadata {
  import opened CacheModel

  /** Persist the in-memory metadata as the metadata row. */
  function SaveMetadata(c: Cache): (r: Cache)
    ensures r.store.global == Some(ParsedGlobal(c.metadata))
    ensures r.store.(global := c.store.global) == c.store
    ensures r.metadata == c.metadata && r.references == c.references
    ensures r.lastRemoteSnapshotVersion == c.lastRemoteSnapshotVersion
  {
    c.(store := c.store.(global := Some(ParsedGlobal(c.metadata))))
  }

  /**
    Raise the two watermarks to cover `qd`; report whether either rose.
    Each new watermark is the least value at or above both the old one and
    the target's field; the count and snapshot version are untouched.
   */
  function UpdateMetadata(m: TargetGlobal, qd: QueryData): (r: (bool, TargetGlobal))
    ensures r.1.highestTargetId >= m.highestTargetId && r.1.highestTargetId >= qd.targetId
    ensures r.1.highestTargetId in {m.highestTargetId, qd.targetId}
    ensures r.1.highestListenSequenceNumber >= m.highestListenSequenceNumber
    ensures r.1.highestListenSequenceNumber >= qd.sequenceNumber
    ensures r.1.highestListenSequenceNumber in {m.highestListenSequenceNumber, qd.sequenceNumber}
    ensures r.1.targetCount == m.targetCount
    ensures r.1.lastRemoteSnapshotVersion == m.lastRemoteSnapshotVersion
    ensures r.0 <==> (r.1.highestTargetId > m.highestTargetId
                      || r.1.highestListenSequenceNumber > m.highestListenSequenceNumber)
    ensures !r.0 <==> r.1 == m
  {
    var m1 := if qd.targetId > m.highestTargetId then m.(highestTargetId := qd.targetId) else m;
    var m2 := if qd.sequenceNumber > m1.highestListenSequenceNumber
              then m1.(highestListenSequenceNumber := qd.sequenceNumber) else m1;
    (qd.targetId > m.highestTargetId || qd.sequenceNumber > m.highestListenSequenceNumber, m2)
  }

  /**
    Read the metadata row: absent is an ordinary negative result, a row that
    does not parse is fatal.
   */
  function TryReadMetadata(s: Store): (r: Outcome<Option<TargetGlobal>>)
    ensures r == Ok(None) <==> s.global == None
    ensures r == Fatal(UnreadableMetadata) <==> s.global == Some(UnparsableGlobal)
    ensures forall g :: r == Ok(Some(g)) <==> s.global == Some(ParsedGlobal(g))
  {
    match s.global
    case None => Ok(None)
    case Some(UnparsableGlobal) => Fatal(UnreadableMetadata)
    case Some(ParsedGlobal(g)) => Ok(Some(g))
  }

  /** Read the metadata row, which must exist. */
  function ReadMetadata(s: Store): (r: Outcome<TargetGlobal>)
    ensures s.global == None ==> r == Fatal(MissingMetadata)
    ensures s.global == Some(UnparsableGlobal) ==> r == Fatal(UnreadableMetadata)
    ensures forall g :: r == Ok(g) <==> s.global == Some(ParsedGlobal(g))
  {
    match TryReadMetadata(s)
    case Fatal(f) => Fatal(f)
    case Ok(None) => Fatal(MissingMetadata)
    case Ok(Some(g)) => Ok(g)
  }

  /**
    Open the cache over a store: load the metadata and decode its snapshot
    version. Either step failing is fatal.
   */
  function Start(s: Store): (r: Outcome<Cache>)
    ensures r.Ok? <==> (exists g :: s.global == Some(ParsedGlobal(g))
                                     && g.lastRemoteSnapshotVersion.EncodedVersion?)
    ensures s.global == None ==> r == Fatal(MissingMetadata)
    ensures s.global == Some(UnparsableGlobal) ==> r == Fatal(UnreadableMetadata)
    ensures (exists g :: s.global == Some(ParsedGlobal(g))
                         && g.lastRemoteSnapshotVersion == MalformedVersion)
            ==> r == Fatal(UndecodableVersion)
    ensures r.Ok? ==> MetadataSynced(r.value) && r.value.store == s && r.value.references == []
  {
    match ReadMetadata(s)
    case Fatal(f) => Fatal(f)
    case Ok(g) =>
      match g.lastRemoteSnapshotVersion
      case MalformedVersion => Fatal(UndecodableVersion)
      case EncodedVersion(v) => Ok(Cache(s, g, v, []))
  }

  function GetLastRemoteSnapshotVersion(c: Cache): SnapshotVersion {
    c.lastRemoteSnapshotVersion
  }

  /** Replace the watermark in memory and in the persisted metadata. */
  function SetLastRemoteSnapshotVersion(c: Cache, v: SnapshotVersion): (r: Cache)
    ensures GetLastRemoteSnapshotVersion(r) == v
    ensures r.metadata == c.metadata.(lastRemoteSnapshotVersion := EncodedVersion(v))
    ensures r.store.global == Some(ParsedGlobal(r.metadata))
    ensures r.store.(global := c.store.global) == c.store
    ensures r.references == c.references
  {
    var c1 := c.(lastRemoteSnapshotVersion := v,
                 metadata := c.metadata.(lastRemoteSnapshotVersion := EncodedVersion(v)));
    SaveMetadata(c1)
  }

  /**
    A set watermark survives a restart: starting over the persisted store
    yields a cache whose watermark and metadata are the ones just written.
   */
  lemma SnapshotVersionSurvivesRestart(c: Cache, v: SnapshotVersion)
    ensures Start(SetLastRemoteSnapshotVersion(c, v).store).Ok?
    ensures Start(SetLastRemoteSnapshotVersion(c, v).store).value.lastRemoteSnapshotVersion == v
    ensures Start(SetLastRemoteSnapshotVersion(c, v).store).value.metadata
            == SetLastRemoteSnapshotVersion(c, v).metadata
  {
  }

  /** A synced cache's store restarts into the same cache, minus the delegate's history. */
  lemma RestartRestoresCache(c: Cache)
    requires MetadataSynced(c)
    ensures Start(c.store) == Ok(c.(references := []))
  {
  }
}
