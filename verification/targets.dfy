/**
  Targets: their rows, the query->target index, the target count, and the
  scans over the target family.
 */
module Targets {
  import opened Ordering
  import opened CacheModel
  import opened Metadata
  import opened Membership

  /** Write the target row for `qd`. */
  function Save(s: Store, qd: QueryData): (r: Store)
    ensures r.targets == s.targets[qd.targetId := EncodedTarget(qd)]
    ensures r.(targets := s.targets) == s
  {
    s.(targets := s.targets[qd.targetId := EncodedTarget(qd)])
  }

  /**
    Register a target: its row and its query->target index row are present,
    the count goes up by one, the watermarks cover it, and the metadata is
    persisted. Membership rows, sentinels and the delegate are untouched.
   */
  function AddTarget(c: Cache, qd: QueryData): (r: Cache)
    ensures qd.targetId in r.store.targets && r.store.targets[qd.targetId] == EncodedTarget(qd)
    ensures forall t :: t != qd.targetId ==>
              (t in r.store.targets <==> t in c.store.targets)
              && (t in c.store.targets ==> r.store.targets[t] == c.store.targets[t])
    ensures forall p :: p in r.store.queryTargets <==>
              p in c.store.queryTargets || p == (qd.query.canonicalId, qd.targetId)
    ensures r.metadata.targetCount == c.metadata.targetCount + 1
    ensures r.metadata.highestTargetId >= c.metadata.highestTargetId
    ensures r.metadata.highestTargetId >= qd.targetId
    ensures r.metadata.highestTargetId in {c.metadata.highestTargetId, qd.targetId}
    ensures r.metadata.highestListenSequenceNumber >= c.metadata.highestListenSequenceNumber
    ensures r.metadata.highestListenSequenceNumber >= qd.sequenceNumber
    ensures r.metadata.highestListenSequenceNumber in {c.metadata.highestListenSequenceNumber, qd.sequenceNumber}
    ensures r.metadata.lastRemoteSnapshotVersion == c.metadata.lastRemoteSnapshotVersion
    ensures r.store.global == Some(ParsedGlobal(r.metadata))
    ensures r.store.targetDocuments == c.store.targetDocuments
    ensures r.store.documentTargets == c.store.documentTargets
    ensures r.store.sentinels == c.store.sentinels
    ensures r.references == c.references && r.lastRemoteSnapshotVersion == c.lastRemoteSnapshotVersion
  {
    var s1 := Save(c.store, qd);
    var s2 := s1.(queryTargets := s1.queryTargets + {(qd.query.canonicalId, qd.targetId)});
    var m1 := c.metadata.(targetCount := c.metadata.targetCount + 1);
    var (_, m2) := UpdateMetadata(m1, qd);
    SaveMetadata(c.(store := s2, metadata := m2))
  }

  /**
    Rewrite a target's row. The watermarks are raised to cover it, and the
    metadata row is rewritten only when one of them actually rose.
   */
  function UpdateTarget(c: Cache, qd: QueryData): (r: Cache)
    ensures qd.targetId in r.store.targets && r.store.targets[qd.targetId] == EncodedTarget(qd)
    ensures forall t :: t != qd.targetId ==>
              (t in r.store.targets <==> t in c.store.targets)
              && (t in c.store.targets ==> r.store.targets[t] == c.store.targets[t])
    ensures r.metadata.highestTargetId >= c.metadata.highestTargetId
    ensures r.metadata.highestTargetId >= qd.targetId
    ensures r.metadata.highestTargetId in {c.metadata.highestTargetId, qd.targetId}
    ensures r.metadata.highestListenSequenceNumber >= c.metadata.highestListenSequenceNumber
    ensures r.metadata.highestListenSequenceNumber >= qd.sequenceNumber
    ensures r.metadata.highestListenSequenceNumber in {c.metadata.highestListenSequenceNumber, qd.sequenceNumber}
    ensures r.metadata.targetCount == c.metadata.targetCount
    ensures r.metadata.lastRemoteSnapshotVersion == c.metadata.lastRemoteSnapshotVersion
    ensures (qd.targetId > c.metadata.highestTargetId
             || qd.sequenceNumber > c.metadata.highestListenSequenceNumber)
            ==> r.store.global == Some(ParsedGlobal(r.metadata))
    ensures !(qd.targetId > c.metadata.highestTargetId
              || qd.sequenceNumber > c.metadata.highestListenSequenceNumber)
            ==> r.store.global == c.store.global && r.metadata == c.metadata
    ensures r.store.queryTargets == c.store.queryTargets
    ensures r.store.targetDocuments == c.store.targetDocuments
    ensures r.store.documentTargets == c.store.documentTargets
    ensures r.store.sentinels == c.store.sentinels
    ensures r.references == c.references && r.lastRemoteSnapshotVersion == c.lastRemoteSnapshotVersion
  {
    var c1 := c.(store := Save(c.store, qd));
    var (updated, m) := UpdateMetadata(c.metadata, qd);
    if updated then SaveMetadata(c1.(metadata := m)) else c1
  }

  /**
    Unregister a target: its membership rows (both directions), its row and
    its query->target row are gone, the count goes down by one, and the
    metadata is persisted. Rows of other targets are untouched.
   */
  function RemoveTarget(c: Cache, qd: QueryData): (r: Cache)
    ensures r.store.targets == c.store.targets - {qd.targetId}
    ensures forall p :: p in r.store.queryTargets <==>
              p in c.store.queryTargets && p != (qd.query.canonicalId, qd.targetId)
    ensures forall p :: p in r.store.targetDocuments <==> p in c.store.targetDocuments && p.0 != qd.targetId
    ensures forall p :: p in r.store.documentTargets <==>
              p in c.store.documentTargets && !(p.1 == qd.targetId && (p.1, p.0) in c.store.targetDocuments)
    ensures IndexSymmetric(c.store) ==>
              IndexSymmetric(r.store) && forall p :: p in r.store.documentTargets ==> p.1 != qd.targetId
    ensures r.metadata == c.metadata.(targetCount := c.metadata.targetCount - 1)
    ensures r.store.global == Some(ParsedGlobal(r.metadata))
    ensures r.store.sentinels == c.store.sentinels
    ensures r.references == c.references && r.lastRemoteSnapshotVersion == c.lastRemoteSnapshotVersion
  {
    var t := qd.targetId;
    var s1 := RemoveAllKeysForTarget(c.store, t);
    var s2 := s1.(targets := s1.targets - {t});
    var s3 := s2.(queryTargets := s2.queryTargets - {(qd.query.canonicalId, t)});
    var m := c.metadata.(targetCount := c.metadata.targetCount - 1);
    SaveMetadata(c.(store := s3, metadata := m))
  }

  /** The target row for `t` exists and decodes to a target whose query is not `q`. */
  predicate PassesOver(s: Store, t: TargetId, q: Query) {
    t in s.targets && s.targets[t].EncodedTarget? && s.targets[t].data.query != q
  }

  /** The target row for `t` exists and decodes to a target whose query is `q`. */
  predicate MatchesAt(s: Store, t: TargetId, q: Query) {
    t in s.targets && s.targets[t].EncodedTarget? && s.targets[t].data.query == q
  }

  /**
    The failure for a candidate that neither matches nor is passed over: a
    missing row is a dangling reference, any other row is undecodable.
   */
  function ProbeFailure(s: Store, q: Query, t: TargetId): Outcome<Option<QueryData>> {
    if t !in s.targets then Fatal(DanglingReference(q.canonicalId, t)) else Fatal(UndecodableTarget(t))
  }

  /**
    The merge-join of GetTarget over the candidate ids in scan order: seek
    each candidate's target row and return the first whose query equals `q`.
    A candidate without a row is a dangling reference, and one whose row does
    not decode is undecodable; both are fatal.
   */
  function Probe(s: Store, q: Query, ids: seq<TargetId>): (r: Outcome<Option<QueryData>>)
    ensures r == Ok(None) <==> forall i :: 0 <= i < |ids| ==> PassesOver(s, ids[i], q)
    ensures r.Ok? && r.value.Some? ==>
              exists i :: 0 <= i < |ids| && MatchesAt(s, ids[i], q)
                          && s.targets[ids[i]].data == r.value.value
                          && forall j :: 0 <= j < i ==> PassesOver(s, ids[j], q)
    ensures r.Fatal? ==>
              exists i :: 0 <= i < |ids| && !PassesOver(s, ids[i], q) && !MatchesAt(s, ids[i], q)
                          && (forall j :: 0 <= j < i ==> PassesOver(s, ids[j], q))
                          && r == ProbeFailure(s, q, ids[i])
    decreases |ids|
  {
    if |ids| == 0 then Ok(None)
    else if ids[0] !in s.targets then Fatal(DanglingReference(q.canonicalId, ids[0]))
    else match s.targets[ids[0]]
      case MalformedTarget => Fatal(UndecodableTarget(ids[0]))
      case EncodedTarget(x) =>
        if x.query == q then Ok(Some(x))
        else
          var r := Probe(s, q, ids[1..]);
          assert forall j :: 1 <= j < |ids| ==> ids[j] == ids[1..][j - 1];
          assert r.Ok? && r.value.Some? ==>
            exists i :: 1 <= i < |ids| && MatchesAt(s, ids[i], q)
                        && s.targets[ids[i]].data == r.value.value
                        && forall j :: 0 <= j < i ==> PassesOver(s, ids[j], q);
          assert r.Fatal? ==>
            exists i :: 1 <= i < |ids| && !PassesOver(s, ids[i], q) && !MatchesAt(s, ids[i], q)
                        && (forall j :: 0 <= j < i ==> PassesOver(s, ids[j], q))
                        && r == ProbeFailure(s, q, ids[i]);
          r
  }

  lemma AscendingBelow(ids: seq<TargetId>, i: int, j: int)
    requires forall a, b :: 0 <= a < b < |ids| ==> ids[a] < ids[b]
    requires 0 <= i < |ids| && 0 <= j < |ids| && ids[j] < ids[i]
    ensures j < i
  {
  }

  /** Probe over an ascending enumeration of a candidate set, stated over the set. */
  lemma ProbeOverCandidates(s: Store, q: Query, ids: seq<TargetId>, cands: set<TargetId>)
    requires forall x :: x in ids <==> x in cands
    requires forall i, j :: 0 <= i < j < |ids| ==> ids[i] < ids[j]
    ensures Probe(s, q, ids).Ok? && Probe(s, q, ids).value.Some? ==>
              exists t :: t in cands && MatchesAt(s, t, q)
                          && s.targets[t].data == Probe(s, q, ids).value.value
                          && forall u :: u in cands && u < t ==> PassesOver(s, u, q)
    ensures Probe(s, q, ids) == Ok(None) <==> forall t :: t in cands ==> PassesOver(s, t, q)
    ensures Probe(s, q, ids).Fatal? ==>
              exists t :: t in cands && !PassesOver(s, t, q) && !MatchesAt(s, t, q)
                          && Probe(s, q, ids) == ProbeFailure(s, q, t)
                          && forall u :: u in cands && u < t ==> PassesOver(s, u, q)
  {
    var r := Probe(s, q, ids);
    if r.Fatal? {
      var i :| 0 <= i < |ids| && !PassesOver(s, ids[i], q) && !MatchesAt(s, ids[i], q)
               && (forall j :: 0 <= j < i ==> PassesOver(s, ids[j], q))
               && r == ProbeFailure(s, q, ids[i]);
      forall u | u in cands && u < ids[i]
        ensures PassesOver(s, u, q)
      {
        var j :| 0 <= j < |ids| && ids[j] == u;
        AscendingBelow(ids, i, j);
      }
      assert ids[i] in cands;
    }
    if r.Ok? && r.value.Some? {
      var i :| 0 <= i < |ids| && MatchesAt(s, ids[i], q)
               && s.targets[ids[i]].data == r.value.value
               && forall j :: 0 <= j < i ==> PassesOver(s, ids[j], q);
      forall u | u in cands && u < ids[i]
        ensures PassesOver(s, u, q)
      {
        var j :| 0 <= j < |ids| && ids[j] == u;
        AscendingBelow(ids, i, j);
      }
    }
    if r == Ok(None) {
      forall t | t in cands
        ensures PassesOver(s, t, q)
      {
        var j :| 0 <= j < |ids| && ids[j] == t;
      }
    }
  }

  /**
    Look a query up by canonical id, then by equality: scan the
    query->target rows of `q`'s canonical id in ascending target id and
    return the first target whose query equals `q`.
   */
  function GetTarget(c: Cache, q: Query): (r: Outcome<Option<QueryData>>)
    ensures r.Ok? && r.value.Some? ==>
              exists t :: (q.canonicalId, t) in c.store.queryTargets && MatchesAt(c.store, t, q)
                          && c.store.targets[t].data == r.value.value
                          && forall u :: (q.canonicalId, u) in c.store.queryTargets && u < t ==>
                               PassesOver(c.store, u, q)
    ensures r == Ok(None) <==>
              forall t :: (q.canonicalId, t) in c.store.queryTargets ==> PassesOver(c.store, t, q)
    ensures r.Ok? && r.value.Some? ==> r.value.value.query == q
    ensures r.Fatal? ==>
              exists t :: (q.canonicalId, t) in c.store.queryTargets
                          && !PassesOver(c.store, t, q) && !MatchesAt(c.store, t, q)
                          && r == ProbeFailure(c.store, q, t)
                          && forall u :: (q.canonicalId, u) in c.store.queryTargets && u < t ==>
                               PassesOver(c.store, u, q)
  {
    IntLtIsStrictTotalOrder();
    var cands := Candidates(c.store, q.canonicalId);
    var ids := SortedBy(cands, IntLt);
    assert forall t :: (q.canonicalId, t) in c.store.queryTargets <==> t in cands;
    ProbeOverCandidates(c.store, q, ids, cands);
    Probe(c.store, q, ids)
  }

  /** Decode the target rows of `ids` in order; the first undecodable row is fatal. */
  function DecodeTargets(s: Store, ids: seq<TargetId>): (r: Outcome<seq<QueryData>>)
    requires forall i :: 0 <= i < |ids| ==> ids[i] in s.targets
    ensures r.Ok? <==> forall i :: 0 <= i < |ids| ==> s.targets[ids[i]].EncodedTarget?
    ensures r.Ok? ==> |r.value| == |ids|
                      && forall i :: 0 <= i < |ids| ==> s.targets[ids[i]] == EncodedTarget(r.value[i])
    ensures r.Fatal? ==> exists i :: 0 <= i < |ids| && !s.targets[ids[i]].EncodedTarget?
                                     && (forall j :: 0 <= j < i ==> s.targets[ids[j]].EncodedTarget?)
                                     && r == Fatal(UndecodableTarget(ids[i]))
    decreases |ids|
  {
    if |ids| == 0 then Ok([])
    else match s.targets[ids[0]]
      case MalformedTarget => Fatal(UndecodableTarget(ids[0]))
      case EncodedTarget(x) =>
        match DecodeTargets(s, ids[1..])
        case Fatal(f) =>
          assert forall j :: 1 <= j < |ids| ==> ids[j] == ids[1..][j - 1];
          Fatal(f)
        case Ok(xs) =>
          assert forall j :: 1 <= j < |ids| ==> ids[j] == ids[1..][j - 1];
          Ok([x] + xs)
  }

  /** Decoding an ascending enumeration of the target family, stated over the family. */
  lemma DecodeAllTargets(s: Store, ids: seq<TargetId>)
    requires forall i :: 0 <= i < |ids| ==> ids[i] in s.targets
    requires forall x :: x in ids <==> x in s.targets
    requires |ids| == |s.targets|
    ensures DecodeTargets(s, ids).Ok? <==> forall t :: t in s.targets ==> s.targets[t].EncodedTarget?
    ensures DecodeTargets(s, ids).Ok? ==>
              forall x :: x in DecodeTargets(s, ids).value <==>
                exists t :: t in s.targets && s.targets[t] == EncodedTarget(x)
  {
    var r := DecodeTargets(s, ids);
    if r.Ok? {
      forall x | x in r.value
        ensures exists t :: t in s.targets && s.targets[t] == EncodedTarget(x)
      {
        var i :| 0 <= i < |r.value| && r.value[i] == x;
        var t := ids[i];
        assert t in s.targets && s.targets[t] == EncodedTarget(x);
      }
      forall t | t in s.targets
        ensures s.targets[t].EncodedTarget?
      {
        var i :| 0 <= i < |ids| && ids[i] == t;
      }
      forall x | exists t :: t in s.targets && s.targets[t] == EncodedTarget(x)
        ensures x in r.value
      {
        var t :| t in s.targets && s.targets[t] == EncodedTarget(x);
        var i :| 0 <= i < |ids| && ids[i] == t;
        assert r.value[i] == x;
      }
    } else {
      var i :| 0 <= i < |ids| && !s.targets[ids[i]].EncodedTarget?;
      var t := ids[i];
      assert t in s.targets && !s.targets[t].EncodedTarget?;
    }
  }

  /**
    Every target, by ascending key: the callback's arguments in the order it
    receives them, one per target row. Any undecodable target row is fatal.
   */
  function EnumerateTargets(c: Cache): (r: Outcome<seq<QueryData>>)
    ensures r.Ok? <==> forall t :: t in c.store.targets ==> c.store.targets[t].EncodedTarget?
    ensures r.Ok? ==> |r.value| == |c.store.targets|
    ensures r.Ok? ==> forall x :: x in r.value <==> exists t :: t in c.store.targets && c.store.targets[t] == EncodedTarget(x)
    ensures r.Ok? ==> exists ids :: RowsInKeyOrder(c.store, ids, r.value)
    ensures r.Ok? && RowsHoldOwnIds(c.store) ==>
              forall i, j :: 0 <= i < j < |r.value| ==> r.value[i].targetId < r.value[j].targetId
  {
    IntLtIsStrictTotalOrder();
    var ids := SortedBy(c.store.targets.Keys, IntLt);
    DecodeTargetFamily(c.store, ids);
    var r := DecodeTargets(c.store, ids);
    assert r.Ok? ==> RowsInKeyOrder(c.store, ids, r.value);
    r
  }

  /** Decoding an ascending enumeration of the whole target family, stated over the family. */
  lemma DecodeTargetFamily(s: Store, ids: seq<TargetId>)
    requires forall x :: x in ids <==> x in s.targets.Keys
    requires |ids| == |s.targets.Keys|
    requires forall i, j :: 0 <= i < j < |ids| ==> IntLt(ids[i], ids[j])
    ensures forall i :: 0 <= i < |ids| ==> ids[i] in s.targets
    ensures var r := DecodeTargets(s, ids);
      && (r.Ok? <==> forall t :: t in s.targets ==> s.targets[t].EncodedTarget?)
      && (r.Ok? ==> |r.value| == |s.targets|)
      && (r.Ok? ==> forall x :: x in r.value <==> exists t :: t in s.targets && s.targets[t] == EncodedTarget(x))
      && (r.Ok? ==> RowsInKeyOrder(s, ids, r.value))
      && (r.Ok? && RowsHoldOwnIds(s) ==>
            forall i, j :: 0 <= i < j < |r.value| ==> r.value[i].targetId < r.value[j].targetId)
  {
    forall i | 0 <= i < |ids|
      ensures ids[i] in s.targets
    {
      var t := ids[i];
      assert t in ids;
    }
    DecodeAllTargets(s, ids);
    DecodedInIdOrder(s, ids);
  }

  /**
    `xs` reports the target rows keyed by `ids`, one report per row: `ids`
    lists every key of the target family once, in ascending order, and the
    i-th report is the target held by the row at the i-th key.
   */
  predicate RowsInKeyOrder(s: Store, ids: seq<TargetId>, xs: seq<QueryData>) {
    && |ids| == |xs|
    && (forall i, j :: 0 <= i < j < |ids| ==> ids[i] < ids[j])
    && (forall t :: t in s.targets ==> t in ids)
    && (forall i :: 0 <= i < |ids| ==> ids[i] in s.targets && s.targets[ids[i]] == EncodedTarget(xs[i]))
  }

  /** Decoding ascending ids of rows that hold their own ids yields targets in ascending id. */
  lemma DecodedInIdOrder(s: Store, ids: seq<TargetId>)
    requires forall i :: 0 <= i < |ids| ==> ids[i] in s.targets
    requires forall i, j :: 0 <= i < j < |ids| ==> IntLt(ids[i], ids[j])
    ensures var r := DecodeTargets(s, ids);
            r.Ok? && RowsHoldOwnIds(s) ==>
              forall i, j :: 0 <= i < j < |r.value| ==> r.value[i].targetId < r.value[j].targetId
  {
    var r := DecodeTargets(s, ids);
    if r.Ok? {
      forall i, j | 0 <= i < j < |r.value|
        ensures RowsHoldOwnIds(s) ==> r.value[i].targetId < r.value[j].targetId
      {
        assert s.targets[ids[i]] == EncodedTarget(r.value[i]);
        assert s.targets[ids[j]] == EncodedTarget(r.value[j]);
        assert IntLt(ids[i], ids[j]);
      }
    }
  }

  /** The sweep's selection: at or below the bound and not live. */
  predicate Doomed(qd: QueryData, upperBound: SequenceNumber, live: set<TargetId>) {
    qd.sequenceNumber <= upperBound && qd.targetId !in live
  }

  /**
    The GC sweep over the target rows `ids` of the snapshot `snap`, in scan
    order: each doomed target is removed and counted.
   */
  function Sweep(c: Cache, snap: map<TargetId, TargetRow>, ids: seq<TargetId>,
                 upperBound: SequenceNumber, live: set<TargetId>): (r: Outcome<(Cache, int)>)
    requires forall i :: 0 <= i < |ids| ==> ids[i] in snap
    ensures r.Ok? <==> forall i :: 0 <= i < |ids| ==> snap[ids[i]].EncodedTarget?
    ensures r.Ok? ==> 0 <= r.value.1 <= |ids|
    decreases |ids|
  {
    if |ids| == 0 then Ok((c, 0))
    else
      assert forall j :: 1 <= j < |ids| ==> ids[j] == ids[1..][j - 1];
      match snap[ids[0]]
      case MalformedTarget => Fatal(UndecodableTarget(ids[0]))
      case EncodedTarget(qd) =>
        if Doomed(qd, upperBound, live) then
          match Sweep(RemoveTarget(c, qd), snap, ids[1..], upperBound, live)
          case Fatal(f) => Fatal(f)
          case Ok((c', n)) => Ok((c', n + 1))
        else Sweep(c, snap, ids[1..], upperBound, live)
  }

  /**
    Remove every target whose sequence number is at most `upperBound` and
    whose id is not live, returning how many were removed. Any undecodable
    target row is fatal.
   */
  function RemoveTargets(c: Cache, upperBound: SequenceNumber, live: set<TargetId>): (r: Outcome<(Cache, int)>)
    ensures r.Ok? <==> forall t :: t in c.store.targets ==> c.store.targets[t].EncodedTarget?
    ensures r.Ok? ==> 0 <= r.value.1 <= |c.store.targets|
  {
    IntLtIsStrictTotalOrder();
    var ids := SortedBy(c.store.targets.Keys, IntLt);
    SweepTargetFamily(c, ids, upperBound, live);
    Sweep(c, c.store.targets, ids, upperBound, live)
  }

  /** Sweeping an enumeration of the whole target family, stated over the family. */
  lemma SweepTargetFamily(c: Cache, ids: seq<TargetId>, upperBound: SequenceNumber, live: set<TargetId>)
    requires forall x :: x in ids <==> x in c.store.targets
    requires |ids| == |c.store.targets|
    ensures forall i :: 0 <= i < |ids| ==> ids[i] in c.store.targets
    ensures var r := Sweep(c, c.store.targets, ids, upperBound, live);
      && (r.Ok? <==> forall t :: t in c.store.targets ==> c.store.targets[t].EncodedTarget?)
      && (r.Ok? ==> 0 <= r.value.1 <= |c.store.targets|)
  {
    forall i | 0 <= i < |ids|
      ensures ids[i] in c.store.targets
    {
      var t := ids[i];
      assert t in ids;
    }
    forall t | t in c.store.targets
      ensures exists i :: 0 <= i < |ids| && ids[i] == t
    {
      assert t in ids;
    }
  }
}
