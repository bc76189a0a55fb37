/**
  Properties of the target operations over a consistent cache: each
  operation keeps the invariants, lookups find what was registered, the GC
  sweep removes exactly its selection, and the watermarks only rise.
 */
module TargetProperties {
  import opened Ordering
  import opened CacheModel
  import opened Metadata
  import opened Membership
  import opened Targets

  /** Registering a new target id keeps every invariant, including the exact target count. */
  lemma AddTargetKeepsConsistent(c: Cache, qd: QueryData)
    requires Consistent(c)
    requires qd.targetId !in c.store.targets
    ensures Consistent(AddTarget(c, qd))
  {
    AddTargetKeepsQueryIndex(c, qd);
    AddTargetKeepsWatermarks(c, qd);
    AddTargetCount(c, qd);
  }

  lemma AddTargetCount(c: Cache, qd: QueryData)
    requires qd.targetId !in c.store.targets
    ensures |AddTarget(c, qd).store.targets| == |c.store.targets| + 1
  {
    var r := AddTarget(c, qd);
    assert r.store.targets.Keys == c.store.targets.Keys + {qd.targetId};
  }

  lemma AddTargetKeepsQueryIndex(c: Cache, qd: QueryData)
    requires QueryIndexExact(c.store)
    requires qd.targetId !in c.store.targets
    ensures QueryIndexExact(AddTarget(c, qd).store)
  {
    assert (qd.query.canonicalId, qd.targetId) !in c.store.queryTargets;
  }

  lemma AddTargetKeepsWatermarks(c: Cache, qd: QueryData)
    requires WatermarksCover(c.store, c.metadata)
    ensures WatermarksCover(AddTarget(c, qd).store, AddTarget(c, qd).metadata)
  {
  }

  /** Rewriting a registered target under the same canonical id keeps every invariant. */
  lemma UpdateTargetKeepsConsistent(c: Cache, qd: QueryData)
    requires Consistent(c)
    requires qd.targetId in c.store.targets
    requires c.store.targets[qd.targetId].data.query.canonicalId == qd.query.canonicalId
    ensures Consistent(UpdateTarget(c, qd))
  {
    var r := UpdateTarget(c, qd);
    UpdateTargetKeepsQueryIndex(c, qd);
    UpdateTargetKeepsWatermarks(c, qd);
    assert r.store.targets.Keys == c.store.targets.Keys;
  }

  lemma UpdateTargetKeepsQueryIndex(c: Cache, qd: QueryData)
    requires QueryIndexExact(c.store)
    requires qd.targetId in c.store.targets
    requires c.store.targets[qd.targetId].data.query.canonicalId == qd.query.canonicalId
    ensures QueryIndexExact(UpdateTarget(c, qd).store)
  {
  }

  lemma UpdateTargetKeepsWatermarks(c: Cache, qd: QueryData)
    requires WatermarksCover(c.store, c.metadata)
    ensures WatermarksCover(UpdateTarget(c, qd).store, UpdateTarget(c, qd).metadata)
  {
  }

  /** Unregistering a registered target, named by its stored query, keeps every invariant. */
  lemma RemoveTargetKeepsConsistent(c: Cache, qd: QueryData)
    requires Consistent(c)
    requires qd.targetId in c.store.targets
    requires c.store.targets[qd.targetId].data.query.canonicalId == qd.query.canonicalId
    ensures Consistent(RemoveTarget(c, qd))
    ensures forall p :: p in RemoveTarget(c, qd).store.targetDocuments ==> p.0 != qd.targetId
    ensures forall p :: p in RemoveTarget(c, qd).store.documentTargets ==> p.1 != qd.targetId
  {
    var r := RemoveTarget(c, qd);
    RemoveTargetKeepsQueryIndex(c, qd);
    assert |r.store.targets| == |c.store.targets| - 1;
  }

  lemma RemoveTargetKeepsQueryIndex(c: Cache, qd: QueryData)
    requires QueryIndexExact(c.store)
    requires qd.targetId in c.store.targets
    requires c.store.targets[qd.targetId].data.query.canonicalId == qd.query.canonicalId
    ensures QueryIndexExact(RemoveTarget(c, qd).store)
  {
  }

  /** Membership changes keep every invariant. */
  lemma MatchingKeysKeepConsistent(c: Cache, keys: set<DocumentKey>, t: TargetId)
    requires Consistent(c)
    ensures Consistent(AddMatchingKeys(c, keys, t))
    ensures Consistent(RemoveMatchingKeys(c, keys, t))
  {
  }

  /** Probing candidates whose rows all exist and decode never fails. */
  lemma {:induction false} ProbeOnDecodable(s: Store, q: Query, ids: seq<TargetId>)
    requires forall i :: 0 <= i < |ids| ==> ids[i] in s.targets && s.targets[ids[i]].EncodedTarget?
    ensures Probe(s, q, ids).Ok?
    decreases |ids|
  {
    if |ids| > 0 {
      assert forall i :: 0 <= i < |ids| - 1 ==> ids[1..][i] == ids[i + 1];
      ProbeOnDecodable(s, q, ids[1..]);
    }
  }

  /** On a consistent cache, every target whose query is `q` has the query->target row GetTarget scans. */
  lemma TargetsOfQueryAreCandidates(c: Cache, q: Query)
    requires QueryIndexExact(c.store)
    ensures forall t :: t in TargetsWithQuery(c.store, q) ==>
              (q.canonicalId, t) in c.store.queryTargets && MatchesAt(c.store, t, q)
  {
  }

  /** On a consistent cache GetTarget never fails. */
  lemma GetTargetNeverFails(c: Cache, q: Query)
    requires QueryIndexExact(c.store)
    ensures GetTarget(c, q).Ok?
  {
    var s := c.store;
    IntLtIsStrictTotalOrder();
    var cands := Candidates(s, q.canonicalId);
    var ids := SortedBy(cands, IntLt);
    assert GetTarget(c, q) == Probe(s, q, ids);
    forall i | 0 <= i < |ids|
      ensures ids[i] in s.targets && s.targets[ids[i]].EncodedTarget?
    {
      assert ids[i] in cands;
      var p :| p in s.queryTargets && p.0 == q.canonicalId && p.1 == ids[i];
    }
    ProbeOnDecodable(s, q, ids);
  }

  /** The registered targets whose stored query is `q`. */
  function TargetsWithQuery(s: Store, q: Query): set<TargetId> {
    set t | t in s.targets && s.targets[t].EncodedTarget? && s.targets[t].data.query == q
  }

  /**
    On a consistent cache GetTarget never fails; it finds a target exactly
    when one with query `q` is registered, and then the one with the least
    target id.
   */
  lemma GetTargetOnConsistent(c: Cache, q: Query)
    requires Consistent(c)
    ensures GetTarget(c, q).Ok?
    ensures GetTarget(c, q) == Ok(None) <==> TargetsWithQuery(c.store, q) == {}
    ensures GetTarget(c, q).Ok? && GetTarget(c, q).value.Some? ==>
              var x := GetTarget(c, q).value.value;
              && x.query == q
              && x.targetId in TargetsWithQuery(c.store, q)
              && c.store.targets[x.targetId] == EncodedTarget(x)
              && forall t :: t in TargetsWithQuery(c.store, q) ==> x.targetId <= t
  {
    GetTargetNeverFails(c, q);
    GetTargetNoneIffUnregistered(c, q);
    GetTargetFindsLeast(c, q);
  }

  lemma GetTargetNoneIffUnregistered(c: Cache, q: Query)
    requires QueryIndexExact(c.store)
    ensures GetTarget(c, q) == Ok(None) <==> TargetsWithQuery(c.store, q) == {}
  {
    TargetsOfQueryAreCandidates(c, q);
    var s := c.store;
    if t :| t in TargetsWithQuery(s, q) {
      assert !PassesOver(s, t, q);
    } else {
      forall t | (q.canonicalId, t) in s.queryTargets
        ensures PassesOver(s, t, q)
      {
        assert t !in TargetsWithQuery(s, q);
      }
      assert forall t :: t !in TargetsWithQuery(s, q);
    }
  }

  lemma GetTargetFindsLeast(c: Cache, q: Query)
    requires QueryIndexExact(c.store)
    ensures GetTarget(c, q).Ok? && GetTarget(c, q).value.Some? ==>
              var x := GetTarget(c, q).value.value;
              && x.targetId in TargetsWithQuery(c.store, q)
              && c.store.targets[x.targetId] == EncodedTarget(x)
              && forall t :: t in TargetsWithQuery(c.store, q) ==> x.targetId <= t
  {
    TargetsOfQueryAreCandidates(c, q);
    var s := c.store;
    var r := GetTarget(c, q);
    if r.Ok? && r.value.Some? {
      var t :| (q.canonicalId, t) in s.queryTargets && MatchesAt(s, t, q)
                && s.targets[t].data == r.value.value
                && forall u :: (q.canonicalId, u) in s.queryTargets && u < t ==> PassesOver(s, u, q);
      assert r.value.value.targetId == t;
      forall u | u in TargetsWithQuery(s, q)
        ensures t <= u
      {
        assert !PassesOver(s, u, q);
      }
    }
  }

  /** Registering `qd` moves its id into the targets of its own query and out of every other's. */
  lemma AddTargetQueries(c: Cache, qd: QueryData, q: Query)
    ensures TargetsWithQuery(AddTarget(c, qd).store, q)
            == (TargetsWithQuery(c.store, q) - {qd.targetId}) + (if qd.query == q then {qd.targetId} else {})
  {
  }

  /** Unregistering `qd` removes its id from the targets of every query. */
  lemma RemoveTargetQueries(c: Cache, qd: QueryData, q: Query)
    ensures TargetsWithQuery(RemoveTarget(c, qd).store, q) == TargetsWithQuery(c.store, q) - {qd.targetId}
  {
  }

  /**
    A query->target row whose target row is missing is fatal as a dangling
    reference once the scan reaches it, and a row that does not decode is
    fatal as undecodable.
   */
  lemma GetTargetFailsAtFirstBadCandidate(c: Cache, q: Query, t: TargetId)
    requires (q.canonicalId, t) in c.store.queryTargets
    requires !PassesOver(c.store, t, q) && !MatchesAt(c.store, t, q)
    requires forall u :: (q.canonicalId, u) in c.store.queryTargets && u < t ==> PassesOver(c.store, u, q)
    ensures t !in c.store.targets ==> GetTarget(c, q) == Fatal(DanglingReference(q.canonicalId, t))
    ensures t in c.store.targets ==> GetTarget(c, q) == Fatal(UndecodableTarget(t))
  {
    var r := GetTarget(c, q);
    if r.Fatal? {
      var t' :| (q.canonicalId, t') in c.store.queryTargets
                && !PassesOver(c.store, t', q) && !MatchesAt(c.store, t', q)
                && r == ProbeFailure(c.store, q, t')
                && forall u :: (q.canonicalId, u) in c.store.queryTargets && u < t' ==>
                     PassesOver(c.store, u, q);
      assert !(t' < t) && !(t < t');
    }
  }

  /** GetTarget returns the target stored under the only id whose query is `q`. */
  lemma GetTargetSole(c: Cache, q: Query, qd: QueryData)
    requires Consistent(c)
    requires TargetsWithQuery(c.store, q) == {qd.targetId}
    requires c.store.targets[qd.targetId] == EncodedTarget(qd)
    ensures GetTarget(c, q) == Ok(Some(qd))
  {
    GetTargetOnConsistent(c, q);
  }

  /** A target registered under a query no other target has is what GetTarget returns for that query. */
  lemma AddThenGetTarget(c: Cache, qd: QueryData)
    requires Consistent(c)
    requires qd.targetId !in c.store.targets
    requires TargetsWithQuery(c.store, qd.query) == {}
    ensures GetTarget(AddTarget(c, qd), qd.query) == Ok(Some(qd))
  {
    AddTargetKeepsConsistent(c, qd);
    AddTargetQueries(c, qd, qd.query);
    GetTargetSole(AddTarget(c, qd), qd.query, qd);
  }

  /** Two queries sharing a canonical id are told apart: each lookup returns its own target. */
  lemma CanonicalIdCollision(c: Cache, qd1: QueryData, qd2: QueryData)
    requires Consistent(c)
    requires qd1.targetId !in c.store.targets && qd2.targetId !in c.store.targets
    requires qd1.targetId != qd2.targetId
    requires qd1.query != qd2.query && qd1.query.canonicalId == qd2.query.canonicalId
    requires TargetsWithQuery(c.store, qd1.query) == {} && TargetsWithQuery(c.store, qd2.query) == {}
    ensures GetTarget(AddTarget(AddTarget(c, qd1), qd2), qd1.query) == Ok(Some(qd1))
    ensures GetTarget(AddTarget(AddTarget(c, qd1), qd2), qd2.query) == Ok(Some(qd2))
  {
    var c1 := AddTarget(c, qd1);
    AddTargetKeepsConsistent(c, qd1);
    AddTargetQueries(c, qd1, qd1.query);
    AddTargetQueries(c, qd1, qd2.query);
    AddKeepsSole(c1, qd2, qd1);
    AddThenGetTarget(c1, qd2);
  }

  /** Adding a target for another query leaves the lookup of a registered query unchanged. */
  lemma AddKeepsSole(c: Cache, qd: QueryData, other: QueryData)
    requires Consistent(c)
    requires qd.targetId !in c.store.targets
    requires qd.query != other.query
    requires TargetsWithQuery(c.store, other.query) == {other.targetId}
    requires c.store.targets[other.targetId] == EncodedTarget(other)
    ensures GetTarget(AddTarget(c, qd), other.query) == Ok(Some(other))
  {
    AddTargetKeepsConsistent(c, qd);
    AddTargetQueries(c, qd, other.query);
    GetTargetSole(AddTarget(c, qd), other.query, other);
  }

  /** After its target is removed, a query no other target has is not found. */
  lemma RemoveThenGetTarget(c: Cache, qd: QueryData)
    requires Consistent(c)
    requires TargetsWithQuery(c.store, qd.query) == {qd.targetId}
    ensures GetTarget(RemoveTarget(c, qd), qd.query) == Ok(None)
  {
    RemoveTargetKeepsConsistent(c, qd);
    RemoveTargetQueries(c, qd, qd.query);
    GetTargetOnConsistent(RemoveTarget(c, qd), qd.query);
  }

  /** Removing a freshly added target restores the target rows, the query index and the count. */
  lemma RemoveUndoesAddTarget(c: Cache, qd: QueryData)
    requires QueryIndexExact(c.store)
    requires qd.targetId !in c.store.targets
    ensures RemoveTarget(AddTarget(c, qd), qd).store.targets == c.store.targets
    ensures RemoveTarget(AddTarget(c, qd), qd).store.queryTargets == c.store.queryTargets
    ensures RemoveTarget(AddTarget(c, qd), qd).metadata.targetCount == c.metadata.targetCount
  {
    var a := AddTarget(c, qd);
    var r := RemoveTarget(a, qd);
    var p := (qd.query.canonicalId, qd.targetId);
    assert p !in c.store.queryTargets;
    assert r.store.queryTargets == c.store.queryTargets;
    assert r.store.targets.Keys == c.store.targets.Keys;
  }

  /** Every id in `ids` whose snapshot row decodes to a target the sweep selects. */
  function SweptIds(snap: map<TargetId, TargetRow>, ids: seq<TargetId>,
                    upperBound: SequenceNumber, live: set<TargetId>): set<TargetId>
  {
    set t | t in ids && t in snap && snap[t].EncodedTarget? && Doomed(snap[t].data, upperBound, live)
  }

  /** The targets of `s` the sweep selects. */
  function DoomedTargets(s: Store, upperBound: SequenceNumber, live: set<TargetId>): set<TargetId> {
    set t | t in s.targets && s.targets[t].EncodedTarget? && Doomed(s.targets[t].data, upperBound, live)
  }

  lemma SweptIdsCons(snap: map<TargetId, TargetRow>, ids: seq<TargetId>,
                     upperBound: SequenceNumber, live: set<TargetId>)
    requires |ids| > 0
    ensures SweptIds(snap, ids, upperBound, live)
            == (if ids[0] in snap && snap[ids[0]].EncodedTarget? && Doomed(snap[ids[0]].data, upperBound, live)
                then {ids[0]} else {})
               + SweptIds(snap, ids[1..], upperBound, live)
  {
    assert forall t :: t in ids <==> t == ids[0] || t in ids[1..];
  }

  /** What the sweep promises over the ids it scans. */
  predicate SweepResult(c: Cache, snap: map<TargetId, TargetRow>, ids: seq<TargetId>,
                        upperBound: SequenceNumber, live: set<TargetId>, r: Outcome<(Cache, int)>)
  {
    && r.Ok?
    && Consistent(r.value.0)
    && r.value.0.store.targets == c.store.targets - SweptIds(snap, ids, upperBound, live)
    && r.value.1 == |SweptIds(snap, ids, upperBound, live)|
  }

  /** The ids still to be scanned are ascending, registered, and unchanged since the snapshot. */
  predicate SweepReady(c: Cache, snap: map<TargetId, TargetRow>, ids: seq<TargetId>) {
    && (forall i, j :: 0 <= i < j < |ids| ==> ids[i] < ids[j])
    && (forall i :: 0 <= i < |ids| ==> ids[i] in c.store.targets && ids[i] in snap
                                       && snap[ids[i]] == c.store.targets[ids[i]]
                                       && snap[ids[i]].EncodedTarget?
                                       && snap[ids[i]].data.targetId == ids[i])
  }

  lemma SweepReadyRest(c: Cache, c1: Cache, snap: map<TargetId, TargetRow>, ids: seq<TargetId>)
    requires SweepReady(c, snap, ids) && |ids| > 0
    requires c1.store.targets == c.store.targets - {ids[0]} || c1.store.targets == c.store.targets
    ensures SweepReady(c1, snap, ids[1..])
    ensures ids[0] !in ids[1..]
  {
    assert forall i :: 0 <= i < |ids| - 1 ==> ids[1..][i] == ids[i + 1];
  }

  lemma SweepUnfoldDoomed(c: Cache, snap: map<TargetId, TargetRow>, ids: seq<TargetId>,
                          upperBound: SequenceNumber, live: set<TargetId>)
    requires |ids| > 0 && forall i :: 0 <= i < |ids| ==> ids[i] in snap
    requires snap[ids[0]].EncodedTarget? && Doomed(snap[ids[0]].data, upperBound, live)
    requires Sweep(RemoveTarget(c, snap[ids[0]].data), snap, ids[1..], upperBound, live).Ok?
    ensures var r1 := Sweep(RemoveTarget(c, snap[ids[0]].data), snap, ids[1..], upperBound, live).value;
            Sweep(c, snap, ids, upperBound, live) == Ok((r1.0, r1.1 + 1))
  {
  }

  lemma RemoveOneThenRest(all: map<TargetId, TargetRow>, t0: TargetId, swept: set<TargetId>, sweptRest: set<TargetId>)
    requires swept == {t0} + sweptRest && t0 !in sweptRest
    ensures |swept| == |sweptRest| + 1
    ensures (all - {t0}) - sweptRest == all - swept
  {
  }

  lemma SweepStepDoomed(c: Cache, snap: map<TargetId, TargetRow>, ids: seq<TargetId>,
                        upperBound: SequenceNumber, live: set<TargetId>)
    requires SweepReady(c, snap, ids) && |ids| > 0
    requires Doomed(snap[ids[0]].data, upperBound, live)
    requires var c1 := RemoveTarget(c, snap[ids[0]].data);
             SweepResult(c1, snap, ids[1..], upperBound, live, Sweep(c1, snap, ids[1..], upperBound, live))
    ensures SweepResult(c, snap, ids, upperBound, live, Sweep(c, snap, ids, upperBound, live))
  {
    var t0 := ids[0];
    var c1 := RemoveTarget(c, snap[t0].data);
    var r1 := Sweep(c1, snap, ids[1..], upperBound, live);
    SweepUnfoldDoomed(c, snap, ids, upperBound, live);
    SweepReadyRest(c, c1, snap, ids);
    SweptIdsCons(snap, ids, upperBound, live);
    var swept := SweptIds(snap, ids, upperBound, live);
    var sweptRest := SweptIds(snap, ids[1..], upperBound, live);
    assert t0 !in sweptRest;
    RemoveOneThenRest(c.store.targets, t0, swept, sweptRest);
    SweepResultStep(c, c1, r1.value.0, r1.value.1, t0, swept, sweptRest);
  }

  /** The bookkeeping of one removal followed by the rest of the sweep. */
  lemma SweepResultStep(c: Cache, c1: Cache, r: Cache, n: int, t0: TargetId,
                        swept: set<TargetId>, sweptRest: set<TargetId>)
    requires c1.store.targets == c.store.targets - {t0}
    requires r.store.targets == c1.store.targets - sweptRest && n == |sweptRest|
    requires (c.store.targets - {t0}) - sweptRest == c.store.targets - swept
    requires |swept| == |sweptRest| + 1
    ensures r.store.targets == c.store.targets - swept && n + 1 == |swept|
  {
  }

  lemma SweepStepKept(c: Cache, snap: map<TargetId, TargetRow>, ids: seq<TargetId>,
                      upperBound: SequenceNumber, live: set<TargetId>)
    requires SweepReady(c, snap, ids) && |ids| > 0
    requires !Doomed(snap[ids[0]].data, upperBound, live)
    requires SweepResult(c, snap, ids[1..], upperBound, live, Sweep(c, snap, ids[1..], upperBound, live))
    ensures SweepResult(c, snap, ids, upperBound, live, Sweep(c, snap, ids, upperBound, live))
  {
    SweepUnfoldKept(c, snap, ids, upperBound, live);
    SweptIdsKept(snap, ids, upperBound, live);
  }

  lemma SweepUnfoldKept(c: Cache, snap: map<TargetId, TargetRow>, ids: seq<TargetId>,
                        upperBound: SequenceNumber, live: set<TargetId>)
    requires |ids| > 0 && forall i :: 0 <= i < |ids| ==> ids[i] in snap
    requires snap[ids[0]].EncodedTarget? && !Doomed(snap[ids[0]].data, upperBound, live)
    ensures Sweep(c, snap, ids, upperBound, live) == Sweep(c, snap, ids[1..], upperBound, live)
  {
  }

  lemma SweptIdsKept(snap: map<TargetId, TargetRow>, ids: seq<TargetId>,
                     upperBound: SequenceNumber, live: set<TargetId>)
    requires |ids| > 0 && ids[0] in snap
    requires snap[ids[0]].EncodedTarget? && !Doomed(snap[ids[0]].data, upperBound, live)
    ensures SweptIds(snap, ids, upperBound, live) == SweptIds(snap, ids[1..], upperBound, live)
  {
    assert forall t :: t in ids <==> t == ids[0] || t in ids[1..];
  }

  lemma {:induction false} SweepRemovesSelected(c: Cache, snap: map<TargetId, TargetRow>, ids: seq<TargetId>,
                                                upperBound: SequenceNumber, live: set<TargetId>)
    requires Consistent(c) && SweepReady(c, snap, ids)
    ensures SweepResult(c, snap, ids, upperBound, live, Sweep(c, snap, ids, upperBound, live))
    decreases |ids|
  {
    if |ids| == 0 {
      assert SweptIds(snap, ids, upperBound, live) == {};
    } else {
      var qd := snap[ids[0]].data;
      if Doomed(qd, upperBound, live) {
        var c1 := RemoveTarget(c, qd);
        RemoveTargetKeepsConsistent(c, qd);
        SweepReadyRest(c, c1, snap, ids);
        SweepRemovesSelected(c1, snap, ids[1..], upperBound, live);
        SweepStepDoomed(c, snap, ids, upperBound, live);
      } else {
        SweepReadyRest(c, c, snap, ids);
        SweepRemovesSelected(c, snap, ids[1..], upperBound, live);
        SweepStepKept(c, snap, ids, upperBound, live);
      }
    }
  }

  /**
    On a consistent cache the GC sweep never fails, removes exactly the
    targets at or below the bound that are not live (every other target
    remains), returns their number, keeps every invariant (so their query
    index rows are gone), and deletes exactly their membership rows.
   */
  lemma RemoveTargetsRemovesExactlySelected(c: Cache, upperBound: SequenceNumber, live: set<TargetId>)
    requires Consistent(c)
    ensures RemoveTargets(c, upperBound, live).Ok?
    ensures var r := RemoveTargets(c, upperBound, live).value;
            && Consistent(r.0)
            && r.0.store.targets == c.store.targets - DoomedTargets(c.store, upperBound, live)
            && r.1 == |DoomedTargets(c.store, upperBound, live)|
            && r.0.metadata.targetCount == c.metadata.targetCount - r.1
            && MembershipsWithout(r.0.store, c.store, DoomedTargets(c.store, upperBound, live))
  {
    RemoveTargetsDropsMemberships(c, upperBound, live);
    IntLtIsStrictTotalOrder();
    var ids := SortedBy(c.store.targets.Keys, IntLt);
    SweepReadyAtStart(c, ids);
    SweepRemovesSelected(c, c.store.targets, ids, upperBound, live);
    SweptAllIsDoomed(c.store, ids, upperBound, live);
    var r := Sweep(c, c.store.targets, ids, upperBound, live).value;
    RemainingCount(c.store.targets, r.0.store.targets, DoomedTargets(c.store, upperBound, live));
  }

  /** The membership rows of targets not in `gone`: what the sweep leaves of both indexes. */
  predicate MembershipsWithout(r: Store, s: Store, gone: set<TargetId>) {
    && r.targetDocuments == (set p | p in s.targetDocuments && p.0 !in gone)
    && r.documentTargets == (set p | p in s.documentTargets && p.1 !in gone)
  }

  /**
    With symmetric indexes, the sweep deletes exactly the membership rows of
    the targets it removes, in both indexes, and the indexes stay symmetric.
   */
  lemma {:induction false} SweepDropsMemberships(c: Cache, snap: map<TargetId, TargetRow>, ids: seq<TargetId>,
                                                 upperBound: SequenceNumber, live: set<TargetId>)
    requires IndexSymmetric(c.store)
    requires forall i :: 0 <= i < |ids| ==> ids[i] in snap
    requires forall i :: 0 <= i < |ids| ==> snap[ids[i]].EncodedTarget? ==> snap[ids[i]].data.targetId == ids[i]
    ensures var r := Sweep(c, snap, ids, upperBound, live);
            r.Ok? ==> IndexSymmetric(r.value.0.store)
                      && MembershipsWithout(r.value.0.store, c.store, SweptIds(snap, ids, upperBound, live))
    decreases |ids|
  {
    if |ids| == 0 {
      assert SweptIds(snap, ids, upperBound, live) == {};
    } else if snap[ids[0]].EncodedTarget? {
      var qd := snap[ids[0]].data;
      assert forall j :: 1 <= j < |ids| ==> ids[j] == ids[1..][j - 1];
      SweptIdsCons(snap, ids, upperBound, live);
      if Doomed(qd, upperBound, live) {
        var c1 := RemoveTarget(c, qd);
        RemoveTargetDropsMemberships(c, qd);
        SweepDropsMemberships(c1, snap, ids[1..], upperBound, live);
        var r1 := Sweep(c1, snap, ids[1..], upperBound, live);
        if r1.Ok? {
          SweepUnfoldDoomed(c, snap, ids, upperBound, live);
          MembershipsWithoutCompose(c.store, c1.store, r1.value.0.store,
                                    {ids[0]}, SweptIds(snap, ids[1..], upperBound, live));
        }
      } else {
        SweepUnfoldKept(c, snap, ids, upperBound, live);
        SweepDropsMemberships(c, snap, ids[1..], upperBound, live);
      }
    }
  }

  /** With symmetric indexes, removing a target deletes exactly its membership rows. */
  lemma RemoveTargetDropsMemberships(c: Cache, qd: QueryData)
    requires IndexSymmetric(c.store)
    ensures IndexSymmetric(RemoveTarget(c, qd).store)
    ensures MembershipsWithout(RemoveTarget(c, qd).store, c.store, {qd.targetId})
  {
  }

  lemma MembershipsWithoutCompose(a: Store, b: Store, c: Store, g1: set<TargetId>, g2: set<TargetId>)
    requires MembershipsWithout(b, a, g1) && MembershipsWithout(c, b, g2)
    ensures MembershipsWithout(c, a, g1 + g2)
  {
  }

  /** The GC sweep deletes exactly the membership rows of the targets it removes. */
  lemma RemoveTargetsDropsMemberships(c: Cache, upperBound: SequenceNumber, live: set<TargetId>)
    requires Consistent(c)
    ensures RemoveTargets(c, upperBound, live).Ok? ==>
              MembershipsWithout(RemoveTargets(c, upperBound, live).value.0.store, c.store,
                                 DoomedTargets(c.store, upperBound, live))
  {
    IntLtIsStrictTotalOrder();
    var ids := SortedBy(c.store.targets.Keys, IntLt);
    SweepReadyAtStart(c, ids);
    SweepDropsMemberships(c, c.store.targets, ids, upperBound, live);
    SweptAllIsDoomed(c.store, ids, upperBound, live);
  }

  /** A consistent cache is ready to be swept over its ascending target ids. */
  lemma SweepReadyAtStart(c: Cache, ids: seq<TargetId>)
    requires Consistent(c)
    requires forall x :: x in ids <==> x in c.store.targets.Keys
    requires forall i, j :: 0 <= i < j < |ids| ==> IntLt(ids[i], ids[j])
    ensures SweepReady(c, c.store.targets, ids)
  {
  }

  /** Sweeping every target id selects exactly the doomed targets. */
  lemma SweptAllIsDoomed(s: Store, ids: seq<TargetId>, upperBound: SequenceNumber, live: set<TargetId>)
    requires forall x :: x in ids <==> x in s.targets.Keys
    ensures SweptIds(s.targets, ids, upperBound, live) == DoomedTargets(s, upperBound, live)
  {
    assert forall t :: t in ids <==> t in s.targets;
  }

  lemma RemainingCount(all: map<TargetId, TargetRow>, rest: map<TargetId, TargetRow>, removed: set<TargetId>)
    requires removed <= all.Keys
    requires rest == all - removed
    ensures |rest| == |all| - |removed|
  {
    assert rest.Keys == all.Keys - removed;
  }

  /** A call that writes a target: registering it or rewriting it. */
  datatype TargetWrite = Add(qd: QueryData) | Update(qd: QueryData)

  function ApplyWrites(c: Cache, ws: seq<TargetWrite>): Cache
    decreases |ws|
  {
    if |ws| == 0 then c
    else
      var c1 := match ws[0]
        case Add(qd) => AddTarget(c, qd)
        case Update(qd) => UpdateTarget(c, qd);
      ApplyWrites(c1, ws[1..])
  }

  /**
    Across any sequence of target writes neither watermark decreases, and
    each ends at or above every written target's id and sequence number.
   */
  lemma {:induction false} WatermarksNeverDecrease(c: Cache, ws: seq<TargetWrite>)
    ensures ApplyWrites(c, ws).metadata.highestTargetId >= c.metadata.highestTargetId
    ensures ApplyWrites(c, ws).metadata.highestListenSequenceNumber >= c.metadata.highestListenSequenceNumber
    ensures forall i :: 0 <= i < |ws| ==>
              && ApplyWrites(c, ws).metadata.highestTargetId >= ws[i].qd.targetId
              && ApplyWrites(c, ws).metadata.highestListenSequenceNumber >= ws[i].qd.sequenceNumber
    decreases |ws|
  {
    if |ws| > 0 {
      var c1 := match ws[0]
        case Add(qd) => AddTarget(c, qd)
        case Update(qd) => UpdateTarget(c, qd);
      WatermarksNeverDecrease(c1, ws[1..]);
      assert forall i :: 1 <= i < |ws| ==> ws[i] == ws[1..][i - 1];
    }
  }
}
