/**
  Document membership of targets: the target->document and document->target
  index rows, which are written and deleted in pairs, and the scans that read
  them back.
 */
module Membership {
  import opened Ordering
  import opened CacheModel

  /** The pairs `(t, d)` for every `d` in `ks`. */
  function TargetPairs(t: TargetId, ks: seq<DocumentKey>): set<(TargetId, DocumentKey)> {
    set d | d in ks :: (t, d)
  }

  /** The pairs `(d, t)` for every `d` in `ks`. */
  function DocumentPairs(t: TargetId, ks: seq<DocumentKey>): set<(DocumentKey, TargetId)> {
    set d | d in ks :: (d, t)
  }

  /** The delegate event for key `k`. */
  function Event(k: DocumentKey, added: bool): ReferenceEvent {
    if added then AddReference(k) else RemoveReference(k)
  }

  /** True iff the delegate events `es` name each key of `ks` in turn, all added or all removed. */
  predicate Notifies(es: seq<ReferenceEvent>, ks: seq<DocumentKey>, added: bool) {
    && |es| == |ks|
    && forall i :: 0 <= i < |es| ==> es[i] == Event(ks[i], added)
  }

  lemma PairsSplit(t: TargetId, ks: seq<DocumentKey>)
    requires |ks| > 0
    ensures TargetPairs(t, ks) == {(t, ks[0])} + TargetPairs(t, ks[1..])
    ensures DocumentPairs(t, ks) == {(ks[0], t)} + DocumentPairs(t, ks[1..])
  {
    assert forall d :: d in ks <==> d == ks[0] || d in ks[1..];
  }

  /** One event for the first key, then the events of the rest, notify every key. */
  lemma NotifiesStep(base: seq<ReferenceEvent>, rs: seq<ReferenceEvent>, ks: seq<DocumentKey>, added: bool)
    requires |ks| > 0
    requires |rs| >= |base| + 1 && rs[..|base| + 1] == base + [Event(ks[0], added)]
    requires Notifies(rs[|base| + 1..], ks[1..], added)
    ensures rs[..|base|] == base
    ensures Notifies(rs[|base|..], ks, added)
  {
    assert rs[..|base|] == rs[..|base| + 1][..|base|];
    var es := rs[|base|..];
    assert es[0] == rs[..|base| + 1][|base|];
    forall i | 1 <= i < |es|
      ensures es[i] == Event(ks[i], added)
    {
      assert es[i] == rs[|base| + 1..][i - 1];
    }
  }

  /** The pairs of an enumeration of `keys` are the pairs of `keys`. */
  lemma PairsOfKeys(t: TargetId, ks: seq<DocumentKey>, keys: set<DocumentKey>)
    requires forall x :: x in ks <==> x in keys
    ensures forall p :: p in TargetPairs(t, ks) <==> p.0 == t && p.1 in keys
    ensures forall p :: p in DocumentPairs(t, ks) <==> p.1 == t && p.0 in keys
  {
  }

  lemma SymmetricAfterAdd(s: Store, r: Store, t: TargetId, keys: set<DocumentKey>)
    requires forall p :: p in r.targetDocuments <==> p in s.targetDocuments || (p.0 == t && p.1 in keys)
    requires forall p :: p in r.documentTargets <==> p in s.documentTargets || (p.1 == t && p.0 in keys)
    ensures IndexSymmetric(s) ==> IndexSymmetric(r)
  {
  }

  lemma SymmetricAfterDelete(s: Store, r: Store, t: TargetId, keys: set<DocumentKey>)
    requires forall p :: p in r.targetDocuments <==> p in s.targetDocuments && !(p.0 == t && p.1 in keys)
    requires forall p :: p in r.documentTargets <==> p in s.documentTargets && !(p.1 == t && p.0 in keys)
    ensures IndexSymmetric(s) ==> IndexSymmetric(r)
  {
  }

  /** Events that notify an enumeration of `keys` are one per key, and name exactly those keys. */
  lemma NotifiedKeys(es: seq<ReferenceEvent>, ks: seq<DocumentKey>, keys: set<DocumentKey>, added: bool)
    requires Notifies(es, ks, added)
    requires forall x :: x in ks <==> x in keys
    requires |ks| == |keys|
    ensures |es| == |keys|
    ensures forall e :: e in es <==> e == Event(e.key, added) && e.key in keys
  {
    forall e | e in es
      ensures e == Event(e.key, added) && e.key in keys
    {
      var i :| 0 <= i < |es| && es[i] == e;
      assert e == Event(ks[i], added);
    }
    forall e: ReferenceEvent | e == Event(e.key, added) && e.key in keys
      ensures e in es
    {
      var i :| 0 <= i < |ks| && ks[i] == e.key;
      assert es[i] == e;
    }
  }

  /** Put both index rows for each key in turn, notifying the delegate of each. */
  function PutMatches(c: Cache, ks: seq<DocumentKey>, t: TargetId): (r: Cache)
    ensures r.store.targetDocuments == c.store.targetDocuments + TargetPairs(t, ks)
    ensures r.store.documentTargets == c.store.documentTargets + DocumentPairs(t, ks)
    ensures r.store.(targetDocuments := c.store.targetDocuments,
                     documentTargets := c.store.documentTargets) == c.store
    ensures r.metadata == c.metadata && r.lastRemoteSnapshotVersion == c.lastRemoteSnapshotVersion
    ensures |r.references| >= |c.references| && r.references[..|c.references|] == c.references
    ensures Notifies(r.references[|c.references|..], ks, true)
    decreases |ks|
  {
    if |ks| == 0 then c
    else
      var s := c.store;
      var s1 := s.(targetDocuments := s.targetDocuments + {(t, ks[0])},
                   documentTargets := s.documentTargets + {(ks[0], t)});
      var r := PutMatches(c.(store := s1, references := c.references + [Event(ks[0], true)]), ks[1..], t);
      PairsSplit(t, ks);
      NotifiesStep(c.references, r.references, ks, true);
      r
  }

  /** Delete both index rows for each key in turn, notifying the delegate of each. */
  function DeleteMatches(c: Cache, ks: seq<DocumentKey>, t: TargetId): (r: Cache)
    ensures r.store.targetDocuments == c.store.targetDocuments - TargetPairs(t, ks)
    ensures r.store.documentTargets == c.store.documentTargets - DocumentPairs(t, ks)
    ensures r.store.(targetDocuments := c.store.targetDocuments,
                     documentTargets := c.store.documentTargets) == c.store
    ensures r.metadata == c.metadata && r.lastRemoteSnapshotVersion == c.lastRemoteSnapshotVersion
    ensures |r.references| >= |c.references| && r.references[..|c.references|] == c.references
    ensures Notifies(r.references[|c.references|..], ks, false)
    decreases |ks|
  {
    if |ks| == 0 then c
    else
      var s := c.store;
      var s1 := s.(targetDocuments := s.targetDocuments - {(t, ks[0])},
                   documentTargets := s.documentTargets - {(ks[0], t)});
      var r := DeleteMatches(c.(store := s1, references := c.references + [Event(ks[0], false)]), ks[1..], t);
      PairsSplit(t, ks);
      NotifiesStep(c.references, r.references, ks, false);
      r
  }

  /**
    Record that target `t` matches every key of `keys`: both index rows per
    key, one delegate AddReference per key in key order, and nothing else
    changes.
   */
  function AddMatchingKeys(c: Cache, keys: set<DocumentKey>, t: TargetId): (r: Cache)
    ensures forall p :: p in r.store.targetDocuments <==> p in c.store.targetDocuments || (p.0 == t && p.1 in keys)
    ensures forall p :: p in r.store.documentTargets <==> p in c.store.documentTargets || (p.1 == t && p.0 in keys)
    ensures IndexSymmetric(c.store) ==> IndexSymmetric(r.store)
    ensures r.store.targets == c.store.targets && r.store.queryTargets == c.store.queryTargets
    ensures r.store.sentinels == c.store.sentinels && r.store.global == c.store.global
    ensures r.metadata == c.metadata && r.lastRemoteSnapshotVersion == c.lastRemoteSnapshotVersion
    ensures |r.references| == |c.references| + |keys| && r.references[..|c.references|] == c.references
    ensures forall e :: e in r.references[|c.references|..] <==> e == AddReference(e.key) && e.key in keys
  {
    StrLtIsStrictTotalOrder();
    var ks := SortedBy(keys, StrLt);
    var r := PutMatches(c, ks, t);
    PairsOfKeys(t, ks, keys);
    SymmetricAfterAdd(c.store, r.store, t, keys);
    NotifiedKeys(r.references[|c.references|..], ks, keys, true);
    r
  }

  /**
    Record that target `t` no longer matches any key of `keys`: both index
    rows per key deleted, one delegate RemoveReference per key in key order,
    and nothing else changes.
   */
  function RemoveMatchingKeys(c: Cache, keys: set<DocumentKey>, t: TargetId): (r: Cache)
    ensures forall p :: p in r.store.targetDocuments <==> p in c.store.targetDocuments && !(p.0 == t && p.1 in keys)
    ensures forall p :: p in r.store.documentTargets <==> p in c.store.documentTargets && !(p.1 == t && p.0 in keys)
    ensures IndexSymmetric(c.store) ==> IndexSymmetric(r.store)
    ensures r.store.targets == c.store.targets && r.store.queryTargets == c.store.queryTargets
    ensures r.store.sentinels == c.store.sentinels && r.store.global == c.store.global
    ensures r.metadata == c.metadata && r.lastRemoteSnapshotVersion == c.lastRemoteSnapshotVersion
    ensures |r.references| == |c.references| + |keys| && r.references[..|c.references|] == c.references
    ensures forall e :: e in r.references[|c.references|..] <==> e == RemoveReference(e.key) && e.key in keys
  {
    StrLtIsStrictTotalOrder();
    var ks := SortedBy(keys, StrLt);
    var r := DeleteMatches(c, ks, t);
    PairsOfKeys(t, ks, keys);
    SymmetricAfterDelete(c.store, r.store, t, keys);
    NotifiedKeys(r.references[|c.references|..], ks, keys, false);
    r
  }

  /** Delete, for each document of the scanned prefix, the target->document row and its inverse. */
  function DeleteTargetRows(s: Store, t: TargetId, ks: seq<DocumentKey>): (r: Store)
    ensures r.targetDocuments == s.targetDocuments - TargetPairs(t, ks)
    ensures r.documentTargets == s.documentTargets - DocumentPairs(t, ks)
    ensures r.(targetDocuments := s.targetDocuments, documentTargets := s.documentTargets) == s
    decreases |ks|
  {
    if |ks| == 0 then s
    else
      var s1 := s.(targetDocuments := s.targetDocuments - {(t, ks[0])},
                   documentTargets := s.documentTargets - {(ks[0], t)});
      PairsSplit(t, ks);
      DeleteTargetRows(s1, t, ks[1..])
  }

  /**
    Scan the target->document rows of `t` and delete each with its inverse.
    Afterwards no target->document row of `t` is left, rows of other targets
    are untouched, and a document->target row goes only if its inverse was
    scanned; no delegate is notified.
   */
  function RemoveAllKeysForTarget(s: Store, t: TargetId): (r: Store)
    ensures forall p :: p in r.targetDocuments <==> p in s.targetDocuments && p.0 != t
    ensures forall p :: p in r.documentTargets <==> p in s.documentTargets && !(p.1 == t && (t, p.0) in s.targetDocuments)
    ensures IndexSymmetric(s) ==> IndexSymmetric(r) && forall p :: p in r.documentTargets ==> p.1 != t
    ensures r.targets == s.targets && r.queryTargets == s.queryTargets
    ensures r.sentinels == s.sentinels && r.global == s.global
  {
    StrLtIsStrictTotalOrder();
    var ks := SortedBy(DocumentsOf(s, t), StrLt);
    var r := DeleteTargetRows(s, t, ks);
    assert forall p :: p in s.targetDocuments && p.0 == t ==> p.1 in ks;
    r
  }

  /** Insert each scanned document into the accumulated key set. */
  function CollectKeys(acc: set<DocumentKey>, ks: seq<DocumentKey>): (r: set<DocumentKey>)
    ensures forall d :: d in r <==> d in acc || d in ks
    decreases |ks|
  {
    if |ks| == 0 then acc else CollectKeys(acc + {ks[0]}, ks[1..])
  }

  /** The documents target `t` matches: exactly those with a target->document row for `t`. */
  function GetMatchingKeys(c: Cache, t: TargetId): (r: set<DocumentKey>)
    ensures forall d :: d in r <==> (t, d) in c.store.targetDocuments
  {
    StrLtIsStrictTotalOrder();
    CollectKeys({}, SortedBy(DocumentsOf(c.store, t), StrLt))
  }

  /** Scan one document's rows, stopping at the first membership (non-sentinel) row for `d`. */
  function FindMembership(rows: seq<DocumentTargetRow>, d: DocumentKey): (r: bool)
    ensures r <==> exists i :: 0 <= i < |rows| && rows[i].Membership? && rows[i].doc == d
    decreases |rows|
  {
    if |rows| == 0 then false
    else if rows[0].Membership? && rows[0].doc == d then true
    else
      var r := FindMembership(rows[1..], d);
      assert forall i :: 1 <= i < |rows| ==> rows[i] == rows[1..][i - 1];
      r
  }

  /**
    Whether any target references `d`: true iff a document->target row other
    than the sentinel exists for it. A document with only a sentinel row is
    not contained.
   */
  function Contains(c: Cache, d: DocumentKey): (r: bool)
    ensures r <==> exists t :: (d, t) in c.store.documentTargets
  {
    var rows := DocumentGroup(c.store, d);
    IntLtIsStrictTotalOrder();
    DocumentGroupShape(c.store, d);
    assert forall t :: (d, t) in c.store.documentTargets ==> t in TargetsOf(c.store, d);
    FindMembership(rows, d)
  }

  /** With symmetric indexes, Contains agrees with the target->document side: some target matches `d`. */
  lemma ContainsIffSomeTargetMatches(c: Cache, d: DocumentKey)
    requires IndexSymmetric(c.store)
    ensures Contains(c, d) <==> exists t :: d in GetMatchingKeys(c, t)
  {
    if Contains(c, d) {
      var t :| (d, t) in c.store.documentTargets;
      assert d in GetMatchingKeys(c, t);
    }
  }

  /** Adding keys then reading them back yields the previous matches plus exactly those keys. */
  lemma MatchingKeysAfterAdd(c: Cache, keys: set<DocumentKey>, t: TargetId)
    ensures GetMatchingKeys(AddMatchingKeys(c, keys, t), t) == GetMatchingKeys(c, t) + keys
  {
  }

  /** Removing keys then reading them back yields the previous matches minus exactly those keys. */
  lemma MatchingKeysAfterRemove(c: Cache, keys: set<DocumentKey>, t: TargetId)
    ensures GetMatchingKeys(RemoveMatchingKeys(c, keys, t), t) == GetMatchingKeys(c, t) - keys
  {
  }

  /** Removing keys that were just added restores the membership rows (not the delegate log). */
  lemma RemoveUndoesAdd(c: Cache, keys: set<DocumentKey>, t: TargetId)
    requires forall d :: d in keys ==> (t, d) !in c.store.targetDocuments && (d, t) !in c.store.documentTargets
    ensures RemoveMatchingKeys(AddMatchingKeys(c, keys, t), keys, t).store == c.store
  {
    var r := RemoveMatchingKeys(AddMatchingKeys(c, keys, t), keys, t);
    assert r.store.targetDocuments == c.store.targetDocuments;
    assert r.store.documentTargets == c.store.documentTargets;
  }

  /** A document whose only document->target row is its sentinel is not contained. */
  lemma SentinelOnlyIsNotContained(c: Cache, d: DocumentKey)
    requires d in c.store.sentinels
    requires TargetsOf(c.store, d) == {}
    ensures !Contains(c, d)
  {
    assert forall t :: (d, t) in c.store.documentTargets ==> t in TargetsOf(c.store, d);
  }
}
