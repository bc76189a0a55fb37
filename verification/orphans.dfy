/**
  The orphan scan: one ordered pass over the document->target family that
  reports each sentinel whose document no target references.
 */
module Orphans {
  import opened Ordering
  import opened CacheModel

  /** The pending report, if any: a zero sequence number means nothing is pending. */
  function Flush(next: SequenceNumber, key: DocumentKey): seq<(DocumentKey, SequenceNumber)> {
    if next != 0 then [(key, next)] else []
  }

  /**
    The scan as written: a sentinel first reports what is pending and then
    becomes pending itself; any membership row clears what is pending; the
    end of the rows reports what is still pending.
   */
  function ScanOrphans(rows: seq<DocumentTargetRow>, next: SequenceNumber, key: DocumentKey)
    : seq<(DocumentKey, SequenceNumber)>
    decreases |rows|
  {
    if |rows| == 0 then Flush(next, key)
    else match rows[0]
      case Sentinel(d, n) => Flush(next, key) + ScanOrphans(rows[1..], n, d)
      case Membership(_, _) => ScanOrphans(rows[1..], 0, key)
  }

  /**
    Reference reading of the scan: row `i` is reported iff it is a sentinel
    with a non-zero sequence number and no membership row follows it before
    the next sentinel or the end, that is, the next row is a sentinel or
    there is none.
   */
  predicate ReportedAt(rows: seq<DocumentTargetRow>, i: int) {
    && 0 <= i < |rows|
    && rows[i].Sentinel?
    && rows[i].sequenceNumber != 0
    && (i + 1 == |rows| || rows[i + 1].Sentinel?)
  }

  /** The reported rows, one report per reported row, in row order. */
  function OrphansIn(rows: seq<DocumentTargetRow>): seq<(DocumentKey, SequenceNumber)>
    decreases |rows|
  {
    if |rows| == 0 then []
    else (if ReportedAt(rows, 0) then [(rows[0].doc, rows[0].sequenceNumber)] else [])
         + OrphansIn(rows[1..])
  }

  lemma {:induction false} ScanMatchesReference(rows: seq<DocumentTargetRow>, next: SequenceNumber, key: DocumentKey)
    ensures ScanOrphans(rows, next, key)
            == (if |rows| == 0 || rows[0].Sentinel? then Flush(next, key) else []) + OrphansIn(rows)
    decreases |rows|
  {
    if |rows| > 0 {
      var rest := rows[1..];
      match rows[0]
      case Sentinel(d, n) =>
        ScanMatchesReference(rest, n, d);
        assert (if |rest| == 0 || rest[0].Sentinel? then Flush(n, d) else [])
               == (if ReportedAt(rows, 0) then [(d, n)] else []);
        assert ScanOrphans(rows, next, key)
               == Flush(next, key) + ((if ReportedAt(rows, 0) then [(d, n)] else []) + OrphansIn(rest));
      case Membership(_, _) =>
        ScanMatchesReference(rest, 0, key);
    }
  }

  /**
    Every orphaned-document report, in the order the callback receives them:
    exactly the reference reading of the ordered document->target rows.
   */
  function EnumerateOrphanedDocuments(c: Cache): (r: seq<(DocumentKey, SequenceNumber)>)
    ensures r == OrphansIn(DocumentTargetRows(c.store))
  {
    var rows := DocumentTargetRows(c.store);
    ScanMatchesReference(rows, 0, []);
    ScanOrphans(rows, 0, [])
  }

  /** A report names a reported row, and every reported row is reported. */
  lemma {:induction false} OrphansInMembership(rows: seq<DocumentTargetRow>, x: (DocumentKey, SequenceNumber))
    ensures x in OrphansIn(rows) <==>
              exists i :: ReportedAt(rows, i) && x == (rows[i].doc, rows[i].sequenceNumber)
    decreases |rows|
  {
    if |rows| > 0 {
      OrphansInMembership(rows[1..], x);
      assert forall i :: 0 <= i < |rows| - 1 ==> (ReportedAt(rows[1..], i) <==> ReportedAt(rows, i + 1));
      assert forall i :: 1 <= i < |rows| ==> rows[i] == rows[1..][i - 1];
      if exists i :: ReportedAt(rows, i) && x == (rows[i].doc, rows[i].sequenceNumber) {
        var i :| ReportedAt(rows, i) && x == (rows[i].doc, rows[i].sequenceNumber);
        if i > 0 {
          assert ReportedAt(rows[1..], i - 1);
        }
      }
    }
  }

  /** `d` has a sentinel with a non-zero sequence number and no target references it. */
  predicate Orphaned(s: Store, d: DocumentKey) {
    d in s.sentinels && s.sentinels[d] != 0 && TargetsOf(s, d) == {}
  }

  /**
    Every document with a membership row also has a sentinel row. The scan
    relies on this: it treats a sentinel as the start of a new document.
   */
  predicate SentinelsCoverMembers(s: Store) {
    forall p :: p in s.documentTargets ==> p.0 in s.sentinels
  }

  /** The per-document reading: each orphaned document of `docs`, in order, with its sentinel's number. */
  function OrphanDocs(s: Store, docs: seq<DocumentKey>): seq<(DocumentKey, SequenceNumber)>
    decreases |docs|
  {
    if |docs| == 0 then []
    else (if Orphaned(s, docs[0]) then [(docs[0], s.sentinels[docs[0]])] else [])
         + OrphanDocs(s, docs[1..])
  }

  /** Membership rows only clear what is pending; they report nothing themselves. */
  lemma {:induction false} MembershipsReportNothing(ms: seq<DocumentTargetRow>, rest: seq<DocumentTargetRow>)
    requires forall i :: 0 <= i < |ms| ==> ms[i].Membership?
    ensures OrphansIn(ms + rest) == OrphansIn(rest)
    decreases |ms|
  {
    if |ms| > 0 {
      assert (ms + rest)[0] == ms[0];
      assert (ms + rest)[1..] == ms[1..] + rest;
      assert forall i :: 0 <= i < |ms[1..]| ==> ms[1..][i] == ms[i + 1];
      assert !ReportedAt(ms + rest, 0);
      MembershipsReportNothing(ms[1..], rest);
      assert OrphansIn(ms + rest) == [] + OrphansIn(ms[1..] + rest);
    } else {
      assert ms + rest == rest;
    }
  }

  /** A sentinel followed only by membership rows, then a new sentinel or the end, is reported iff there are no memberships. */
  lemma SentinelGroupReports(d: DocumentKey, n: SequenceNumber, ms: seq<DocumentTargetRow>, rest: seq<DocumentTargetRow>)
    requires forall i :: 0 <= i < |ms| ==> ms[i].Membership?
    requires |rest| == 0 || rest[0].Sentinel?
    ensures OrphansIn([Sentinel(d, n)] + ms + rest)
            == (if n != 0 && |ms| == 0 then [(d, n)] else []) + OrphansIn(rest)
  {
    var rows := [Sentinel(d, n)] + ms + rest;
    assert rows[1..] == ms + rest;
    MembershipsReportNothing(ms, rest);
    if |ms| > 0 {
      assert rows[1] == ms[0];
    }
  }

  /** A document's group, followed by rows that start a new sentinel or end, reports just that document if orphaned. */
  lemma GroupReports(s: Store, d: DocumentKey, rest: seq<DocumentTargetRow>)
    requires d in s.sentinels
    requires |rest| == 0 || rest[0].Sentinel?
    ensures OrphansIn(DocumentGroup(s, d) + rest)
            == (if Orphaned(s, d) then [(d, s.sentinels[d])] else []) + OrphansIn(rest)
  {
    var ms := MembershipsOf(s, d);
    assert DocumentGroup(s, d) == [Sentinel(d, s.sentinels[d])] + ms;
    SentinelGroupReports(d, s.sentinels[d], ms, rest);
  }

  lemma {:induction false} GroupsReport(s: Store, docs: seq<DocumentKey>)
    requires forall i :: 0 <= i < |docs| ==> docs[i] in s.sentinels
    ensures OrphansIn(GroupsOf(s, docs)) == OrphanDocs(s, docs)
    ensures |GroupsOf(s, docs)| == 0 || GroupsOf(s, docs)[0].Sentinel?
    decreases |docs|
  {
    if |docs| > 0 {
      IntLtIsStrictTotalOrder();
      DocumentGroupShape(s, docs[0]);
      GroupsReport(s, docs[1..]);
      GroupReports(s, docs[0], GroupsOf(s, docs[1..]));
    }
  }

  lemma {:induction false} OrphanDocsMembership(s: Store, docs: seq<DocumentKey>, x: (DocumentKey, SequenceNumber))
    ensures x in OrphanDocs(s, docs) <==> x.0 in docs && Orphaned(s, x.0) && x.1 == s.sentinels[x.0]
    decreases |docs|
  {
    if |docs| > 0 {
      OrphanDocsMembership(s, docs[1..], x);
    }
  }

  /** Reports in strictly ascending document order. */
  predicate AscendingDocs(r: seq<(DocumentKey, SequenceNumber)>) {
    forall i, j :: 0 <= i < j < |r| ==> StrLt(r[i].0, r[j].0)
  }

  /** At most one report below every later one keeps the reports ascending. */
  lemma PrependAscending(head: seq<(DocumentKey, SequenceNumber)>, tail: seq<(DocumentKey, SequenceNumber)>)
    requires |head| <= 1 && AscendingDocs(tail)
    requires forall k, x :: 0 <= k < |head| && x in tail ==> StrLt(head[k].0, x.0)
    ensures AscendingDocs(head + tail)
  {
    var r := head + tail;
    forall i, j | 0 <= i < j < |r|
      ensures StrLt(r[i].0, r[j].0)
    {
      if i < |head| {
        assert r[j] == tail[j - |head|];
        assert r[j] in tail;
      } else {
        assert r[i] == tail[i - |head|] && r[j] == tail[j - |head|];
      }
    }
  }

  /** Every document reported for the later keys lies above the first key. */
  lemma OrphanDocsAbove(s: Store, docs: seq<DocumentKey>)
    requires |docs| > 0
    requires forall i, j :: 0 <= i < j < |docs| ==> StrLt(docs[i], docs[j])
    ensures forall x :: x in OrphanDocs(s, docs[1..]) ==> StrLt(docs[0], x.0)
  {
    var rest := docs[1..];
    forall x | x in OrphanDocs(s, rest)
      ensures StrLt(docs[0], x.0)
    {
      OrphanDocsMembership(s, rest, x);
      var j :| 0 <= j < |rest| && rest[j] == x.0;
      assert docs[j + 1] == x.0;
    }
  }

  lemma {:induction false} OrphanDocsAscending(s: Store, docs: seq<DocumentKey>)
    requires forall i, j :: 0 <= i < j < |docs| ==> StrLt(docs[i], docs[j])
    ensures AscendingDocs(OrphanDocs(s, docs))
    decreases |docs|
  {
    if |docs| > 0 {
      var rest := docs[1..];
      assert forall i :: 0 <= i < |rest| ==> rest[i] == docs[i + 1];
      OrphanDocsAscending(s, rest);
      OrphanDocsAbove(s, docs);
      var head := if Orphaned(s, docs[0]) then [(docs[0], s.sentinels[docs[0]])] else [];
      PrependAscending(head, OrphanDocs(s, rest));
    }
  }

  /**
    When every referenced document has a sentinel row, the scan reports
    exactly the orphaned documents, each with its sentinel's sequence
    number, each once, in ascending key order.
   */
  lemma OrphanScanExact(c: Cache)
    requires SentinelsCoverMembers(c.store)
    ensures forall x :: x in EnumerateOrphanedDocuments(c) <==>
              Orphaned(c.store, x.0) && x.1 == c.store.sentinels[x.0]
    ensures var r := EnumerateOrphanedDocuments(c);
            forall i, j :: 0 <= i < j < |r| ==> r[i].0 != r[j].0
  {
    var s := c.store;
    StrLtIsStrictTotalOrder();
    var docs := SortedBy(IndexedDocuments(s), StrLt);
    assert IndexedDocuments(s) == s.sentinels.Keys;
    GroupsReport(s, docs);
    assert EnumerateOrphanedDocuments(c) == OrphanDocs(s, docs);
    forall x
      ensures x in EnumerateOrphanedDocuments(c) <==> Orphaned(s, x.0) && x.1 == s.sentinels[x.0]
    {
      OrphanDocsMembership(s, docs, x);
    }
    OrphanDocsAscending(s, docs);
    var r := OrphanDocs(s, docs);
    forall i, j | 0 <= i < j < |r|
      ensures r[i].0 != r[j].0
    {
      StrLtIrreflexive(r[i].0);
    }
  }

  lemma SortedTwoKeys()
    requires StrictTotalOrder(StrLt)
    ensures SortedBy({"a", "b"}, StrLt) == ["a", "b"]
  {
    var r := SortedBy({"a", "b"}, StrLt);
    assert "a" in r && "b" in r;
    assert StrLt(r[0], r[1]);
    assert !StrLt("b", "a");
  }

  lemma SortedOneTarget()
    requires StrictTotalOrder(IntLt)
    ensures SortedBy({1}, IntLt) == [1]
    ensures SortedBy({}, IntLt) == []
  {
    var r := SortedBy({1}, IntLt);
    assert r[0] in {1};
  }

  /** The store of the example below: a lone sentinel for "a", and "b" referenced by target 1 without one. */
  lemma ExampleStoreIndex(s: Store)
    requires s.sentinels == map["a" := 5]
    requires s.documentTargets == {("b", 1)}
    ensures TargetsOf(s, "a") == {}
    ensures TargetsOf(s, "b") == {1}
    ensures IndexedDocuments(s) == {"a", "b"}
  {
    assert ("b", 1) in s.documentTargets;
  }

  /** The example's document groups: "a" has only its sentinel, "b" only its membership row. */
  lemma ExampleGroups(s: Store)
    requires s.sentinels == map["a" := 5]
    requires s.documentTargets == {("b", 1)}
    ensures DocumentGroup(s, "a") == [Sentinel("a", 5)]
    ensures DocumentGroup(s, "b") == [Membership("b", 1)]
  {
    IntLtIsStrictTotalOrder();
    ExampleStoreIndex(s);
    SortedOneTarget();
    assert MembershipsOf(s, "a") == MembershipRows("a", []);
    assert MembershipsOf(s, "b") == MembershipRows("b", [1]);
    assert DocumentGroup(s, "a") == [Sentinel("a", 5)] + MembershipsOf(s, "a");
    assert DocumentGroup(s, "b") == [] + MembershipsOf(s, "b");
  }

  lemma GroupsOfTwo(s: Store, x: DocumentKey, y: DocumentKey)
    ensures GroupsOf(s, [x, y]) == DocumentGroup(s, x) + DocumentGroup(s, y)
  {
    assert [x, y][1..] == [y] && [y][1..] == [];
    assert GroupsOf(s, [y]) == DocumentGroup(s, y) + [];
  }

  /** The example's rows in key order: the sentinel of "a", then the membership row of "b". */
  lemma ExampleRows(s: Store)
    requires s.sentinels == map["a" := 5]
    requires s.documentTargets == {("b", 1)}
    ensures DocumentTargetRows(s) == [Sentinel("a", 5), Membership("b", 1)]
  {
    StrLtIsStrictTotalOrder();
    ExampleStoreIndex(s);
    SortedTwoKeys();
    ExampleGroups(s);
    GroupsOfTwo(s, "a", "b");
  }

  /** A sentinel directly followed by a membership row of another document is not reported. */
  lemma ExampleReportsNothing()
    ensures OrphansIn([Sentinel("a", 5), Membership("b", 1)]) == []
  {
    var rows := [Sentinel("a", 5), Membership("b", 1)];
    assert rows[1..] == [Membership("b", 1)] && rows[1..][1..] == [];
    assert !ReportedAt(rows, 0) && !ReportedAt(rows[1..], 0);
    assert OrphansIn(rows[1..]) == [] + OrphansIn(rows[1..][1..]);
  }

  /**
    Without a sentinel for a referenced document the scan can miss an
    orphan: document "a" has only its sentinel, but the membership row of
    "b" that follows clears the pending report, so nothing is reported.
   */
  lemma MissedOrphanWithoutSentinel(c: Cache)
    requires c.store.sentinels == map["a" := 5]
    requires c.store.documentTargets == {("b", 1)}
    ensures Orphaned(c.store, "a")
    ensures EnumerateOrphanedDocuments(c) == []
  {
    ExampleStoreIndex(c.store);
    ExampleRows(c.store);
    ExampleReportsNothing();
  }
}
