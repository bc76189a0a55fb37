/**
  The order of the ordered key space. Every row family is laid out so that
  the rows sharing a leading field are contiguous and sorted by their trailing
  field; a prefix scan therefore visits the trailing fields of a finite set in
  ascending order. `SortedBy` is that visit order.
 */
module Ordering {

  /** `lt` is a strict total order. */
  ghost predicate StrictTotalOrder<K(!new)>(lt: (K, K) -> bool) {
    && (forall x :: !lt(x, x))
    && (forall x, y, z :: lt(x, y) && lt(y, z) ==> lt(x, z))
    && (forall x, y :: x != y ==> lt(x, y) || lt(y, x))
  }

  /** Ascending order on integer key fields (target ids). */
  predicate IntLt(a: int, b: int) {
    a < b
  }

  /** Lexicographic order on string key fields (canonical ids, document keys). */
  predicate StrLt(a: string, b: string)
    decreases |a|
  {
    if |a| == 0 then |b| > 0
    else if |b| == 0 then false
    else a[0] < b[0] || (a[0] == b[0] && StrLt(a[1..], b[1..]))
  }

  lemma IntLtIsStrictTotalOrder()
    ensures StrictTotalOrder(IntLt)
  {
  }

  lemma StrLtIrreflexive(a: string)
    ensures !StrLt(a, a)
    decreases |a|
  {
    if |a| > 0 {
      StrLtIrreflexive(a[1..]);
    }
  }

  lemma StrLtTransitive(a: string, b: string, c: string)
    requires StrLt(a, b) && StrLt(b, c)
    ensures StrLt(a, c)
    decreases |a|
  {
    if |a| > 0 && a[0] == b[0] && b[0] == c[0] {
      StrLtTransitive(a[1..], b[1..], c[1..]);
    }
  }

  lemma StrLtConnected(a: string, b: string)
    requires a != b
    ensures StrLt(a, b) || StrLt(b, a)
    decreases |a|
  {
    if |a| > 0 && |b| > 0 && a[0] == b[0] {
      assert a == [a[0]] + a[1..] && b == [b[0]] + b[1..];
      StrLtConnected(a[1..], b[1..]);
    }
  }

  lemma StrLtIsStrictTotalOrder()
    ensures StrictTotalOrder(StrLt)
  {
    forall x: string
      ensures !StrLt(x, x)
    {
      StrLtIrreflexive(x);
    }
    forall x: string, y: string, z: string | StrLt(x, y) && StrLt(y, z)
      ensures StrLt(x, z)
    {
      StrLtTransitive(x, y, z);
    }
    forall x: string, y: string | x != y
      ensures StrLt(x, y) || StrLt(y, x)
    {
      StrLtConnected(x, y);
    }
  }

  /** `m` is the least element of `s`. */
  predicate IsLeast<K(==)>(lt: (K, K) -> bool, m: K, s: set<K>) {
    m in s && forall x :: x in s && x != m ==> lt(m, x)
  }

  lemma LeastExists<K(!new)>(lt: (K, K) -> bool, s: set<K>)
    requires StrictTotalOrder(lt)
    requires s != {}
    ensures exists m :: IsLeast(lt, m, s)
    decreases |s|
  {
    var x :| x in s;
    if s - {x} == {} {
      assert s == {x};
      assert IsLeast(lt, x, s);
    } else {
      LeastExists(lt, s - {x});
      var m :| IsLeast(lt, m, s - {x});
      if lt(x, m) {
        forall y | y in s && y != x
          ensures lt(x, y)
        {
          if y != m {
            assert lt(m, y);
          }
        }
        assert IsLeast(lt, x, s);
      } else {
        assert IsLeast(lt, m, s);
      }
    }
  }

  lemma LeastUnique<K(!new)>(lt: (K, K) -> bool, s: set<K>)
    requires StrictTotalOrder(lt)
    ensures forall m, n :: IsLeast(lt, m, s) && IsLeast(lt, n, s) ==> m == n
  {
    forall m, n | IsLeast(lt, m, s) && IsLeast(lt, n, s)
      ensures m == n
    {
    }
  }

  /** The elements of `s` in ascending `lt` order, each exactly once. */
  function SortedBy<K(!new)>(s: set<K>, lt: (K, K) -> bool): (r: seq<K>)
    requires StrictTotalOrder(lt)
    ensures |r| == |s|
    ensures forall x :: x in r <==> x in s
    ensures forall i, j :: 0 <= i < j < |r| ==> lt(r[i], r[j])
    decreases |s|
  {
    if s == {} then []
    else
      LeastExists(lt, s);
      LeastUnique(lt, s);
      var m :| IsLeast(lt, m, s);
      var rest := SortedBy(s - {m}, lt);
      assert forall j :: 0 <= j < |rest| ==> lt(m, rest[j]);
      [m] + rest
  }
}
