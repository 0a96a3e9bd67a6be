/**
  The order of every task listing: position ascending, then creation time
  descending, optionally cut to the first `n` rows. The store does not say
  how rows that tie on both keys are ordered, so the listing below fixes
  some order and everything stated about it holds for any tie-break.
 */
module Ordering {
  import opened Models

  /** `a` may be listed before `b`. A total preorder. */
  predicate Before(a: View, b: View)
  {
    a.position < b.position || (a.position == b.position && a.created >= b.created)
  }

  predicate Sorted(r: seq<View>)
  {
    forall i, j :: 0 <= i < j < |r| ==> Before(r[i], r[j])
  }

  ghost predicate IsFirst(m: View, s: set<View>)
  {
    m in s && forall v :: v in s ==> Before(m, v)
  }

  lemma {:induction false} FirstExists(s: set<View>)
    requires s != {}
    ensures exists m :: IsFirst(m, s)
    decreases |s|
  {
    var x :| x in s;
    if s - {x} == {} {
      assert s == {x};
      assert IsFirst(x, s);
    } else {
      FirstExists(s - {x});
      var m :| IsFirst(m, s - {x});
      if Before(m, x) {
        assert IsFirst(m, s);
      } else {
        forall v | v in s
          ensures Before(x, v)
        {
          if v != x {
            assert Before(m, v);
          }
        }
        assert IsFirst(x, s);
      }
    }
  }

  /** The rows of `s` in listing order, each exactly once. */
  ghost function SortViews(s: set<View>): (r: seq<View>)
    ensures |r| == |s|
    ensures forall v :: v in r <==> v in s
    ensures Sorted(r)
    ensures forall i, j :: 0 <= i < j < |r| ==> r[i] != r[j]
    decreases |s|
  {
    if s == {} then []
    else
      FirstExists(s);
      var m :| IsFirst(m, s);
      [m] + SortViews(s - {m})
  }

  /** The first `n` rows (SQL's LIMIT). */
  function Take(r: seq<View>, n: nat): (t: seq<View>)
    ensures |t| == if |r| <= n then |r| else n
    ensures t == r[..|t|]
    ensures forall v :: v in t ==> v in r
  {
    if |r| <= n then r else r[..n]
  }

  /**
    A limited listing keeps the best rows: whatever of `s` it leaves out
    comes after everything it keeps.
   */
  lemma {:induction false} TakeKeepsFirst(s: set<View>, n: nat, v: View)
    requires v in s && v !in Take(SortViews(s), n)
    ensures forall w :: w in Take(SortViews(s), n) ==> Before(w, v)
  {
    var r := SortViews(s);
    var t := Take(r, n);
    var k :| 0 <= k < |r| && r[k] == v;
    assert k >= |t|;
    forall w | w in t
      ensures Before(w, v)
    {
      var i :| 0 <= i < |t| && t[i] == w;
      assert r[i] == w;
    }
  }

  /** A listing that is not cut holds every row of `s`. */
  lemma TakeAll(s: set<View>, n: nat)
    requires |s| <= n
    ensures Take(SortViews(s), n) == SortViews(s)
  {
  }
}
