/** The ordering step of `_spline_interpolation`: `sorted(points, key=x)`. */
module SplineOrder {
  import opened Samples

  /** Abscissas ascend (ties allowed). */
  predicate SortedByX(s: seq<Point>)
  {
    forall i, j :: 0 <= i < j < |s| ==> s[i].0 <= s[j].0
  }

  /** Inserts `p` in front of the first point whose abscissa is not smaller,
      which keeps equal keys in their input order as Python's stable sort
      does. */
  function Insert(p: Point, s: seq<Point>): (r: seq<Point>)
    ensures |r| == |s| + 1
    ensures multiset(r) == multiset(s) + multiset{p}
  {
    if |s| == 0 then [p]
    else if p.0 <= s[0].0 then [p] + s
    else
      assert s == [s[0]] + s[1..];
      [s[0]] + Insert(p, s[1..])
  }

  /** `sorted(points, key=lambda p: p[0])`, as an insertion sort. */
  function SortByX(pts: seq<Point>): (r: seq<Point>)
    ensures |r| == |pts| && multiset(r) == multiset(pts)
    ensures SortedByX(r)
  {
    if |pts| == 0 then []
    else
      var rest := SortByX(pts[1..]);
      assert pts == [pts[0]] + pts[1..];
      InsertSorted(pts[0], rest);
      Insert(pts[0], rest)
  }

  /** Every point of `Insert(p, s)` is `p` or a point of `s`, and back. */
  lemma InsertMembers(p: Point, s: seq<Point>)
    ensures forall q :: q in Insert(p, s) <==> q == p || q in s
  {
    var r := Insert(p, s);
    forall q
      ensures q in r <==> q == p || q in s
    {
      assert q in r <==> q in multiset(r);
      assert q in s <==> q in multiset(s);
    }
  }

  /** Insertion keeps an ascending sequence ascending. */
  lemma {:induction false} InsertSorted(p: Point, s: seq<Point>)
    requires SortedByX(s)
    ensures SortedByX(Insert(p, s))
  {
    if |s| > 0 && p.0 > s[0].0 {
      var rest := Insert(p, s[1..]);
      InsertSorted(p, s[1..]);
      InsertMembers(p, s[1..]);
      forall k | 0 <= k < |rest|
        ensures s[0].0 <= rest[k].0
      {
        assert rest[k] in rest;
      }
    }
  }

  /** The first point's abscissa is not repeated in the rest, and the rest
      keeps distinct abscissas. */
  lemma DistinctTail(pts: seq<Point>)
    requires |pts| >= 1 && DistinctX(pts)
    ensures DistinctX(pts[1..])
    ensures forall q :: q in pts[1..] ==> q.0 != pts[0].0
  {
    forall q | q in pts[1..]
      ensures q.0 != pts[0].0
    {
      var k :| 0 <= k < |pts[1..]| && pts[1..][k] == q;
      assert pts[k + 1] == q;
    }
  }

  /** Inserting a point whose abscissa is new keeps abscissas distinct. */
  lemma {:induction false} InsertKeepsDistinct(p: Point, s: seq<Point>)
    requires DistinctX(s) && forall q :: q in s ==> q.0 != p.0
    ensures DistinctX(Insert(p, s))
  {
    if |s| > 0 && p.0 > s[0].0 {
      DistinctTail(s);
      assert forall q :: q in s[1..] ==> q in s;
      InsertKeepsDistinct(p, s[1..]);
      var r := Insert(p, s[1..]);
      InsertMembers(p, s[1..]);
      assert forall q :: q in r ==> q.0 != s[0].0;
    }
  }

  /** Sorting keeps abscissas distinct. */
  lemma {:induction false} SortKeepsDistinct(pts: seq<Point>)
    requires DistinctX(pts)
    ensures DistinctX(SortByX(pts))
  {
    if |pts| > 0 {
      var rest := SortByX(pts[1..]);
      DistinctTail(pts);
      SortKeepsDistinct(pts[1..]);
      forall q | q in rest
        ensures q.0 != pts[0].0
      {
        assert q in multiset(rest);
        assert q in multiset(pts[1..]);
      }
      InsertKeepsDistinct(pts[0], rest);
    }
  }

  /** Points sorted by distinct abscissas ascend strictly. */
  lemma StrictlyAscending(s: seq<Point>)
    requires SortedByX(s) && DistinctX(s)
    ensures forall i, j :: 0 <= i < j < |s| ==> s[i].0 < s[j].0
  {
  }

  /** Dropping the first point keeps a sequence ascending with distinct
      abscissas. */
  lemma TailAscending(a: seq<Point>)
    requires |a| >= 1 && SortedByX(a) && DistinctX(a)
    ensures SortedByX(a[1..]) && DistinctX(a[1..])
  {
  }

  /** Two strictly ascending arrangements of the same points start with the
      same point. */
  lemma SameFirst(a: seq<Point>, b: seq<Point>)
    requires |a| >= 1 && |b| >= 1
    requires SortedByX(a) && DistinctX(a) && SortedByX(b)
    requires multiset(a) == multiset(b)
    ensures a[0] == b[0]
  {
    assert a[0] in multiset(b);
    var j :| 0 <= j < |b| && b[j] == a[0];
    assert b[0] in multiset(a);
    var i :| 0 <= i < |a| && a[i] == b[0];
    assert b[0].0 <= b[j].0;
    if i != 0 {
      assert false;
    }
  }

  /** Removing the same first point from equal multisets leaves equal
      multisets. */
  lemma SameRest(a: seq<Point>, b: seq<Point>)
    requires |a| >= 1 && |b| >= 1 && a[0] == b[0]
    requires multiset(a) == multiset(b)
    ensures multiset(a[1..]) == multiset(b[1..])
  {
    assert a == [a[0]] + a[1..] && b == [b[0]] + b[1..];
    assert multiset(a[1..]) == multiset(a) - multiset{a[0]};
    assert multiset(b[1..]) == multiset(b) - multiset{b[0]};
  }

  /** Two arrangements of the same points that both ascend strictly are the
      same sequence. */
  lemma {:induction false} StrictArrangementUnique(a: seq<Point>, b: seq<Point>)
    requires SortedByX(a) && DistinctX(a) && SortedByX(b) && DistinctX(b)
    requires multiset(a) == multiset(b)
    ensures a == b
  {
    assert |a| == |multiset(a)| == |multiset(b)| == |b|;
    if |a| > 0 {
      SameFirst(a, b);
      SameRest(a, b);
      TailAscending(a);
      TailAscending(b);
      StrictArrangementUnique(a[1..], b[1..]);
      assert a == [a[0]] + a[1..] && b == [b[0]] + b[1..];
    }
  }

  /** The order in which the caller lists the points does not matter: any
      two listings of the same points sort to the same knot sequence. */
  lemma SortIgnoresInputOrder(p: seq<Point>, q: seq<Point>)
    requires DistinctX(p) && DistinctX(q) && multiset(p) == multiset(q)
    ensures SortByX(p) == SortByX(q)
  {
    SortKeepsDistinct(p);
    SortKeepsDistinct(q);
    StrictArrangementUnique(SortByX(p), SortByX(q));
  }
}
