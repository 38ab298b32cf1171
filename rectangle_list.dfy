/** yup::RectangleList with integer coordinates: a list of rectangles that
    merges a new rectangle into the first one it overlaps and then makes one
    forward merge pass over the list. An entry grown by a later merge is not
    checked again against the entries already passed, so overlaps can remain
    (MergeFromLeavesOverlap). The Rectangle class itself is not part of this
    model; Rect below gives it the usual half-open meaning. */
module Rectangles {
  import opened Common

  /** A rectangle: origin, width and height. */
  datatype Rect = Rect(x: int, y: int, w: int, h: int)

  function Right(r: Rect): int { r.x + r.w }
  function Bottom(r: Rect): int { r.y + r.h }

  /** Rectangle::contains(x, y): the point lies in the half-open area. */
  predicate PointIn(r: Rect, px: int, py: int)
  {
    r.x <= px < Right(r) && r.y <= py < Bottom(r)
  }

  /** Rectangle::intersects: the two areas overlap. */
  predicate Intersects(a: Rect, b: Rect)
  {
    a.x < Right(b) && b.x < Right(a) && a.y < Bottom(b) && b.y < Bottom(a)
  }

  /** a lies inside q. */
  predicate Encloses(q: Rect, a: Rect)
  {
    q.x <= a.x && Right(a) <= Right(q) && q.y <= a.y && Bottom(a) <= Bottom(q)
  }

  /** Rectangle::smallestContainingRectangle. */
  function Smallest(a: Rect, b: Rect): (r: Rect)
    ensures Encloses(r, a) && Encloses(r, b)
    ensures forall q {:trigger Encloses(q, r)} :: Encloses(q, a) && Encloses(q, b) ==> Encloses(q, r)
  {
    var x := Min(a.x, b.x);
    var y := Min(a.y, b.y);
    Rect(x, y, Max(Right(a), Right(b)) - x, Max(Bottom(a), Bottom(b)) - y)
  }

  /** Rectangle::translate. */
  function Translate(r: Rect, dx: int, dy: int): Rect
  {
    Rect(r.x + dx, r.y + dy, r.w, r.h)
  }

  lemma EnclosedPoint(q: Rect, a: Rect, px: int, py: int)
    requires Encloses(q, a) && PointIn(a, px, py)
    ensures PointIn(q, px, py)
  {
  }

  // ---------------------------------------------------------------------------
  // Queries over a list

  /** contains(x, y): some rectangle contains the point. */
  function ContainsPoint(rs: seq<Rect>, px: int, py: int): (r: bool)
    ensures r <==> exists i :: 0 <= i < |rs| && PointIn(rs[i], px, py)
  {
    if |rs| == 0 then false
    else PointIn(rs[0], px, py) || ContainsPoint(rs[1..], px, py)
  }

  /** intersects(x, y, width, height): some rectangle overlaps the area. */
  function IntersectsAny(rs: seq<Rect>, q: Rect): (r: bool)
    ensures r <==> exists i :: 0 <= i < |rs| && Intersects(rs[i], q)
  {
    if |rs| == 0 then false
    else Intersects(rs[0], q) || IntersectsAny(rs[1..], q)
  }

  /** Every rectangle of ss lies inside some rectangle of rs. */
  ghost predicate Covers(rs: seq<Rect>, ss: seq<Rect>)
  {
    forall k :: 0 <= k < |ss| ==> CoveredBy(rs, ss[k])
  }

  /** a lies inside some rectangle of rs. */
  ghost predicate CoveredBy(rs: seq<Rect>, a: Rect)
  {
    exists m :: 0 <= m < |rs| && Encloses(rs[m], a)
  }

  lemma CoversTransitive(a: seq<Rect>, b: seq<Rect>, c: seq<Rect>)
    requires Covers(a, b) && Covers(b, c)
    ensures Covers(a, c)
  {
    forall k | 0 <= k < |c|
      ensures CoveredBy(a, c[k])
    {
      var j :| 0 <= j < |b| && Encloses(b[j], c[k]);
      var m :| 0 <= m < |a| && Encloses(a[m], b[j]);
      assert Encloses(a[m], c[k]);
    }
  }

  lemma CoversSelf(rs: seq<Rect>)
    ensures Covers(rs, rs)
  {
    forall k | 0 <= k < |rs|
      ensures CoveredBy(rs, rs[k])
    {
      assert Encloses(rs[k], rs[k]);
    }
  }

  /** A covering list keeps every point the covered list contains. */
  lemma CoversKeepsPoints(rs: seq<Rect>, ss: seq<Rect>, px: int, py: int)
    requires Covers(rs, ss)
    ensures ContainsPoint(ss, px, py) ==> ContainsPoint(rs, px, py)
  {
    if ContainsPoint(ss, px, py) {
      var k :| 0 <= k < |ss| && PointIn(ss[k], px, py);
      var m :| 0 <= m < |rs| && Encloses(rs[m], ss[k]);
      EnclosedPoint(rs[m], ss[k], px, py);
    }
  }

  // ---------------------------------------------------------------------------
  // The merge pass

  /** The first index j other than i whose rectangle rs[i] overlaps, or -1. */
  function Partner(rs: seq<Rect>, i: nat): (j: int)
    requires i < |rs|
    ensures -1 <= j < |rs| && j != i
    ensures j >= 0 ==> Intersects(rs[i], rs[j]) && forall k :: 0 <= k < j && k != i ==> !Intersects(rs[i], rs[k])
    ensures j == -1 ==> forall k :: 0 <= k < |rs| && k != i ==> !Intersects(rs[i], rs[k])
  {
    PartnerFrom(rs, i, 0)
  }

  function PartnerFrom(rs: seq<Rect>, i: nat, from: nat): (j: int)
    requires i < |rs| && from <= |rs|
    ensures -1 <= j < |rs| && j != i
    ensures j >= 0 ==> from <= j && Intersects(rs[i], rs[j]) && forall k :: from <= k < j && k != i ==> !Intersects(rs[i], rs[k])
    ensures j == -1 ==> forall k :: from <= k < |rs| && k != i ==> !Intersects(rs[i], rs[k])
    decreases |rs| - from
  {
    if from == |rs| then -1
    else if from != i && Intersects(rs[i], rs[from]) then from
    else PartnerFrom(rs, i, from + 1)
  }

  /** One merge step at i with partner j: rs[j] grows to contain rs[i], and
      rs[i] is erased. */
  function MergeStep(rs: seq<Rect>, i: nat, j: nat): (r: seq<Rect>)
    requires i < |rs| && j < |rs| && i != j
    ensures |r| == |rs| - 1
  {
    var grown := rs[j := Smallest(rs[j], rs[i])];
    grown[..i] + grown[i + 1..]
  }

  /** mergeRectangles from position i on: a rectangle with a partner is merged
      into it and erased (the position stays), one without is passed. */
  function MergeFrom(rs: seq<Rect>, i: nat): seq<Rect>
    decreases |rs|, |rs| - i
  {
    if i >= |rs| then rs
    else
      var j := Partner(rs, i);
      if j >= 0 then MergeFrom(MergeStep(rs, i, j), i) else MergeFrom(rs, i + 1)
  }

  /** One step of the pass at a rectangle without a partner. */
  lemma MergeFromPasses(rs: seq<Rect>, i: nat)
    requires i < |rs| && forall k :: 0 <= k < |rs| && k != i ==> !Intersects(rs[i], rs[k])
    ensures MergeFrom(rs, i) == MergeFrom(rs, i + 1)
  {
    assert Partner(rs, i) == -1;
  }

  /** One step of the pass at a rectangle whose first partner is j. */
  lemma MergeFromMerges(rs: seq<Rect>, i: nat, j: nat)
    requires i < |rs| && j < |rs| && j != i && Intersects(rs[i], rs[j])
    requires forall k :: 0 <= k < j && k != i ==> !Intersects(rs[i], rs[k])
    ensures MergeFrom(rs, i) == MergeFrom(MergeStep(rs, i, j), i)
  {
    assert Partner(rs, i) == j;
  }

  /** The pass is a single one. Over four rectangles where the first two have
      no partner and the third meets only the fourth, the third merges into the
      fourth, the grown rectangle then absorbs the first, and the second,
      already passed, is not looked at again: when the grown rectangle meets it,
      the result still holds an overlapping pair. OverlapWitness gives four such
      rectangles. */
  lemma MergeFromLeavesOverlap(rs: seq<Rect>)
    requires |rs| == 4
    requires forall k :: 0 <= k < |rs| && k != 0 ==> !Intersects(rs[0], rs[k])
    requires forall k :: 0 <= k < |rs| && k != 1 ==> !Intersects(rs[1], rs[k])
    requires !Intersects(rs[2], rs[0]) && !Intersects(rs[2], rs[1]) && Intersects(rs[2], rs[3])
    requires Intersects(Smallest(rs[3], rs[2]), rs[0]) && Intersects(Smallest(rs[3], rs[2]), rs[1])
    ensures var r := MergeFrom(rs, 0);
            && r == [Smallest(rs[0], Smallest(rs[3], rs[2])), rs[1]]
            && Intersects(r[0], r[1])
  {
    var s1 := MergeStep(rs, 2, 3);
    assert s1 == [rs[0], rs[1], Smallest(rs[3], rs[2])];
    var s2 := MergeStep(s1, 2, 0);
    assert s2 == [Smallest(rs[0], Smallest(rs[3], rs[2])), rs[1]];
    MergeFromPasses(rs, 0);
    MergeFromPasses(rs, 1);
    MergeFromMerges(rs, 2, 3);
    MergeFromMerges(s1, 2, 0);
  }

  /** Four rectangles that meet the conditions of MergeFromLeavesOverlap, taken
      in order: (0,0,1,1), (3,3,1,1), (0,5,10,1) and (9,0,1,10). Whatever
      encloses the last two covers (0,0,10,10), so it meets the first two. */
  lemma OverlapWitness(a: Rect, b: Rect, c: Rect, d: Rect)
    requires a == Rect(0, 0, 1, 1) && b == Rect(3, 3, 1, 1) && c == Rect(0, 5, 10, 1) && d == Rect(9, 0, 1, 10)
    ensures !Intersects(a, b) && !Intersects(a, c) && !Intersects(a, d)
    ensures !Intersects(b, a) && !Intersects(b, c) && !Intersects(b, d)
    ensures !Intersects(c, a) && !Intersects(c, b) && Intersects(c, d)
    ensures Intersects(Smallest(d, c), a) && Intersects(Smallest(d, c), b)
  {
    var g := Smallest(d, c);
    assert Encloses(g, d) && Encloses(g, c);
  }

  /** A merge step loses no area: the result covers the list before it. */
  lemma MergeStepCovers(rs: seq<Rect>, i: nat, j: nat)
    requires i < |rs| && j < |rs| && i != j
    ensures Covers(MergeStep(rs, i, j), rs)
  {
    var r := MergeStep(rs, i, j);
    var s := Smallest(rs[j], rs[i]);
    var jj := if j < i then j else j - 1;
    assert r[jj] == s;
    forall k | 0 <= k < |rs|
      ensures CoveredBy(r, rs[k])
    {
      if k == i || k == j {
        assert Encloses(r[jj], rs[k]);
      } else {
        var kk := if k < i then k else k - 1;
        assert r[kk] == rs[k];
        assert Encloses(r[kk], rs[k]);
      }
    }
  }

  /** Merging never adds rectangles and loses no area. */
  lemma {:induction false} MergeFromCovers(rs: seq<Rect>, i: nat)
    ensures |MergeFrom(rs, i)| <= |rs|
    ensures Covers(MergeFrom(rs, i), rs)
    decreases |rs|, |rs| - i
  {
    if i >= |rs| {
      CoversSelf(rs);
    } else {
      var j := Partner(rs, i);
      if j >= 0 {
        var next := MergeStep(rs, i, j);
        MergeFromCovers(next, i);
        MergeStepCovers(rs, i, j);
        CoversTransitive(MergeFrom(next, i), next, rs);
      } else {
        MergeFromCovers(rs, i + 1);
      }
    }
  }

  /** A list without any overlapping pair is left as it is. */
  lemma {:induction false} MergeFromDisjoint(rs: seq<Rect>, i: nat)
    requires forall a, b :: 0 <= a < |rs| && 0 <= b < |rs| && a != b ==> !Intersects(rs[a], rs[b])
    ensures MergeFrom(rs, i) == rs
    decreases |rs| - i
  {
    if i < |rs| {
      MergeFromDisjoint(rs, i + 1);
    }
  }

  /** The first rectangle newRect overlaps, or -1. */
  function FirstIntersecting(rs: seq<Rect>, newRect: Rect): (k: int)
    ensures -1 <= k < |rs|
    ensures k >= 0 ==> Intersects(rs[k], newRect) && forall m :: 0 <= m < k ==> !Intersects(rs[m], newRect)
    ensures k == -1 ==> forall m :: 0 <= m < |rs| ==> !Intersects(rs[m], newRect)
  {
    if |rs| == 0 then -1
    else if Intersects(rs[0], newRect) then 0
    else
      var k := FirstIntersecting(rs[1..], newRect);
      if k == -1 then -1 else k + 1
  }

  /** add: merge into the first overlapped rectangle and re-merge, or add
      without merging when nothing overlaps. */
  function Added(rs: seq<Rect>, newRect: Rect): seq<Rect>
  {
    var k := FirstIntersecting(rs, newRect);
    if k >= 0 then MergeFrom(rs[k := Smallest(rs[k], newRect)], 0) else AddIfAbsent(rs, newRect)
  }

  /** add loses no area: the old rectangles and the new one all lie inside
      rectangles of the result, so every point contained before, or in the new
      rectangle, is contained after. With an overlap the count does not grow;
      without one add is addWithoutMerge. */
  lemma AddedCovers(rs: seq<Rect>, newRect: Rect)
    ensures Covers(Added(rs, newRect), rs + [newRect])
    ensures FirstIntersecting(rs, newRect) >= 0 ==> |Added(rs, newRect)| <= |rs|
    ensures FirstIntersecting(rs, newRect) == -1 ==> Added(rs, newRect) == AddIfAbsent(rs, newRect)
  {
    var k := FirstIntersecting(rs, newRect);
    var all := rs + [newRect];
    if k >= 0 {
      var grown := rs[k := Smallest(rs[k], newRect)];
      MergeFromCovers(grown, 0);
      forall t | 0 <= t < |all|
        ensures CoveredBy(grown, all[t])
      {
        if t == |rs| || t == k {
          assert Encloses(grown[k], all[t]);
        } else {
          assert Encloses(grown[t], all[t]);
        }
      }
      CoversTransitive(Added(rs, newRect), grown, all);
    } else {
      var r := AddIfAbsent(rs, newRect);
      forall t | 0 <= t < |all|
        ensures CoveredBy(r, all[t])
      {
        if t < |rs| {
          assert r[t] == all[t];
          assert Encloses(r[t], all[t]);
        } else {
          var m := IndexOf(r, newRect);
          assert Encloses(r[m], all[t]);
        }
      }
    }
  }

  /** Moving every rectangle moves every contained point by the same amount. */
  lemma OffsetMovesPoints(rs: seq<Rect>, dx: int, dy: int, px: int, py: int)
    ensures ContainsPoint(seq(|rs|, i requires 0 <= i < |rs| => Translate(rs[i], dx, dy)), px + dx, py + dy)
            <==> ContainsPoint(rs, px, py)
  {
    var moved := seq(|rs|, i requires 0 <= i < |rs| => Translate(rs[i], dx, dy));
    if ContainsPoint(rs, px, py) {
      var k :| 0 <= k < |rs| && PointIn(rs[k], px, py);
      assert PointIn(moved[k], px + dx, py + dy);
    }
    if ContainsPoint(moved, px + dx, py + dy) {
      var k :| 0 <= k < |moved| && PointIn(moved[k], px + dx, py + dy);
      assert PointIn(rs[k], px, py);
    }
  }

  // ---------------------------------------------------------------------------
  // The list object

  class RectangleList {
    var rectangles: seq<Rect>

    /** The default constructor: an empty list. */
    constructor ()
      ensures rectangles == []
    {
      rectangles := [];
    }

    /** The initializer-list constructor: the given rectangles as they are. */
    constructor FromRectangles(rects: seq<Rect>)
      ensures rectangles == rects
    {
      rectangles := rects;
    }

    /** add. */
    method Add(newRect: Rect)
      modifies this
      ensures rectangles == Added(old(rectangles), newRect)
    {
      var k := 0;
      var merged := false;
      while k < |rectangles|
        invariant 0 <= k <= |rectangles| && rectangles == old(rectangles)
        invariant forall m :: 0 <= m < k ==> !Intersects(rectangles[m], newRect)
      {
        if Intersects(rectangles[k], newRect) {
          merged := true;
          break;
        }
        k := k + 1;
      }
      if !merged {
        AddWithoutMerge(newRect);
      } else {
        assert FirstIntersecting(rectangles, newRect) == k;
        rectangles := rectangles[k := Smallest(rectangles[k], newRect)];
        MergeRectangles();
      }
    }

    /** addWithoutMerge: appended only when no equal rectangle is present. */
    method AddWithoutMerge(newRect: Rect)
      modifies this
      ensures rectangles == AddIfAbsent(old(rectangles), newRect)
      ensures NoDup(old(rectangles)) ==> NoDup(rectangles)
    {
      if NoDup(rectangles) {
        AddIfAbsentKeepsNoDup(rectangles, newRect);
      }
      if newRect !in rectangles {
        rectangles := rectangles + [newRect];
      }
    }

    /** mergeRectangles: the iterator position stays after an erase and
        advances otherwise; the inner loop looks for the first partner. */
    method MergeRectangles()
      modifies this
      ensures rectangles == MergeFrom(old(rectangles), 0)
    {
      var i := 0;
      while i < |rectangles|
        invariant MergeFrom(rectangles, i) == MergeFrom(old(rectangles), 0)
        decreases |rectangles|, |rectangles| - i
      {
        var j := 0;
        while j < |rectangles| && !(j != i && Intersects(rectangles[i], rectangles[j]))
          invariant 0 <= j <= |rectangles|
          invariant PartnerFrom(rectangles, i, j) == Partner(rectangles, i)
        {
          j := j + 1;
        }
        var found := if j < |rectangles| then j else -1;
        if found >= 0 {
          rectangles := MergeStep(rectangles, i, found);
        } else {
          i := i + 1;
        }
      }
    }

    /** remove: every equal rectangle goes, the others keep their order. */
    method Remove(rect: Rect)
      modifies this
      ensures rectangles == RemoveAll(old(rectangles), rect)
      ensures rect !in rectangles
      ensures forall i :: 0 <= i < |old(rectangles)| && old(rectangles)[i] != rect ==> old(rectangles)[i] in rectangles
    {
      rectangles := RemoveAll(rectangles, rect);
    }

    /** isEmpty. */
    predicate IsEmpty()
      reads this
    {
      |rectangles| == 0
    }

    /** getNumRectangles. */
    function GetNumRectangles(): (n: nat)
      reads this
      ensures n == 0 <==> IsEmpty()
    {
      |rectangles|
    }

    /** clear. */
    method Clear()
      modifies this
      ensures IsEmpty() && GetNumRectangles() == 0
    {
      rectangles := [];
    }

    /** contains(rect): an equal rectangle is in the list. */
    predicate ContainsRect(rect: Rect)
      reads this
    {
      rect in rectangles
    }

    /** contains(x, y). */
    function Contains(px: int, py: int): (r: bool)
      reads this
      ensures r <==> exists i :: 0 <= i < |rectangles| && PointIn(rectangles[i], px, py)
    {
      ContainsPoint(rectangles, px, py)
    }

    /** intersects(x, y, width, height) and intersects(rect). */
    function IntersectsRect(q: Rect): (r: bool)
      reads this
      ensures r <==> exists i :: 0 <= i < |rectangles| && Intersects(rectangles[i], q)
    {
      IntersectsAny(rectangles, q)
    }

    /** getRectangle: Array::operator[] gives a default rectangle outside the
        range. */
    function GetRectangle(index: int): (r: Rect)
      reads this
      ensures 0 <= index < |rectangles| ==> r == rectangles[index]
      ensures !(0 <= index < |rectangles|) ==> r == Rect(0, 0, 0, 0)
    {
      if 0 <= index < |rectangles| then rectangles[index] else Rect(0, 0, 0, 0)
    }

    /** offset: every rectangle translated in place, count and order kept. */
    method Offset(dx: int, dy: int)
      modifies this
      ensures |rectangles| == |old(rectangles)|
      ensures forall i :: 0 <= i < |rectangles| ==> rectangles[i] == Translate(old(rectangles)[i], dx, dy)
    {
      var i := 0;
      while i < |rectangles|
        invariant 0 <= i <= |rectangles| == |old(rectangles)|
        invariant forall k :: 0 <= k < i ==> rectangles[k] == Translate(old(rectangles)[k], dx, dy)
        invariant forall k :: i <= k < |rectangles| ==> rectangles[k] == old(rectangles)[k]
      {
        rectangles := rectangles[i := Translate(rectangles[i], dx, dy)];
        i := i + 1;
      }
    }
  }
}
