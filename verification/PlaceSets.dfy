/**
 The set of definitely initialised places that the code updates in place, and the
 splitting and merging of places that keep it canonical.
 */
module PlaceSets {
  import opened Places
  import opened CanonicalSets

  // ----- splitting a place -----

  /** What remains of `minuend`, split down to the level of `subtrahend`, without `subtrahend`. */
  ghost function Expanded(locals: Locals, minuend: Place, subtrahend: Place): set<Place>
    requires Valid(locals, subtrahend) && IsPrefix(subtrahend, minuend)
    decreases |subtrahend.projection|
  {
    if subtrahend == minuend then {}
    else Siblings(locals, subtrahend) + Expanded(locals, minuend, Parent(subtrahend))
  }

  method ExpandStructPlace(locals: Locals, place: Place, withoutField: nat) returns (places: seq<Place>)
    requires Valid(locals, place) && TypeOf(locals, place).Struct?
    ensures forall p :: p in places <==>
                          exists e :: e in Elems(TypeOf(locals, place)) && e != Field(withoutField) &&
                                      p == Child(place, e)
  {
    places := [];
    var fields := TypeOf(locals, place).fields;
    for index := 0 to |fields|
      invariant forall p :: p in places <==>
                              exists i: nat :: i < index && i != withoutField && p == Child(place, Field(i))
    {
      if index != withoutField {
        places := places + [Child(place, Field(index))];
      }
    }
    forall p
      ensures p in places <==>
              exists e :: e in Elems(Struct(fields)) && e != Field(withoutField) && p == Child(place, e)
    {
      if p in places {
        var i: nat :| i < |fields| && i != withoutField && p == Child(place, Field(i));
        assert Elems(Struct(fields))[i] == Field(i);
      }
    }
  }

  /** One step from `current` towards `guide`, and the places split off by it. */
  method ExpandOneLevel(locals: Locals, current: Place, guide: Place) returns (next: Place, others: seq<Place>)
    requires Valid(locals, guide) && IsPrefix(guide, current) && current != guide
    ensures next == Child(current, guide.projection[|current.projection|])
    ensures Valid(locals, next) && IsPrefix(guide, next)
    ensures forall p :: p in others <==> p in Siblings(locals, next)
  {
    ghost var e := StrictPrefixChild(locals, guide, current);
    ChildFacts(locals, current, e);
    var step := guide.projection[|current.projection|];
    match step {
      case Field(i) =>
        others := ExpandStructPlace(locals, current, i);
      case Deref =>
        others := [];
        assert forall d :: d in Elems(TypeOf(locals, current)) ==> d == Deref;
    }
    next := Child(current, step);
  }

  method Expand(locals: Locals, minuend: Place, subtrahend: Place) returns (places: seq<Place>)
    requires Valid(locals, subtrahend) && IsPrefix(subtrahend, minuend)
    ensures forall p :: p in places <==> p in Expanded(locals, minuend, subtrahend)
  {
    places := [];
    var current := minuend;
    PrefixValid(locals, subtrahend, minuend);
    while |current.projection| < |subtrahend.projection|
      invariant IsPrefix(subtrahend, current) && IsPrefix(current, minuend) && Valid(locals, current)
      invariant forall p :: p in places <==> p in Expanded(locals, minuend, current)
    {
      var next, others := ExpandOneLevel(locals, current, subtrahend);
      assert Parent(next) == current by { ChildFacts(locals, current, Last(next)); }
      assert next != minuend;
      current := next;
      places := places + others;
    }
    assert current.projection == subtrahend.projection;
  }

  /** Splitting is exact: it covers what is below `minuend` but not below `subtrahend`. */
  lemma {:induction false} ExpandedLeaves(locals: Locals, minuend: Place, subtrahend: Place, l: Place)
    requires Valid(locals, subtrahend) && IsPrefix(subtrahend, minuend) && IsLeaf(locals, l)
    ensures Covers(Expanded(locals, minuend, subtrahend), l) <==> IsPrefix(l, minuend) && !IsPrefix(l, subtrahend)
    decreases |subtrahend.projection|
  {
    if subtrahend != minuend {
      var up := Parent(subtrahend);
      ParentFacts(locals, subtrahend);
      assert IsPrefix(up, minuend);
      ExpandedLeaves(locals, minuend, up, l);
      SiblingLeaves(locals, subtrahend, l);
      var all, upper := Expanded(locals, minuend, subtrahend), Expanded(locals, minuend, up);
      assert Covers(all, l) <==> Covers(Siblings(locals, subtrahend), l) || Covers(upper, l);
      assert IsPrefix(subtrahend, up);
      if IsPrefix(l, subtrahend) {
        assert up.projection <= subtrahend.projection <= l.projection;
      }
      if IsPrefix(l, up) {
        assert minuend.projection <= up.projection <= l.projection;
      }
    }
  }

  lemma SiblingLeaves(locals: Locals, p: Place, l: Place)
    requires p.projection != [] && Valid(locals, p) && IsLeaf(locals, l)
    ensures Covers(Siblings(locals, p), l) <==> IsPrefix(l, Parent(p)) && !IsPrefix(l, p)
  {
    var up := Parent(p);
    ParentFacts(locals, p);
    ChildPrefix(up, up, Last(p));
    if Covers(Siblings(locals, p), l) {
      var q :| q in Siblings(locals, p) && IsPrefix(l, q);
      var e :| e in Elems(TypeOf(locals, up)) && e != Last(p) && q == Child(up, e);
      ChildPrefix(up, up, e);
      assert up.projection <= q.projection <= l.projection;
      if IsPrefix(l, p) {
        ChildrenDisjoint(l, up, e, Last(p));
      }
    }
    if IsPrefix(l, up) && !IsPrefix(l, p) {
      assert l != up;
      var e := StrictPrefixChild(locals, l, up);
      assert Child(up, e) in Siblings(locals, p);
    }
  }

  lemma {:induction false} ExpandedMember(locals: Locals, minuend: Place, subtrahend: Place, p: Place)
    requires Valid(locals, subtrahend) && IsPrefix(subtrahend, minuend)
    requires p in Expanded(locals, minuend, subtrahend)
    ensures Valid(locals, p) && IsPrefix(p, minuend) && p != minuend
    ensures !IsPrefix(p, subtrahend) && !IsPrefix(subtrahend, p)
    ensures p.projection != [] && IsPrefix(subtrahend, Parent(p)) && IsPrefix(Parent(p), minuend)
    decreases |subtrahend.projection|
  {
    var up := Parent(subtrahend);
    ParentFacts(locals, subtrahend);
    ChildPrefix(up, up, Last(subtrahend));
    assert IsPrefix(up, minuend);
    if p in Siblings(locals, subtrahend) {
      var e :| e in Elems(TypeOf(locals, up)) && e != Last(subtrahend) && p == Child(up, e);
      ChildFacts(locals, up, e);
      ChildPrefix(up, up, e);
      assert minuend.projection <= up.projection <= p.projection;
      assert |p.projection| == |subtrahend.projection|;
    } else {
      ExpandedMember(locals, minuend, up, p);
      PrefixOrder(p, subtrahend, up);
      ChildPrefix(p, up, Last(subtrahend));
      assert Parent(p).projection <= up.projection <= subtrahend.projection;
    }
  }

  // ----- removing a place -----

  /** The places left of `places` once nothing below `place` may be covered any more. */
  ghost function Removed(locals: Locals, places: set<Place>, place: Place): set<Place>
    requires Valid(locals, place)
  {
    (set q | q in places && !IsPrefix(place, q) && !IsPrefix(q, place))
    + (set q, r | q in places && IsPrefix(place, q) && r in Expanded(locals, q, place) :: r)
  }

  lemma RemovedLeaf(locals: Locals, places: set<Place>, place: Place, l: Place)
    requires Valid(locals, place) && IsLeaf(locals, l) && WellTyped(locals, places)
    ensures Covers(Removed(locals, places, place), l) <==> Covers(places, l) && !IsPrefix(l, place)
  {
    var s := Removed(locals, places, place);
    if Covers(s, l) {
      var r :| r in s && IsPrefix(l, r);
      if r in places && !IsPrefix(place, r) && !IsPrefix(r, place) {
        if IsPrefix(l, place) {
          PrefixesComparable(l, place, r);
          assert false;
        }
      } else {
        var q :| q in places && IsPrefix(place, q) && r in Expanded(locals, q, place);
        ExpandedLeaves(locals, q, place, l);
      }
    }
    if Covers(places, l) && !IsPrefix(l, place) {
      var q :| q in places && IsPrefix(l, q);
      if IsPrefix(place, q) {
        ExpandedLeaves(locals, q, place, l);
        var r :| r in Expanded(locals, q, place) && IsPrefix(l, r);
        assert r in s;
      } else {
        PrefixOrder(l, q, place);
        assert q in s;
      }
    }
  }

  /** Each remaining place is a listed one, or a part split off a listed one on the way to `place`. */
  lemma RemovedMember(locals: Locals, places: set<Place>, place: Place, r: Place) returns (q: Place)
    requires Valid(locals, place) && WellTyped(locals, places)
    requires r in Removed(locals, places, place)
    ensures Valid(locals, r) && !IsPrefix(place, r) && !IsPrefix(r, place)
    ensures q in places && IsPrefix(r, q)
    ensures r != q ==> IsPrefix(place, q) && r.projection != [] && IsPrefix(place, Parent(r)) && IsPrefix(Parent(r), q)
  {
    if r in places && !IsPrefix(place, r) && !IsPrefix(r, place) {
      q := r;
    } else {
      q :| q in places && IsPrefix(place, q) && r in Expanded(locals, q, place);
      ExpandedMember(locals, q, place, r);
    }
  }

  lemma RemovedConsistent(locals: Locals, places: set<Place>, place: Place)
    requires Valid(locals, place) && Consistent(locals, places)
    ensures Consistent(locals, Removed(locals, places, place))
  {
    var s := Removed(locals, places, place);
    forall r | r in s
      ensures Valid(locals, r)
    {
      var q := RemovedMember(locals, places, place, r);
    }
    forall r, r' | r in s && r' in s && IsPrefix(r, r')
      ensures r == r'
    {
      var q := RemovedMember(locals, places, place, r);
      var q' := RemovedMember(locals, places, place, r');
      assert q'.projection <= r'.projection <= r.projection;
      PrefixesComparable(r, q, q');
      assert q == q';
      if r.projection != [] {
        ParentFacts(locals, r);
        ChildPrefix(r', Parent(r), Last(r));
        PrefixOrder(place, Parent(r), r');
      }
    }
  }

  lemma RemovedIncomplete(locals: Locals, places: set<Place>, place: Place, q: Place)
    requires Valid(locals, place) && Canonical(locals, places)
    ensures !Complete(locals, Removed(locals, places, place), q)
  {
    var s := Removed(locals, places, place);
    if Complete(locals, s, q) {
      assert !Complete(locals, places, q);
      var e :| e in Elems(TypeOf(locals, q)) && Child(q, e) !in places;
      ChildFacts(locals, q, e);
      var top := RemovedMember(locals, places, place, Child(q, e));
      assert IsPrefix(place, q);
      // `q` lies on the way to `place`, so one of its parts has been split further.
      if q == place {
        ChildPrefix(q, q, e);
        assert false;
      }
      var d := StrictPrefixChild(locals, place, q);
      var _ := RemovedMember(locals, places, place, Child(q, d));
      assert false;
    }
  }

  lemma RemovedExact(locals: Locals, places: set<Place>, place: Place)
    requires Valid(locals, place) && Consistent(locals, places)
    ensures Consistent(locals, Removed(locals, places, place))
    ensures Leaves(locals, Removed(locals, places, place)) == Leaves(locals, places) - LeavesBelow(locals, place)
    ensures Canonical(locals, places) ==> Canonical(locals, Removed(locals, places, place))
    ensures forall r :: r in Removed(locals, places, place) ==> !IsPrefix(place, r) && !IsPrefix(r, place)
  {
    RemovedConsistent(locals, places, place);
    forall r | r in Removed(locals, places, place)
      ensures !IsPrefix(place, r) && !IsPrefix(r, place)
    {
      var _ := RemovedMember(locals, places, place, r);
    }
    forall l | l in AllLeaves(locals)
      ensures Covers(Removed(locals, places, place), l) <==> Covers(places, l) && l !in LeavesBelow(locals, place)
    {
      AllLeavesExact(locals, l);
      LeavesBelowExact(locals, place, l);
      RemovedLeaf(locals, places, place, l);
    }
    if Canonical(locals, places) {
      forall q
        ensures !Complete(locals, Removed(locals, places, place), q)
      {
        RemovedIncomplete(locals, places, place, q);
      }
    }
  }

  // ----- merging the parts of a place -----

  ghost predicate CompleteOnlyAbove(locals: Locals, places: set<Place>, p: Place) {
    forall q :: Complete(locals, places, q) ==> IsPrefix(p, q) && q != p
  }

  ghost function Parts(locals: Locals, q: Place): set<Place>
    requires Valid(locals, q)
  {
    set e | e in Elems(TypeOf(locals, q)) :: Child(q, e)
  }

  /** Replacing all parts of `q` by `q` itself changes neither the leaves nor the invariant. */
  lemma MergeExact(locals: Locals, places: set<Place>, q: Place)
    requires Consistent(locals, places) && Complete(locals, places, q)
    ensures Consistent(locals, places - Parts(locals, q) + {q})
    ensures Leaves(locals, places - Parts(locals, q) + {q}) == Leaves(locals, places)
  {
    var merged := places - Parts(locals, q) + {q};
    forall p | p in places && p !in Parts(locals, q)
      ensures !IsPrefix(p, q) && !IsPrefix(q, p)
    {
      var first := Elems(TypeOf(locals, q))[0];
      ChildPrefix(p, q, first);
      PrefixOrder(Child(q, first), q, p);
      if IsPrefix(p, q) && p != q {
        var e := StrictPrefixChild(locals, p, q);
        assert false;
      }
    }
    forall l | l in AllLeaves(locals)
      ensures Covers(merged, l) <==> Covers(places, l)
    {
      AllLeavesExact(locals, l);
      MergeLeaf(locals, places, q, l);
    }
  }

  lemma MergeLeaf(locals: Locals, places: set<Place>, q: Place, l: Place)
    requires Complete(locals, places, q) && IsLeaf(locals, l)
    ensures Covers(places - Parts(locals, q) + {q}, l) <==> Covers(places, l)
  {
    var merged := places - Parts(locals, q) + {q};
    if Covers(merged, l) {
      var r :| r in merged && IsPrefix(l, r);
      if r == q {
        var e := StrictPrefixChild(locals, l, q);
        assert Child(q, e) in places;
      }
    }
    if Covers(places, l) {
      var r :| r in places && IsPrefix(l, r);
      if r in Parts(locals, q) {
        var e :| e in Elems(TypeOf(locals, q)) && r == Child(q, e);
        ChildPrefix(q, q, e);
        PrefixOrder(l, r, q);
        assert q in merged;
      } else {
        assert r in merged;
      }
    }
  }

  lemma MergeComplete(locals: Locals, places: set<Place>, q: Place, next: Elem)
    requires Consistent(locals, places) && Complete(locals, places, q)
    requires CompleteOnlyAbove(locals, places, Child(q, next))
    ensures CompleteOnlyAbove(locals, places - Parts(locals, q) + {q}, q)
  {
    forall r | Complete(locals, places - Parts(locals, q) + {q}, r)
      ensures IsPrefix(q, r) && r != q
    {
      MergeCompleteAbove(locals, places, q, next, r);
    }
  }

  lemma MergeCompleteAbove(locals: Locals, places: set<Place>, q: Place, next: Elem, r: Place)
    requires Consistent(locals, places) && Complete(locals, places, q)
    requires CompleteOnlyAbove(locals, places, Child(q, next))
    requires Complete(locals, places - Parts(locals, q) + {q}, r)
    ensures IsPrefix(q, r) && r != q
  {
    var e := Elems(TypeOf(locals, r))[0];
    if exists d :: d in Elems(TypeOf(locals, r)) && Child(r, d) == q {
      var d :| d in Elems(TypeOf(locals, r)) && Child(r, d) == q;
      ChildPrefix(r, r, d);
    } else {
      assert forall d :: d in Elems(TypeOf(locals, r)) ==> Child(r, d) in places;
      assert Complete(locals, places, r);
      assert Child(r, e) in places - Parts(locals, q) + {q};
      ChildPrefix(r, q, next);
      ChildPrefix(q, r, e);
    }
  }

  // ----- joining two sets -----

  ghost function Intersection(s: set<Place>, t: set<Place>): set<Place> {
    (set p | p in s && Covers(t, p)) + (set p | p in t && Covers(s, p))
  }

  lemma IntersectionLeaf(s: set<Place>, t: set<Place>, l: Place)
    ensures Covers(Intersection(s, t), l) <==> Covers(s, l) && Covers(t, l)
  {
    if Covers(Intersection(s, t), l) {
      var p :| p in Intersection(s, t) && IsPrefix(l, p);
      var q :| q in (if p in s && Covers(t, p) then t else s) && IsPrefix(p, q);
      PrefixOrder(l, p, q);
    }
    if Covers(s, l) && Covers(t, l) {
      var p :| p in s && IsPrefix(l, p);
      var q :| q in t && IsPrefix(l, q);
      PrefixesComparable(l, p, q);
      assert p in Intersection(s, t) || q in Intersection(s, t);
    }
  }

  /** The part of an intersection that `s` contributes, seen from one of its members. */
  lemma IntersectionMember(s: set<Place>, t: set<Place>, p: Place)
    requires p in Intersection(s, t)
    ensures Covers(s, p) && Covers(t, p) && (p in s || p in t)
  {
    assert IsPrefix(p, p);
  }

  lemma IntersectionConsistent(locals: Locals, s: set<Place>, t: set<Place>)
    requires Consistent(locals, s) && Consistent(locals, t)
    ensures Consistent(locals, Intersection(s, t))
  {
    forall p, q | p in Intersection(s, t) && q in Intersection(s, t) && IsPrefix(p, q)
      ensures p == q
    {
      IntersectionMember(s, t, p);
      IntersectionMember(s, t, q);
      // Both sets cover `q`, so the one that lists `p` lists `p` as its only prefix of `p`.
      var u := if p in s then s else t;
      var r :| r in u && IsPrefix(q, r);
      PrefixOrder(p, q, r);
      PrefixOrder(q, p, p);
    }
  }

  lemma IntersectionIncomplete(locals: Locals, s: set<Place>, t: set<Place>, q: Place)
    requires Canonical(locals, s) && Canonical(locals, t)
    ensures !Complete(locals, Intersection(s, t), q)
  {
    if Complete(locals, Intersection(s, t), q) {
      var first := Elems(TypeOf(locals, q))[0];
      IntersectionMember(s, t, Child(q, first));
      var u := if Child(q, first) in s then s else t;
      assert !Complete(locals, u, q);
      var e :| e in Elems(TypeOf(locals, q)) && Child(q, e) !in u;
      IntersectionMember(s, t, Child(q, e));
      var r :| r in u && IsPrefix(Child(q, e), r);
      ChildPrefix(r, q, e);
      ChildPrefix(r, q, first);
      PrefixOrder(Child(q, first), q, r);
      assert false;
    }
  }

  lemma IntersectionExact(locals: Locals, s: set<Place>, t: set<Place>)
    requires Consistent(locals, s) && Consistent(locals, t)
    ensures Consistent(locals, Intersection(s, t))
    ensures Leaves(locals, Intersection(s, t)) == Leaves(locals, s) * Leaves(locals, t)
    ensures Canonical(locals, s) && Canonical(locals, t) ==> Canonical(locals, Intersection(s, t))
  {
    IntersectionConsistent(locals, s, t);
    forall l | l in AllLeaves(locals)
      ensures Covers(Intersection(s, t), l) <==> Covers(s, l) && Covers(t, l)
    {
      IntersectionLeaf(s, t, l);
    }
    if Canonical(locals, s) && Canonical(locals, t) {
      forall q
        ensures !Complete(locals, Intersection(s, t), q)
      {
        IntersectionIncomplete(locals, s, t, q);
      }
    }
  }

  // ----- the shortest places of a set -----

  ghost function Shortest(places: set<Place>): set<Place> {
    set p | p in places && forall q :: q in places && IsPrefix(p, q) ==> q == p
  }

  lemma {:induction false} ShortestCovers(places: set<Place>, p: Place)
    requires p in places
    ensures Covers(Shortest(places), p)
    decreases |p.projection|
  {
    if p in Shortest(places) {
      assert IsPrefix(p, p);
    } else {
      var q :| q in places && IsPrefix(p, q) && q != p;
      PrefixOrder(p, q, p);
      ShortestCovers(places, q);
      var r :| r in Shortest(places) && IsPrefix(q, r);
      PrefixOrder(p, q, r);
    }
  }

  /** Keeping only the shortest places restores the invariant and loses no leaf. */
  lemma ShortestExact(locals: Locals, places: set<Place>)
    requires WellTyped(locals, places)
    ensures Consistent(locals, Shortest(places))
    ensures Leaves(locals, Shortest(places)) == Leaves(locals, places)
  {
    forall l | l in AllLeaves(locals) && Covers(places, l)
      ensures Covers(Shortest(places), l)
    {
      var p :| p in places && IsPrefix(l, p);
      ShortestCovers(places, p);
      var q :| q in Shortest(places) && IsPrefix(p, q);
      PrefixOrder(l, p, q);
    }
  }

  // ----- the set that is updated in place -----

  class PlaceSet {
    const locals: Locals
    var places: set<Place>

    constructor (locals: Locals, places: set<Place>)
      ensures this.locals == locals && this.places == places
    {
      this.locals := locals;
      this.places := places;
    }

    /** The state in which every local is initialised: the bottom of the analysis. */
    constructor Bottom(locals: Locals)
      ensures this.locals == locals
      ensures Canonical(locals, places) && Leaves(locals, places) == AllLeaves(locals)
    {
      this.locals := locals;
      this.places := set n: nat | 0 <= n < |locals| :: Root(n);
      new;
      RootsExact(locals, places);
      forall l | l in AllLeaves(locals)
        ensures Root(l.local) in places
      {
        AllLeavesExact(locals, l);
        PrefixValid(locals, l, Root(l.local));
      }
    }

    /** The state at the start of a body, whose arguments are the locals 1 to `argCount`. */
    constructor Initial(locals: Locals, argCount: nat)
      requires argCount < |locals|
      ensures this.locals == locals && Canonical(locals, places)
      ensures Leaves(locals, places) == set l | l in AllLeaves(locals) && 1 <= l.local <= argCount
    {
      this.locals := locals;
      this.places := set n: nat | 1 <= n <= argCount :: Root(n);
      new;
      RootsExact(locals, places);
    }

    /** Set `place` as initialised. */
    method Insert(place: Place)
      requires Consistent(locals, places) && Valid(locals, place)
      modifies this
      ensures Consistent(locals, places)
      ensures Leaves(locals, places) == old(Leaves(locals, places)) + LeavesBelow(locals, place)
      ensures old(Canonical(locals, places)) ==> Canonical(locals, places)
    {
      if !exists other :: other in places && IsPrefix(place, other) {
        AddedExact(locals, places, place);
        places := set other | other in places && !IsPrefix(other, place);
        places := places + {place};
        Collapse(place);
      } else {
        CoveredExact(locals, places, place);
      }
    }

    /** Try to merge places upwards from `guide`, which has just been added. */
    method Collapse(guide: Place)
      requires Consistent(locals, places) && guide in places
      modifies this
      ensures Consistent(locals, places) && Leaves(locals, places) == old(Leaves(locals, places))
      ensures old(CompleteOnlyAbove(locals, places, guide)) ==> Canonical(locals, places)
    {
      CollapseFrom(Root(guide.local), guide);
    }

    method CollapseFrom(current: Place, guide: Place)
      requires Consistent(locals, places) && Valid(locals, guide) && IsPrefix(guide, current)
      modifies this
      ensures Consistent(locals, places) && Leaves(locals, places) == old(Leaves(locals, places))
      ensures old(CompleteOnlyAbove(locals, places, guide)) ==> CompleteOnlyAbove(locals, places, current)
      decreases |guide.projection| - |current.projection|
    {
      if current == guide {
        return;
      }
      PrefixValid(locals, guide, current);
      var next, others := ExpandOneLevel(locals, current, guide);
      ghost var step := Last(next);
      ChildFacts(locals, current, step);
      CollapseFrom(next, guide);
      others := others + [next];
      PartsAreSiblings(locals, current, step);
      if forall p :: p in others ==> p in places {
        assert Complete(locals, places, current) by {
          assert forall e :: e in Elems(TypeOf(locals, current)) ==> Child(current, e) in Parts(locals, current);
        }
        MergeExact(locals, places, current);
        if CompleteOnlyAbove(locals, places, next) {
          MergeComplete(locals, places, current, step);
        }
        var parts := set p | p in others;
        assert parts == Parts(locals, current);
        places := places - parts;
        places := places + {current};
      } else {
        UnmergedComplete(locals, places, current, step);
      }
    }

    /** Set `place` as possibly uninitialised. */
    method Remove(place: Place)
      requires Consistent(locals, places) && Valid(locals, place)
      modifies this
      ensures Consistent(locals, places)
      ensures Leaves(locals, places) == old(Leaves(locals, places)) - LeavesBelow(locals, place)
      ensures old(Canonical(locals, places)) ==> Canonical(locals, places)
    {
      var oldPlaces := places;
      places := {};
      var todo := oldPlaces;
      assert Removed(locals, oldPlaces - todo, place) == {};
      while todo != {}
        invariant todo <= oldPlaces
        invariant places == Removed(locals, oldPlaces - todo, place)
      {
        var other :| other in todo;
        ghost var before := oldPlaces - todo;
        if IsPrefix(place, other) {
          var split := Expand(locals, other, place);
          places := places + (set p | p in split);
        } else if IsPrefix(other, place) {
        } else {
          places := places + {other};
        }
        todo := todo - {other};
        assert oldPlaces - todo == before + {other};
        RemovedAdd(locals, before, place, other);
      }
      assert oldPlaces - todo == oldPlaces;
      RemovedExact(locals, oldPlaces, place);
    }

    /** Keep what is initialised both here and in `other`. */
    method Join(other: PlaceSet)
      requires other.locals == locals
      requires Consistent(locals, places) && Consistent(locals, other.places)
      modifies this
      ensures Consistent(locals, places)
      ensures Leaves(locals, places) == old(Leaves(locals, places)) * old(Leaves(locals, other.places))
      ensures old(Canonical(locals, places) && Canonical(locals, other.places)) ==> Canonical(locals, places)
    {
      var intersection := Propagate({}, places, other.places);
      intersection := Propagate(intersection, other.places, places);
      assert intersection == Intersection(places, other.places);
      IntersectionExact(locals, places, other.places);
      places := intersection;
    }

    static method Propagate(found: set<Place>, from: set<Place>, to: set<Place>) returns (all: set<Place>)
      ensures all == found + set p | p in from && Covers(to, p)
    {
      all := found;
      var todo := from;
      while todo != {}
        invariant todo <= from
        invariant all == found + set p | p in from && p !in todo && Covers(to, p)
      {
        var place :| place in todo;
        var prefixes := to;
        while prefixes != {}
          invariant prefixes <= to
          invariant forall p :: p in to && p !in prefixes ==> !IsPrefix(place, p)
        {
          var potentialPrefix :| potentialPrefix in prefixes;
          if IsPrefix(place, potentialPrefix) {
            all := all + {place};
            break;
          }
          prefixes := prefixes - {potentialPrefix};
        }
        todo := todo - {place};
      }
    }

    /** Union with `other`, which may list a place next to one of its extensions. */
    method Union(other: PlaceSet)
      requires other.locals == locals
      requires WellTyped(locals, places) && WellTyped(locals, other.places)
      modifies this
      ensures WellTyped(locals, places)
      ensures Leaves(locals, places) == old(Leaves(locals, places)) + old(Leaves(locals, other.places))
    {
      places := places + other.places;
    }

    /** The indices of those entries that repeat or extend another entry. */
    static method MarkLonger(listed: seq<Place>) returns (toRemove: set<nat>)
      ensures forall k :: k in toRemove <==> MarkedBefore(listed, |listed|, k)
    {
      toRemove := {};
      for i := 0 to |listed|
        invariant forall k :: k in toRemove <==> MarkedBefore(listed, i, k)
      {
        for j := 0 to |listed|
          invariant forall k :: k in toRemove <==> MarkedBefore(listed, i, k) || MarkedIn(listed, i, j, k)
        {
          if j < i {
            if listed[i] == listed[j] {
              toRemove := toRemove + {j};
            } else if IsPrefix(listed[i], listed[j]) {
              toRemove := toRemove + {i};
            } else if IsPrefix(listed[j], listed[i]) {
              toRemove := toRemove + {j};
            }
          }
        }
      }
    }

    /** Restore the invariant after `Union`. */
    method Deduplicate()
      requires WellTyped(locals, places)
      modifies this
      ensures Consistent(locals, places) && places <= old(places)
      ensures Leaves(locals, places) == old(Leaves(locals, places))
    {
      ghost var oldPlaces := places;
      var listed := [];
      var rest := places;
      while rest != {}
        invariant rest <= oldPlaces
        invariant forall p :: p in listed <==> p in oldPlaces && p !in rest
        invariant forall i, j :: 0 <= i < j < |listed| ==> listed[i] != listed[j]
      {
        var place :| place in rest;
        listed := listed + [place];
        rest := rest - {place};
      }
      var toRemove := MarkLonger(listed);
      places := {};
      for i := 0 to |listed|
        invariant places == set k | 0 <= k < i && k !in toRemove :: listed[k]
      {
        if i !in toRemove {
          places := places + {listed[i]};
        }
      }
      UnmarkedAreShortest(listed, toRemove);
      assert oldPlaces == set p | p in listed;
      assert places == Shortest(oldPlaces);
      ShortestExact(locals, oldPlaces);
    }
  }

  // ----- proof obligations of the methods above -----

  lemma RootsExact(locals: Locals, places: set<Place>)
    requires forall p :: p in places ==> p.projection == [] && p.local < |locals|
    ensures Canonical(locals, places)
    ensures Leaves(locals, places) == set l | l in AllLeaves(locals) && Root(l.local) in places
  {
    forall p | p in places
      ensures p == Root(p.local)
    {
    }
    forall q
      ensures !Complete(locals, places, q)
    {
      if Valid(locals, q) && !IsLeaf(locals, q) {
        var e := Elems(TypeOf(locals, q))[0];
        assert Child(q, e) !in places;
      }
    }
    forall l | l in AllLeaves(locals)
      ensures Covers(places, l) <==> Root(l.local) in places
    {
      assert IsPrefix(l, Root(l.local));
    }
  }

  lemma CoveredExact(locals: Locals, places: set<Place>, place: Place)
    requires Covers(places, place) && Valid(locals, place)
    ensures Leaves(locals, places) == Leaves(locals, places) + LeavesBelow(locals, place)
  {
    var q :| q in places && IsPrefix(place, q);
    forall l | l in LeavesBelow(locals, place)
      ensures l in Leaves(locals, places)
    {
      LeavesBelowExact(locals, place, l);
      AllLeavesExact(locals, l);
      PrefixOrder(l, place, q);
    }
  }

  lemma AddedExact(locals: Locals, places: set<Place>, place: Place)
    requires Consistent(locals, places) && Valid(locals, place) && !Covers(places, place)
    ensures var added := (set p | p in places && !IsPrefix(p, place)) + {place};
            && Consistent(locals, added)
            && Leaves(locals, added) == Leaves(locals, places) + LeavesBelow(locals, place)
            && (Canonical(locals, places) ==> CompleteOnlyAbove(locals, added, place))
  {
    var added := (set p | p in places && !IsPrefix(p, place)) + {place};
    forall l | l in AllLeaves(locals)
      ensures Covers(added, l) <==> Covers(places, l) || l in LeavesBelow(locals, place)
    {
      AllLeavesExact(locals, l);
      LeavesBelowExact(locals, place, l);
      if Covers(places, l) {
        var p :| p in places && IsPrefix(l, p);
        PrefixOrder(l, p, place);
        assert place in added && (p in added || IsPrefix(l, place));
      }
    }
    forall l | l in LeavesBelow(locals, place)
      ensures l in AllLeaves(locals)
    {
      AllLeavesExact(locals, l);
      LeavesBelowExact(locals, place, l);
    }
    if Canonical(locals, places) {
      forall q | Complete(locals, added, q)
        ensures IsPrefix(place, q) && q != place
      {
        assert !Complete(locals, places, q);
        var e :| e in Elems(TypeOf(locals, q)) && Child(q, e) !in places;
        ChildPrefix(q, q, e);
      }
    }
  }

  lemma PartsAreSiblings(locals: Locals, q: Place, step: Elem)
    requires Valid(locals, q) && step in Elems(TypeOf(locals, q))
    ensures Child(q, step).projection != [] && Valid(locals, Child(q, step))
    ensures Parts(locals, q) == Siblings(locals, Child(q, step)) + {Child(q, step)}
  {
    ChildFacts(locals, q, step);
  }

  lemma UnmergedComplete(locals: Locals, places: set<Place>, q: Place, step: Elem)
    requires Valid(locals, q) && step in Elems(TypeOf(locals, q))
    requires exists p :: p in Parts(locals, q) && p !in places
    ensures CompleteOnlyAbove(locals, places, Child(q, step)) ==> CompleteOnlyAbove(locals, places, q)
  {
    assert !Complete(locals, places, q);
    forall r | CompleteOnlyAbove(locals, places, Child(q, step)) && Complete(locals, places, r)
      ensures IsPrefix(q, r) && r != q
    {
      ChildPrefix(r, q, step);
    }
  }

  lemma RemovedAdd(locals: Locals, places: set<Place>, place: Place, other: Place)
    requires Valid(locals, place)
    ensures Removed(locals, places + {other}, place) ==
            Removed(locals, places, place)
            + if IsPrefix(place, other) then Expanded(locals, other, place)
              else if IsPrefix(other, place) then {} else {other}
  {
  }

  ghost predicate MarkedIn(listed: seq<Place>, i: nat, j: nat, k: nat)
    requires i < |listed| && j <= |listed|
  {
    exists m: nat :: m < j && m < i &&
      if listed[i] == listed[m] then k == m
      else if IsPrefix(listed[i], listed[m]) then k == i
      else IsPrefix(listed[m], listed[i]) && k == m
  }

  ghost predicate MarkedBefore(listed: seq<Place>, i: nat, k: nat)
    requires i <= |listed|
  {
    exists m: nat :: m < i && MarkedIn(listed, m, |listed|, k)
  }

  lemma UnmarkedAreShortest(listed: seq<Place>, toRemove: set<nat>)
    requires forall i, j :: 0 <= i < j < |listed| ==> listed[i] != listed[j]
    requires forall k :: k in toRemove <==> MarkedBefore(listed, |listed|, k)
    ensures (set k | 0 <= k < |listed| && k !in toRemove :: listed[k]) == Shortest(set p | p in listed)
  {
    forall k: nat | k < |listed|
      ensures k in toRemove <==> exists q :: q in listed && IsPrefix(listed[k], q) && q != listed[k]
    {
      if k in toRemove {
        var m: nat :| m < |listed| && MarkedIn(listed, m, |listed|, k);
      }
      if exists q :: q in listed && IsPrefix(listed[k], q) && q != listed[k] {
        var j: nat :| j < |listed| && IsPrefix(listed[k], listed[j]) && listed[j] != listed[k];
        PrefixOrder(listed[k], listed[j], listed[k]);
        assert MarkedIn(listed, if j < k then k else j, |listed|, k);
      }
    }
  }
}
