/**
 Sets of places standing for sets of leaves. A canonical set never lists a place
 together with one of its extensions, and never lists all parts of a place
 separately; it is then determined by the leaves below it.
 */
module CanonicalSets {
  import opened Places

  predicate Covers(places: set<Place>, p: Place) {
    exists q :: q in places && IsPrefix(p, q)
  }

  /** The leaves that a set of places stands for. */
  function Leaves(locals: Locals, places: set<Place>): set<Place> {
    set l | l in AllLeaves(locals) && Covers(places, l)
  }

  ghost predicate WellTyped(locals: Locals, places: set<Place>) {
    forall p :: p in places ==> Valid(locals, p)
  }

  /** The invariant that the code checks: no place next to one of its extensions. */
  ghost predicate Antichain(places: set<Place>) {
    forall p, q :: p in places && q in places && IsPrefix(p, q) ==> p == q
  }

  /** All parts of `q` are listed separately. */
  ghost predicate Complete(locals: Locals, places: set<Place>, q: Place) {
    && Valid(locals, q)
    && !IsLeaf(locals, q)
    && forall e :: e in Elems(TypeOf(locals, q)) ==> Child(q, e) in places
  }

  ghost predicate Consistent(locals: Locals, places: set<Place>) {
    WellTyped(locals, places) && Antichain(places)
  }

  ghost predicate Canonical(locals: Locals, places: set<Place>) {
    && Consistent(locals, places)
    && forall q :: !Complete(locals, places, q)
  }

  // ----- a canonical set is determined by its leaves -----

  ghost predicate CoversBelow(locals: Locals, places: set<Place>, p: Place) {
    forall l :: IsLeaf(locals, l) && IsPrefix(l, p) ==> Covers(places, l)
  }

  /** A canonical set that covers every leaf below `p` lists a prefix of `p`. */
  lemma {:induction false} CoveredByPrefix(locals: Locals, places: set<Place>, p: Place)
    requires Canonical(locals, places) && Valid(locals, p)
    requires CoversBelow(locals, places, p)
    ensures Covers(places, p)
    decreases TypeOf(locals, p)
  {
    if !IsLeaf(locals, p) {
      forall e | e in Elems(TypeOf(locals, p))
        ensures Covers(places, p) || Child(p, e) in places
      {
        ChildFacts(locals, p, e);
        ChildPrefix(p, p, e);
        forall l | IsLeaf(locals, l) && IsPrefix(l, Child(p, e))
          ensures Covers(places, l)
        {
          PrefixOrder(l, Child(p, e), p);
        }
        CoveredByPrefix(locals, places, Child(p, e));
        var q :| q in places && IsPrefix(Child(p, e), q);
        ChildPrefix(q, p, e);
      }
      assert !Complete(locals, places, p);
    }
  }

  lemma CanonicalSubset(locals: Locals, s: set<Place>, t: set<Place>)
    requires Canonical(locals, s) && Canonical(locals, t)
    requires Leaves(locals, s) == Leaves(locals, t)
    ensures s <= t
  {
    forall p | p in s
      ensures p in t
    {
      SameLeavesCover(locals, s, t, p);
      var q :| q in t && IsPrefix(p, q);
      SameLeavesCover(locals, t, s, q);
      var r :| r in s && IsPrefix(q, r);
      PrefixOrder(p, q, r);
      assert r == p;
      PrefixOrder(q, p, p);
    }
  }

  lemma SameLeavesCover(locals: Locals, s: set<Place>, t: set<Place>, p: Place)
    requires Canonical(locals, s) && Canonical(locals, t)
    requires Leaves(locals, s) == Leaves(locals, t)
    requires p in s
    ensures Covers(t, p)
  {
    forall l | IsLeaf(locals, l) && IsPrefix(l, p)
      ensures Covers(t, l)
    {
      AllLeavesExact(locals, l);
      assert l in Leaves(locals, s);
    }
    CoveredByPrefix(locals, t, p);
  }

  /** Equality of canonical sets is equality of meaning. */
  lemma CanonicalUnique(locals: Locals, s: set<Place>, t: set<Place>)
    requires Canonical(locals, s) && Canonical(locals, t)
    ensures s == t <==> Leaves(locals, s) == Leaves(locals, t)
  {
    if Leaves(locals, s) == Leaves(locals, t) {
      CanonicalSubset(locals, s, t);
      CanonicalSubset(locals, t, s);
    }
  }

  // ----- the canonical set of a given set of leaves -----

  predicate Full(locals: Locals, leaves: set<Place>, p: Place) {
    Valid(locals, p) && LeavesBelow(locals, p) <= leaves
  }

  function NormaliseBelow(locals: Locals, leaves: set<Place>, p: Place): set<Place>
    requires Valid(locals, p)
    decreases TypeOf(locals, p), 1
  {
    if LeavesBelow(locals, p) <= leaves then {p}
    else set e, q | e in Elems(TypeOf(locals, p)) && q in NormaliseChild(locals, leaves, p, e) :: q
  }

  function NormaliseChild(locals: Locals, leaves: set<Place>, p: Place, e: Elem): set<Place>
    requires Valid(locals, p) && e in Elems(TypeOf(locals, p))
    decreases TypeOf(locals, p), 0
  {
    ChildFacts(locals, p, e);
    NormaliseBelow(locals, leaves, Child(p, e))
  }

  /** The largest places all of whose leaves are in `leaves`. */
  function Normalise(locals: Locals, leaves: set<Place>): set<Place> {
    set n: nat, p | 0 <= n < |locals| && p in NormaliseBelow(locals, leaves, Root(n)) :: p
  }

  ghost predicate LargestFull(locals: Locals, leaves: set<Place>, top: Place, p: Place) {
    && IsPrefix(p, top)
    && Full(locals, leaves, p)
    && forall q :: IsPrefix(p, q) && IsPrefix(q, top) && Full(locals, leaves, q) ==> q == p
  }

  lemma {:induction false} NormaliseBelowExact(locals: Locals, leaves: set<Place>, top: Place, p: Place)
    requires Valid(locals, top)
    ensures p in NormaliseBelow(locals, leaves, top) <==> LargestFull(locals, leaves, top, p)
    decreases TypeOf(locals, top)
  {
    if Full(locals, leaves, top) {
      if IsPrefix(p, top) && p != top {
        assert !LargestFull(locals, leaves, top, p);
      }
      assert LargestFull(locals, leaves, top, top);
    } else {
      forall e | e in Elems(TypeOf(locals, top))
        ensures p in NormaliseChild(locals, leaves, top, e) <==> LargestFull(locals, leaves, Child(top, e), p)
      {
        ChildFacts(locals, top, e);
        NormaliseBelowExact(locals, leaves, Child(top, e), p);
      }
      if p in NormaliseBelow(locals, leaves, top) {
        var e :| e in Elems(TypeOf(locals, top)) && p in NormaliseChild(locals, leaves, top, e);
        LargestFullParent(locals, leaves, top, e, p);
      }
      if LargestFull(locals, leaves, top, p) {
        var e := StrictPrefixChild(locals, p, top);
        assert forall q :: IsPrefix(q, Child(top, e)) ==> IsPrefix(q, top) by {
          ChildPrefix(top, top, e);
          forall q { PrefixOrder(q, Child(top, e), top); }
        }
        assert p in NormaliseChild(locals, leaves, top, e);
      }
    }
  }

  lemma LargestFullParent(locals: Locals, leaves: set<Place>, top: Place, e: Elem, p: Place)
    requires Valid(locals, top) && !Full(locals, leaves, top)
    requires LargestFull(locals, leaves, Child(top, e), p)
    ensures LargestFull(locals, leaves, top, p)
  {
    ChildPrefix(top, top, e);
    PrefixOrder(p, Child(top, e), top);
    forall q | IsPrefix(p, q) && IsPrefix(q, top) && Full(locals, leaves, q)
      ensures q == p
    {
      PrefixesComparable(p, q, Child(top, e));
      PrefixOrder(q, top, top);
      ChildPrefix(q, top, e);
    }
  }

  lemma NormaliseExact(locals: Locals, leaves: set<Place>, p: Place)
    ensures p in Normalise(locals, leaves) <==> LargestFull(locals, leaves, Root(p.local), p)
  {
    forall n: nat | n < |locals|
      ensures p in NormaliseBelow(locals, leaves, Root(n)) <==> LargestFull(locals, leaves, Root(n), p)
    {
      NormaliseBelowExact(locals, leaves, Root(n), p);
    }
    if LargestFull(locals, leaves, Root(p.local), p) {
      PrefixValid(locals, p, Root(p.local));
    }
  }

  /** Every full place has a prefix in the normal form. */
  lemma {:induction false} FullHasPrefix(locals: Locals, leaves: set<Place>, p: Place)
    requires Full(locals, leaves, p)
    ensures Covers(Normalise(locals, leaves), p)
    decreases |p.projection|
  {
    NormaliseExact(locals, leaves, p);
    if p !in Normalise(locals, leaves) {
      var q :| IsPrefix(p, q) && IsPrefix(q, Root(p.local)) && Full(locals, leaves, q) && q != p;
      FullHasPrefix(locals, leaves, q);
      var r :| r in Normalise(locals, leaves) && IsPrefix(q, r);
      PrefixOrder(p, q, r);
    }
  }

  lemma NormaliseLeaves(locals: Locals, leaves: set<Place>)
    requires leaves <= AllLeaves(locals)
    ensures Leaves(locals, Normalise(locals, leaves)) == leaves
  {
    var s := Normalise(locals, leaves);
    forall l | l in AllLeaves(locals)
      ensures l in Leaves(locals, s) <==> l in leaves
    {
      AllLeavesExact(locals, l);
      if l in leaves {
        assert Full(locals, leaves, l);
        FullHasPrefix(locals, leaves, l);
      }
      if Covers(s, l) {
        var q :| q in s && IsPrefix(l, q);
        NormaliseExact(locals, leaves, q);
        LeavesBelowExact(locals, q, l);
      }
    }
  }

  lemma NormaliseIncomplete(locals: Locals, leaves: set<Place>, q: Place)
    ensures !Complete(locals, Normalise(locals, leaves), q)
  {
    var s := Normalise(locals, leaves);
    if Complete(locals, s, q) {
      forall l | l in LeavesBelow(locals, q)
        ensures l in leaves
      {
        LeavesBelowExact(locals, q, l);
        assert l != q;
        var e := StrictPrefixChild(locals, l, q);
        NormaliseExact(locals, leaves, Child(q, e));
        LeavesBelowExact(locals, Child(q, e), l);
      }
      var e := Elems(TypeOf(locals, q))[0];
      NormaliseExact(locals, leaves, Child(q, e));
      ChildPrefix(q, q, e);
      assert IsPrefix(q, Root(q.local));
      assert false;
    }
  }

  /** Each set of leaves has exactly one canonical set of places, its normal form. */
  lemma NormaliseCanonical(locals: Locals, leaves: set<Place>)
    requires leaves <= AllLeaves(locals)
    ensures Canonical(locals, Normalise(locals, leaves))
    ensures Leaves(locals, Normalise(locals, leaves)) == leaves
    ensures forall s :: Canonical(locals, s) && Leaves(locals, s) == leaves ==> s == Normalise(locals, leaves)
  {
    var s := Normalise(locals, leaves);
    forall p | p in s
      ensures Valid(locals, p)
    {
      NormaliseExact(locals, leaves, p);
    }
    forall p, q | p in s && q in s && IsPrefix(p, q)
      ensures p == q
    {
      NormaliseExact(locals, leaves, p);
      NormaliseExact(locals, leaves, q);
    }
    forall q
      ensures !Complete(locals, s, q)
    {
      NormaliseIncomplete(locals, leaves, q);
    }
    NormaliseLeaves(locals, leaves);
    forall t | Canonical(locals, t) && Leaves(locals, t) == leaves
      ensures t == s
    {
      CanonicalUnique(locals, s, t);
    }
  }
}
