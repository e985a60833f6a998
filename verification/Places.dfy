/**
 Places of a procedure body: a local variable followed by a path of field and
 dereference projections through a finite type tree. Types of enums, arrays and
 unions are outside this model; a recursive type is represented by its unfolding
 down to the deepest place that the body mentions.
 */
module Places {

  /** A tuple is a `Struct`; a box or a reference is a `Ref`. */
  datatype Ty = Prim | Struct(fields: seq<Ty>) | Ref(target: Ty)

  datatype Elem = Field(index: nat) | Deref

  datatype Place = Place(local: nat, projection: seq<Elem>)

  /** The declared types of the locals, indexed by local. */
  type Locals = seq<Ty>

  /** The projections that a type offers: one for each immediate part. */
  function Elems(ty: Ty): seq<Elem> {
    match ty
    case Prim => []
    case Struct(fields) => seq(|fields|, (i: nat) => Field(i))
    case Ref(_) => [Deref]
  }

  predicate HasElem(ty: Ty, e: Elem) {
    match e
    case Field(i) => ty.Struct? && i < |ty.fields|
    case Deref => ty.Ref?
  }

  function Step(ty: Ty, e: Elem): (part: Ty)
    requires HasElem(ty, e)
    ensures part < ty
  {
    match e
    case Field(i) => ty.fields[i]
    case Deref => ty.target
  }

  function Root(local: nat): Place {
    Place(local, [])
  }

  function Child(p: Place, e: Elem): Place {
    Place(p.local, p.projection + [e])
  }

  function Parent(p: Place): Place
    requires p.projection != []
  {
    Place(p.local, p.projection[..|p.projection| - 1])
  }

  function Last(p: Place): Elem
    requires p.projection != []
  {
    p.projection[|p.projection| - 1]
  }

  /** Is `p` a well-typed place? */
  predicate Valid(locals: Locals, p: Place)
    decreases |p.projection|, 0
  {
    if p.projection == [] then p.local < |locals|
    else Valid(locals, Parent(p)) && HasElem(TypeOf(locals, Parent(p)), Last(p))
  }

  function TypeOf(locals: Locals, p: Place): Ty
    requires Valid(locals, p)
    decreases |p.projection|, 1
  {
    if p.projection == [] then locals[p.local]
    else Step(TypeOf(locals, Parent(p)), Last(p))
  }

  /** A leaf has no parts: a primitive, or a struct without fields. */
  predicate IsLeaf(locals: Locals, p: Place) {
    Valid(locals, p) && Elems(TypeOf(locals, p)) == []
  }

  /** Is `potentialPrefix` a prefix of `place`? */
  predicate IsPrefix(place: Place, potentialPrefix: Place) {
    place.local == potentialPrefix.local && potentialPrefix.projection <= place.projection
  }

  /** The parts of `p`, other than `p` itself, that share its parent. */
  function Siblings(locals: Locals, p: Place): set<Place>
    requires p.projection != [] && Valid(locals, p)
  {
    set e | e in Elems(TypeOf(locals, Parent(p))) && e != Last(p) :: Child(Parent(p), e)
  }

  // ----- elementary facts -----

  lemma ChildFacts(locals: Locals, p: Place, e: Elem)
    requires Valid(locals, p)
    ensures Child(p, e).projection != [] && Parent(Child(p, e)) == p && Last(Child(p, e)) == e
    ensures Valid(locals, Child(p, e)) <==> e in Elems(TypeOf(locals, p))
    ensures e in Elems(TypeOf(locals, p)) <==> HasElem(TypeOf(locals, p), e)
    ensures Valid(locals, Child(p, e)) ==> TypeOf(locals, Child(p, e)) == Step(TypeOf(locals, p), e)
  {
    var ty := TypeOf(locals, p);
    if e.Field? && ty.Struct? && e.index < |ty.fields| {
      assert Elems(ty)[e.index] == e;
    }
    if e.Deref? && ty.Ref? {
      assert Elems(ty)[0] == e;
    }
    assert Parent(Child(p, e)) == p;
  }

  lemma ParentFacts(locals: Locals, p: Place)
    requires p.projection != []
    ensures Child(Parent(p), Last(p)) == p
    ensures Valid(locals, p) ==> Last(p) in Elems(TypeOf(locals, Parent(p)))
  {
    assert Child(Parent(p), Last(p)).projection == p.projection;
    if Valid(locals, p) {
      ChildFacts(locals, Parent(p), Last(p));
    }
  }

  lemma {:induction false} PrefixValid(locals: Locals, p: Place, q: Place)
    requires Valid(locals, p) && IsPrefix(p, q)
    ensures Valid(locals, q)
    decreases |p.projection|
  {
    if q != p {
      PrefixValid(locals, Parent(p), q);
    }
  }

  lemma PrefixOrder(p: Place, q: Place, r: Place)
    ensures IsPrefix(p, p)
    ensures IsPrefix(p, q) && IsPrefix(q, r) ==> IsPrefix(p, r)
    ensures IsPrefix(p, q) && IsPrefix(q, p) ==> p == q
  {
    if IsPrefix(p, q) && IsPrefix(q, r) {
      assert r.projection <= q.projection <= p.projection;
    }
    if IsPrefix(p, q) && IsPrefix(q, p) {
      assert p.projection == q.projection;
    }
  }

  /** The prefixes of one place are ordered by the prefix relation. */
  lemma PrefixesComparable(p: Place, q: Place, r: Place)
    requires IsPrefix(p, q) && IsPrefix(p, r)
    ensures IsPrefix(q, r) || IsPrefix(r, q)
  {
    if |r.projection| <= |q.projection| {
      assert r.projection == q.projection[..|r.projection|];
    } else {
      assert q.projection == r.projection[..|q.projection|];
    }
  }

  /** A strict extension of `q` goes through exactly one child of `q`. */
  lemma StrictPrefixChild(locals: Locals, p: Place, q: Place) returns (e: Elem)
    requires Valid(locals, p) && IsPrefix(p, q) && p != q
    ensures Valid(locals, q) && e in Elems(TypeOf(locals, q)) && IsPrefix(p, Child(q, e))
    ensures e == p.projection[|q.projection|]
  {
    PrefixValid(locals, p, q);
    e := p.projection[|q.projection|];
    assert Child(q, e).projection == p.projection[..|q.projection| + 1];
    PrefixValid(locals, p, Child(q, e));
    ChildFacts(locals, q, e);
  }

  /** Different children of one place have no common extension. */
  lemma ChildrenDisjoint(p: Place, q: Place, e: Elem, e': Elem)
    requires IsPrefix(p, Child(q, e)) && IsPrefix(p, Child(q, e'))
    ensures e == e'
  {
    assert p.projection[|q.projection|] == Child(q, e).projection[|q.projection|] == e;
    assert p.projection[|q.projection|] == Child(q, e').projection[|q.projection|] == e';
  }

  lemma ChildPrefix(p: Place, q: Place, e: Elem)
    ensures IsPrefix(Child(q, e), q)
    ensures IsPrefix(Child(q, e), p) <==> p == Child(q, e) || IsPrefix(q, p)
  {
    if IsPrefix(Child(q, e), p) && p != Child(q, e) {
      assert p.projection == Child(q, e).projection[..|p.projection|] == q.projection[..|p.projection|];
    }
  }

  // ----- leaves -----

  /** Every leaf below the well-typed place `p`, `p` itself included if it is one. */
  function LeavesBelow(locals: Locals, p: Place): (leaves: set<Place>)
    requires Valid(locals, p)
    decreases TypeOf(locals, p), 1
  {
    if IsLeaf(locals, p) then {p}
    else set e, l | e in Elems(TypeOf(locals, p)) && l in LeavesBelowChild(locals, p, e) :: l
  }

  function LeavesBelowChild(locals: Locals, p: Place, e: Elem): set<Place>
    requires Valid(locals, p) && e in Elems(TypeOf(locals, p))
    decreases TypeOf(locals, p), 0
  {
    ChildFacts(locals, p, e);
    LeavesBelow(locals, Child(p, e))
  }

  lemma {:induction false} LeavesBelowExact(locals: Locals, p: Place, l: Place)
    requires Valid(locals, p)
    ensures l in LeavesBelow(locals, p) <==> IsLeaf(locals, l) && IsPrefix(l, p)
    decreases TypeOf(locals, p)
  {
    if IsLeaf(locals, p) {
      if IsLeaf(locals, l) && IsPrefix(l, p) && l != p {
        var e := StrictPrefixChild(locals, l, p);
        assert false;
      }
    } else {
      forall e | e in Elems(TypeOf(locals, p))
        ensures l in LeavesBelowChild(locals, p, e) <==> IsLeaf(locals, l) && IsPrefix(l, Child(p, e))
      {
        ChildFacts(locals, p, e);
        LeavesBelowExact(locals, Child(p, e), l);
      }
      if IsLeaf(locals, l) && IsPrefix(l, p) {
        var e := StrictPrefixChild(locals, l, p);
        assert l in LeavesBelowChild(locals, p, e);
      }
      if l in LeavesBelow(locals, p) {
        var e :| e in Elems(TypeOf(locals, p)) && l in LeavesBelowChild(locals, p, e);
        ChildPrefix(p, p, e);
        assert p.projection <= Child(p, e).projection <= l.projection;
      }
    }
  }

  /** No place is empty: there is always a leaf below it. */
  lemma {:induction false} SomeLeafBelow(locals: Locals, p: Place) returns (l: Place)
    requires Valid(locals, p)
    ensures IsLeaf(locals, l) && IsPrefix(l, p)
    decreases TypeOf(locals, p)
  {
    if IsLeaf(locals, p) {
      l := p;
    } else {
      var e := Elems(TypeOf(locals, p))[0];
      ChildFacts(locals, p, e);
      l := SomeLeafBelow(locals, Child(p, e));
      ChildPrefix(p, p, e);
      assert p.projection <= Child(p, e).projection <= l.projection;
    }
  }

  /** All leaves of all locals. */
  function AllLeaves(locals: Locals): set<Place> {
    set n: nat, l | 0 <= n < |locals| && l in LeavesBelow(locals, Root(n)) :: l
  }

  lemma AllLeavesExact(locals: Locals, l: Place)
    ensures l in AllLeaves(locals) <==> IsLeaf(locals, l)
  {
    forall n: nat | n < |locals|
      ensures l in LeavesBelow(locals, Root(n)) <==> IsLeaf(locals, l) && IsPrefix(l, Root(n))
    {
      LeavesBelowExact(locals, Root(n), l);
    }
    if IsLeaf(locals, l) {
      PrefixValid(locals, l, Root(l.local));
      assert l in LeavesBelow(locals, Root(l.local));
    }
  }
}
