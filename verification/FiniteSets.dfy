/** Facts about finite sets. */
module FiniteSets {

  lemma SubsetSize<T>(s: set<T>, t: set<T>)
    requires s <= t
    ensures |s| <= |t| && (s != t ==> |s| < |t|)
  {
    assert |t| == |s| + |t - s| by {
      assert t == s + (t - s);
    }
  }

  lemma SmallestExists(s: set<nat>) returns (least: nat)
    requires s != {}
    ensures least in s && forall b :: b in s ==> least <= b
  {
    least :| least in s;
    var rest := s - {least};
    while rest != {}
      invariant least in s && rest <= s
      invariant forall b :: b in s && b !in rest ==> least <= b
    {
      var b :| b in rest;
      rest := rest - {b};
      if b < least {
        least := b;
      }
    }
  }
}
