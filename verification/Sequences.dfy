/** Facts about sequences. */
module Sequences {

  lemma Regroup<T>(x: seq<T>, y: seq<T>, z: seq<T>)
    ensures (x + y) + z == x + (y + z)
  {
  }

  lemma SplitLonger<T>(s: seq<T>, k: seq<T>, n: nat)
    requires n <= |s|
    ensures (s + k)[..n] == s[..n] && (s + k)[n..] == s[n..] + k
    ensures n < |s| ==> (s + k)[n] == s[n]
  {
  }

  lemma SomeElement<T>(s: seq<T>)
    ensures s != [] ==> exists e :: e in s
  {
    if s != [] {
      assert s[0] in s;
    }
  }
}
