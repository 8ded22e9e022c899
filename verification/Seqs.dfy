/** What the list-like structures have in common: sequences without repetition,
    their elements, and one position taken out. */
module Seqs {

  ghost predicate Distinct<T>(s: seq<T>) { forall i, j :: 0 <= i < j < |s| ==> s[i] != s[j] }

  ghost function Elements<T>(s: seq<T>): set<T> { set x | x in s }

  function Without<T>(s: seq<T>, i: nat): seq<T>
    requires i < |s|
  {
    s[..i] + s[i + 1..]
  }

  lemma {:induction false} ElementCount<T>(s: seq<T>)
    ensures |Elements(s)| <= |s| && (Distinct(s) ==> |Elements(s)| == |s|)
  {
    if s != [] {
      var init, last := s[..|s| - 1], s[|s| - 1];
      ElementCount(init);
      assert s == init + [last];
      assert Elements(s) == Elements(init) + {last};
      assert Distinct(s) ==> last !in Elements(init);
    }
  }
}
