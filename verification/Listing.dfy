/** Sets of names and lists of their elements. */
module Listing {

  /** The list holds every element of the set once and nothing else. */
  ghost predicate Lists(names: seq<string>, s: set<string>)
  {
    (forall n :: n in names <==> n in s) && forall i, j | 0 <= i < j < |names| :: names[i] != names[j]
  }

  function SetOf(names: seq<string>): set<string>
  {
    set n | n in names
  }

  lemma {:induction false} ListSize(names: seq<string>, s: set<string>)
    requires Lists(names, s)
    ensures |names| == |s|
  {
    if names == [] {
      assert s == {};
    } else {
      var k := |names| - 1;
      assert names == names[..k] + [names[k]];
      ListSize(names[..k], s - {names[k]});
    }
  }

  lemma SubsetSize(s: set<string>, t: set<string>)
    requires s <= t
    ensures |s| <= |t| && |t - s| == |t| - |s|
  {
    assert t == s + (t - s);
  }
}
