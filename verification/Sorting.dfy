/** `Array.sort` with a numeric comparison. */
module Sorting {

  ghost predicate Ascending(s: seq<int>) {
    forall i, j :: 0 <= i < j < |s| ==> s[i] <= s[j]
  }

  /** The number of elements of an ascending sequence that are less than `x`. */
  function Position(x: int, s: seq<int>): (k: nat)
    requires Ascending(s)
    ensures k <= |s|
    ensures forall i :: 0 <= i < k ==> s[i] < x
    ensures forall i :: k <= i < |s| ==> x <= s[i]
  {
    if s == [] || x <= s[0] then 0 else 1 + Position(x, s[1..])
  }

  function Insert(x: int, s: seq<int>): (r: seq<int>)
    requires Ascending(s)
    ensures Ascending(r)
  {
    var k := Position(x, s);
    s[..k] + [x] + s[k..]
  }

  lemma InsertAdds(x: int, s: seq<int>)
    requires Ascending(s)
    ensures multiset(Insert(x, s)) == multiset(s) + multiset{x}
  {
    var k := Position(x, s);
    assert s == s[..k] + s[k..];
  }

  function Sort(s: seq<int>): (r: seq<int>)
    ensures Ascending(r) && multiset(r) == multiset(s)
  {
    if s == [] then [] else
      var n := |s| - 1;
      assert s == s[..n] + [s[n]];
      InsertAdds(s[n], Sort(s[..n]));
      Insert(s[n], Sort(s[..n]))
  }

  lemma SortKeepsElements(s: seq<int>)
    ensures forall a :: a in Sort(s) <==> a in s
  {
    assert forall a :: a in Sort(s) <==> a in multiset(Sort(s));
    assert forall a :: a in s <==> a in multiset(s);
  }
}
