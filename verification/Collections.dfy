/** Searching sequences, and the size of sets. */
module Collections {

  /** JavaScript's `s.indexOf(item)`, with the length of the sequence for -1. */
  function IndexOf<T(==)>(s: seq<T>, item: T): (i: nat)
    ensures i <= |s| && item !in s[..i] && (i < |s| ==> s[i] == item)
    ensures i < |s| <==> item in s
  {
    if s == [] || s[0] == item then 0
    else
      var i := 1 + IndexOf(s[1..], item);
      assert s[..i] == [s[0]] + s[1..][..i - 1];
      i
  }

  lemma {:induction false} SubsetCardinality<T>(a: set<T>, b: set<T>)
    requires a <= b
    ensures |a| <= |b|
  {
    if a != {} {
      var x :| x in a;
      SubsetCardinality(a - {x}, b - {x});
    }
  }
}
