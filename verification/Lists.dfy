/** An optional value, lists of addresses in which 0 is the null address, and the size of sets. */
module Lists {
  datatype Option<+T> = None | Some(value: T)

  ghost predicate Distinct(s: seq<nat>) { forall i, j :: 0 <= i < j < |s| ==> s[i] != s[j] }

  /** The address at position `i`, or the null address outside the list. */
  function At(s: seq<nat>, i: int): nat { if 0 <= i < |s| then s[i] else 0 }

  /** A part is not larger than the whole. */
  lemma Smaller(a: set<nat>, b: set<nat>)
    requires a <= b
    ensures |a| <= |b|
    decreases |a|
  {
    if a != {} {
      var x :| x in a;
      Smaller(a - {x}, b - {x});
    }
  }
}
