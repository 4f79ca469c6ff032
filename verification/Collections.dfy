/** What several parts of the model share about sequences and sets. */
module Collections {
  /** Where a search loop over s stops: at the first element in question, or at |s|. */
  function First<T>(s: seq<T>, where: T -> bool): (i: nat)
    ensures i <= |s|
    ensures i < |s| ==> where(s[i])
    ensures forall j :: 0 <= j < i ==> !where(s[j])
  {
    if s == [] || where(s[0]) then 0 else 1 + First(s[1..], where)
  }

  /** Searches that agree element by element stop at the same place. */
  lemma {:induction false} FirstAgrees<A, B>(s: seq<A>, t: seq<B>, p: A -> bool, q: B -> bool)
    requires |s| == |t| && forall i :: 0 <= i < |s| ==> p(s[i]) == q(t[i])
    ensures First(s, p) == First(t, q)
  {
    if s == [] {
    } else {
      FirstAgrees(s[1..], t[1..], p, q);
    }
  }

  lemma ConcatAssociates<T>(a: seq<T>, b: seq<T>, c: seq<T>)
    ensures a + (b + c) == a + b + c
  {}

  lemma {:induction false} SubsetSize<T>(a: set<T>, b: set<T>)
    requires a <= b
    ensures |a| <= |b|
    decreases a
  {
    if a == {} {
    } else {
      var x :| x in a;
      SubsetSize(a - {x}, b - {x});
    }
  }
}
