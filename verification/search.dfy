/** First-match selection over a sequence: the shape shared by the
    `for ... : if m: return ...` loops of the build script and the version
    resolver. */
module Search {
  import opened Wrappers

  /** `i` is the position of the first element on which `f` yields a value. */
  predicate IsFirstHit<T, U>(xs: seq<T>, f: T -> Option<U>, i: int) {
    && 0 <= i < |xs|
    && f(xs[i]).Some?
    && forall j :: 0 <= j < i ==> f(xs[j]).None?
  }

  /** The value `f` yields on the first element where it yields one. */
  function FirstSome<T, U>(xs: seq<T>, f: T -> Option<U>): (r: Option<U>)
    ensures r.None? <==> forall i :: 0 <= i < |xs| ==> f(xs[i]).None?
    ensures forall i :: IsFirstHit(xs, f, i) ==> r == f(xs[i])
    ensures r.Some? ==> exists i :: IsFirstHit(xs, f, i) && r == f(xs[i])
  {
    if xs == [] then None
    else if f(xs[0]).Some? then
      assert IsFirstHit(xs, f, 0);
      f(xs[0])
    else
      var r := FirstSome(xs[1..], f);
      assert forall i :: 1 <= i < |xs| ==> xs[i] == xs[1..][i - 1];
      assert forall i :: IsFirstHit(xs, f, i) ==> IsFirstHit(xs[1..], f, i - 1);
      assert forall i :: IsFirstHit(xs[1..], f, i) ==> IsFirstHit(xs, f, i + 1);
      r
  }

  /** Misses before a hit are passed over, and whatever follows the hit is
      never consulted. */
  lemma FirstSomeAfterMisses<T, U>(before: seq<T>, x: T, after: seq<T>, f: T -> Option<U>)
    requires forall i :: 0 <= i < |before| ==> f(before[i]).None?
    requires f(x).Some?
    ensures FirstSome(before + ([x] + after), f) == f(x)
  {
    var xs := before + ([x] + after);
    assert xs[|before|] == x;
    forall j | 0 <= j < |before| ensures f(xs[j]).None? {
      assert xs[j] == before[j];
    }
    assert IsFirstHit(xs, f, |before|);
  }
}
