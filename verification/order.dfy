/** The four-component tuples the eviction policy compares, their
    lexicographic order, and the "first least element" search that both
    `min_by_key` and the smallest-uncompressed scan perform. */
module Order {

  /** A `(major, minor, patch, time)` tuple: a snapshot key, or the
      distance between two keys. */
  datatype Quad = Quad(major: int, minor: int, patch: int, time: int)

  /** Lexicographic order on the four fields, in field order. */
  predicate Less(a: Quad, b: Quad)
  {
    || a.major < b.major
    || (a.major == b.major && a.minor < b.minor)
    || (a.major == b.major && a.minor == b.minor && a.patch < b.patch)
    || (a.major == b.major && a.minor == b.minor && a.patch == b.patch && a.time < b.time)
  }

  /** A sorted pair of distances: `low` is not greater than `high`. */
  datatype Score = Score(low: Quad, high: Quad)

  /** Lexicographic order on pairs, as on a two-element array. */
  predicate ScoreLess(a: Score, b: Score)
  {
    Less(a.low, b.low) || (a.low == b.low && Less(a.high, b.high))
  }

  ghost predicate StrictTotalOrder<T(!new)>(less: (T, T) -> bool)
  {
    && (forall x :: !less(x, x))
    && (forall x, y, z :: less(x, y) && less(y, z) ==> less(x, z))
    && (forall x, y :: x != y ==> less(x, y) || less(y, x))
  }

  lemma QuadOrderIsTotal()
    ensures StrictTotalOrder(Less)
  {
  }

  lemma ScoreOrderIsTotal()
    ensures StrictTotalOrder(ScoreLess)
  {
    QuadOrderIsTotal();
  }

  predicate NatLess(a: nat, b: nat) { a < b }

  lemma NatOrderIsTotal()
    ensures StrictTotalOrder(NatLess)
  {
  }

  /** Index of the first least element of `s`: a left-to-right scan that
      replaces its candidate only on a strictly smaller element. */
  function FirstMin<T(!new)>(s: seq<T>, less: (T, T) -> bool): (i: nat)
    requires |s| > 0
    requires StrictTotalOrder(less)
    ensures i < |s|
    ensures forall j :: 0 <= j < |s| ==> !less(s[j], s[i])
    ensures forall j :: 0 <= j < i ==> less(s[i], s[j])
  {
    if |s| == 1 then 0
    else
      var b := FirstMin(s[..|s| - 1], less);
      assert forall j :: 0 <= j < |s| - 1 ==> s[..|s| - 1][j] == s[j];
      if less(s[|s| - 1], s[b]) then |s| - 1 else b
  }
}
