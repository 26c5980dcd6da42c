/** Times that keep a distance from one another. */
module Spacing {
  import opened Sequences

  ghost predicate Spaced(times: seq<int>, gap: int) {
    forall i :: 0 < i < |times| ==> times[i] - times[i - 1] >= gap
  }

  /** n times at least `gap` apart take at least (n-1)*gap. */
  lemma {:induction false} SpacedLasts(times: seq<int>, gap: int)
    requires times != [] && Spaced(times, gap)
    ensures (|times| - 1) * gap <= Last(times) - times[0]
    decreases |times|
  {
    if |times| > 1 {
      SpacedLasts(Front(times), gap);
      assert (|times| - 1) * gap == (|times| - 2) * gap + gap;
    }
  }
}
