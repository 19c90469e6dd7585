/** A fact about finite sets shared by the two searches. */
module Sets {

  /** Moving one more element of universe into done leaves fewer elements of
      universe outside done: the termination measure of a search loop that
      finishes one node per pass. */
  lemma FewerLeft<T>(universe: set<T>, done: set<T>, v: T)
    requires v in universe && v !in done
    ensures |universe - (done + {v})| < |universe - done|
  {
    assert universe - (done + {v}) == (universe - done) - {v};
  }
}
