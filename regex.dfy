/**
 * Python's `re` module, which the writer calls but which is not part of this model,
 * reduced to the three answers the writer asks of it.
 */
module Regex {
  import opened Wrappers

  /** One element of `re.finditer`: the span [start, end) and the name in `m.lastgroup`. */
  datatype Match = Match(start: nat, end: nat, lastgroup: Option<string>)

  /**
   * matchesAtStart(p, t): `re.match(p, t)` is not None, so p matches some prefix of t.
   * compiles(p): `re.compile(p)` does not raise.
   * findIter(p, t): the matches `re.finditer(p, t)` yields, in order.
   */
  datatype Engine = Engine(
    matchesAtStart: (string, string) -> bool,
    compiles: string -> bool,
    findIter: (string, string) -> seq<Match>)

  /** Matches as `re.finditer` yields them: in bounds, ordered and non-overlapping. */
  predicate WellFormedMatches(ms: seq<Match>, n: nat) {
    && (forall i :: 0 <= i < |ms| ==> ms[i].start <= ms[i].end <= n)
    && (forall i :: 0 < i < |ms| ==> ms[i - 1].end <= ms[i].start)
  }

  /** An engine whose every scan is well formed. */
  ghost predicate ScansWellFormed(e: Engine) {
    forall p, t :: WellFormedMatches(e.findIter(p, t), |t|)
  }
}
