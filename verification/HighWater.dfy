/** High-water marks: the largest value a count has had. */
module HighWater {

  /** The mark after the count has become `now`. */
  function Raised(mark: int, now: int): int {
    if mark < now then now else mark
  }

  /** Of all the values in `history`, the last of which is `now`, `mark` is the largest. */
  ghost predicate IsHighWater(history: seq<int>, mark: int, now: int) {
    && history != [] && history[|history| - 1] == now
    && mark in history && forall u :: u in history ==> u <= mark
  }

  lemma MarkStep(history: seq<int>, mark: int, now: int, next: int)
    requires IsHighWater(history, mark, now)
    ensures IsHighWater(history + [next], Raised(mark, next), next)
    ensures next <= now ==> Raised(mark, next) == mark
  {
    var more := history + [next];
    assert more[|history|] == next && history[|history| - 1] in history;
    assert forall u :: u in more <==> u in history || u == next;
  }

  lemma MarkStart(now: int)
    ensures IsHighWater([now], now, now)
  {
  }

  lemma MarkBounds(history: seq<int>, mark: int, now: int)
    requires IsHighWater(history, mark, now)
    ensures now <= mark && mark in history
  {
    assert history[|history| - 1] in history;
  }
}
