/** The clamped counter of requests in flight (src/automation/inflight.rs). */
module InFlight {

  /** `history` is the sequence of all changes so far. */
  class Counter {
    var pending: int
    ghost var history: seq<int>

    ghost predicate Valid()
      reads this
    {
      pending == Pending(history)
    }

    constructor ()
      ensures Valid() && history == []
    {
      pending := 0;
      history := [];
    }

    /** The end of a request whose start was missed must not leave a deficit behind. */
    method Bump(delta: int)
      requires Valid()
      modifies this
      ensures Valid() && history == old(history) + [delta]
      ensures IsLeastPrefixSum(history, Sum(history) - pending)
    {
      pending := pending + delta;
      if pending < 0 { pending := 0; }
      history := history + [delta];
      assert history[..|history| - 1] == old(history);
      PendingIsSumLessLeast(history);
    }
  }

  function Clamp(pending: int, delta: int): int {
    if pending + delta < 0 then 0 else pending + delta
  }

  /** The counter after a sequence of changes. */
  function Pending(deltas: seq<int>): int {
    if deltas == [] then 0 else Clamp(Pending(deltas[..|deltas| - 1]), deltas[|deltas| - 1])
  }

  /** Unclamped. */
  function Sum(deltas: seq<int>): int {
    if deltas == [] then 0 else Sum(deltas[..|deltas| - 1]) + deltas[|deltas| - 1]
  }

  /** `m` is the least of all prefix sums, the empty and the whole prefix included. */
  ghost predicate IsLeastPrefixSum(deltas: seq<int>, m: int) {
    (exists k: nat :: k <= |deltas| && Sum(deltas[..k]) == m) && forall k: nat | k <= |deltas| :: m <= Sum(deltas[..k])
  }

  /** The clamped counter is the sum less the least prefix sum: clamping forgives exactly the deepest deficit. */
  lemma {:induction false} PendingIsSumLessLeast(deltas: seq<int>)
    ensures IsLeastPrefixSum(deltas, Sum(deltas) - Pending(deltas))
  {
    var n := |deltas|;
    assert deltas[..n] == deltas;
    if n == 0 {
      assert forall k: nat | k <= 0 :: deltas[..k] == [];
    } else {
      var front := deltas[..n - 1];
      PendingIsSumLessLeast(front);
      forall k: nat | k < n ensures front[..k] == deltas[..k] {
      }
      var m := Sum(front) - Pending(front);
      var k: nat :| k <= |front| && Sum(front[..k]) == m;
      var least := Sum(deltas) - Pending(deltas);
      assert least == if Sum(deltas) < m then Sum(deltas) else m;
      if Sum(deltas) < m {
        assert Sum(deltas[..n]) == least;
      } else {
        assert Sum(deltas[..k]) == least;
      }
    }
  }

  // ---- What the counter says about requests ----

  /** Requests by identity; counting starts with the first event. */
  datatype Event = Start(id: nat) | Finish(id: nat)

  function Delta(e: Event): int {
    if e.Start? then 1 else -1
  }

  function Deltas(events: seq<Event>): seq<int> {
    seq(|events|, i requires 0 <= i < |events| => Delta(events[i]))
  }

  /** Requests whose start was observed and whose end was not. */
  function InFlightNow(events: seq<Event>): set<nat> {
    if events == [] then {}
    else
      var before, e := InFlightNow(events[..|events| - 1]), events[|events| - 1];
      if e.Start? then before + {e.id} else before - {e.id}
  }

  /** Ends whose start was never observed. */
  function Unseen(events: seq<Event>): nat {
    if events == [] then 0
    else
      var front, e := events[..|events| - 1], events[|events| - 1];
      Unseen(front) + if e.Finish? && e.id !in InFlightNow(front) then 1 else 0
  }

  /** No request starts while it is in flight. */
  predicate Sensible(events: seq<Event>) {
    events == [] ||
    (Sensible(events[..|events| - 1]) &&
     (events[|events| - 1].Start? ==> events[|events| - 1].id !in InFlightNow(events[..|events| - 1])))
  }

  /**
   * The counter never shows more than the observed requests truly in flight, and falls short of them by at most
   * the ends whose start was missed.
   */
  lemma {:induction false} PendingIsClose(events: seq<Event>)
    requires Sensible(events)
    ensures |InFlightNow(events)| - Unseen(events) <= Pending(Deltas(events)) <= |InFlightNow(events)|
  {
    if events != [] {
      var front := events[..|events| - 1];
      PendingIsClose(front);
      assert Deltas(events)[..|events| - 1] == Deltas(front);
    }
  }
}
