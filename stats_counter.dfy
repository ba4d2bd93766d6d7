/**
 * The stats counter's fire-once guard: the count-up animation starts the
 * first time an observed entry is intersecting, and never again.
 */
module StatsCounterLatch {

  /** After one observer callback with these `isIntersecting` flags, is the latch set? */
  function Latched(animated: bool, entries: seq<bool>): (r: bool)
    ensures r <==> animated || exists i :: 0 <= i < |entries| && entries[i]
  {
    animated || true in entries
  }

  /**
   * The latch is monotone and forgets how entries were split into callbacks:
   * once set it stays set, and two callbacks set it exactly when one callback
   * with all their entries would.
   */
  lemma LatchComposes(animated: bool, first: seq<bool>, second: seq<bool>)
    ensures animated ==> Latched(animated, first)
    ensures Latched(Latched(animated, first), second) == Latched(animated, first + second)
  {
    if true in first + second && !(true in first) {
      var i :| 0 <= i < |first + second| && (first + second)[i];
      assert second[i - |first|];
    }
  }

  /** The callbacks, batch by batch: the latch after all of them, and how many animations they start. */
  function Starts(animated: bool, batches: seq<seq<bool>>): (r: nat)
    decreases |batches|
  {
    if |batches| == 0 then 0
    else
      var started := if !animated && true in batches[0] then 1 else 0;
      started + Starts(Latched(animated, batches[0]), batches[1..])
  }

  /**
   * However many callbacks arrive, with however many intersecting entries,
   * the animation starts at most once — exactly once when the latch was
   * clear and some entry intersected, never when it was already set.
   */
  lemma {:induction false} AtMostOnce(animated: bool, batches: seq<seq<bool>>)
    ensures Starts(animated, batches) <= 1
    ensures animated ==> Starts(animated, batches) == 0
    ensures !animated ==> (Starts(animated, batches) == 1 <==>
      exists b :: 0 <= b < |batches| && true in batches[b])
    decreases |batches|
  {
    if |batches| > 0 {
      AtMostOnce(Latched(animated, batches[0]), batches[1..]);
      if !animated && !(true in batches[0]) {
        if exists b :: 1 <= b < |batches| && true in batches[b] {
          var b :| 1 <= b < |batches| && true in batches[b];
          assert true in batches[1..][b - 1];
        }
        if exists b :: 0 <= b < |batches[1..]| && true in batches[1..][b] {
          var b :| 0 <= b < |batches[1..]| && true in batches[1..][b];
          assert true in batches[b + 1];
        }
      }
    }
  }

  /** The `animated` flag, and how many times `animateStats()` has been entered. */
  class StatsCounter {
    var animated: bool
    var animationsStarted: nat

    /** The latch records exactly whether the animation has started. */
    ghost predicate Valid()
      reads this
    {
      animationsStarted == if animated then 1 else 0
    }

    constructor ()
      ensures Valid() && !animated && animationsStarted == 0
    {
      animated, animationsStarted := false, 0;
    }

    /** The observer callback; `entries` holds each entry's `isIntersecting`. */
    method Observe(entries: seq<bool>)
      requires Valid()
      modifies this
      ensures Valid()
      ensures animated == Latched(old(animated), entries)
      ensures animationsStarted == old(animationsStarted) + Starts(old(animated), [entries])
      ensures animationsStarted <= 1
    {
      var i := 0;
      while i < |entries|
        invariant 0 <= i <= |entries|
        invariant Valid()
        invariant animated == Latched(old(animated), entries[..i])
      {
        if entries[i] && !animated {
          animated := true;
          animationsStarted := animationsStarted + 1;
        }
        i := i + 1;
      }
      assert entries[..i] == entries;
    }
  }
}
