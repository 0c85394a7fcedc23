/** The counter game: a click count shown in `#counter-display`, highlighted with
    "milestone" on every fifth click. */
module CounterGame {
  import opened Text
  import opened Flags

  /** The condition `count % 5 === 0` under which a click adds "milestone". The count
      is positive after any click, where JavaScript's `%` and Dafny's agree. */
  predicate IsMilestone(count: nat) {
    count % 5 == 0
  }

  /** Whether each of the first `n` clicks adds "milestone": click `k + 1` brings
      the count to `k + 1`. */
  function MilestoneClicks(n: nat): (hits: seq<bool>)
    ensures |hits| == n
    ensures forall k | 0 <= k < n :: hits[k] <==> (k + 1) % 5 == 0
  {
    seq(n, k requires 0 <= k < n => IsMilestone(k + 1))
  }

  /** Of the first `n` clicks, exactly `n / 5` reach a milestone. */
  lemma {:induction false} MilestoneCount(n: nat)
    ensures CountTrue(MilestoneClicks(n)) == n / 5
  {
    if n > 0 {
      assert MilestoneClicks(n)[..n - 1] == MilestoneClicks(n - 1);
      MilestoneCount(n - 1);
    }
  }

  class Counter {
    var count: nat
    var shown: Option<nat>
    var milestone: bool
    /** Whether each click so far added "milestone". */
    ghost var history: seq<bool>

    /** The record holds one entry per click, so it has exactly `count / 5` hits. */
    ghost predicate Valid()
      reads this
      ensures Valid() ==> |history| == count && CountTrue(history) == count / 5
    {
      MilestoneCount(count);
      history == MilestoneClicks(count)
    }

    /** The widget at load: count zero, the display showing its markup text. */
    constructor ()
      ensures Valid()
      ensures count == 0 && shown == None && !milestone
    {
      count, shown, milestone := 0, None, false;
      history := [];
    }

    /** The click handler; `hit` says whether this click added "milestone". */
    method Click() returns (hit: bool)
      requires Valid()
      modifies this
      ensures Valid()
      ensures count == old(count) + 1 && shown == Some(count)
      ensures hit == IsMilestone(count)
      ensures milestone == (old(milestone) || hit)
      ensures history == old(history) + [hit]
    {
      count := count + 1;
      shown := Some(count);
      hit := IsMilestone(count);
      if hit {
        milestone := true;
      }
      history := history + [hit];
    }
  }
}
