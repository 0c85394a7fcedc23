/** Rows of boolean class markers ("active", "open") and how many of them are set. */
module Flags {

  /** The number of set markers. */
  function CountTrue(flags: seq<bool>): (n: nat)
    ensures n <= |flags|
  {
    if flags == [] then 0
    else CountTrue(flags[..|flags| - 1]) + (if flags[|flags| - 1] then 1 else 0)
  }

  /** No marker is set exactly when the count is zero. */
  lemma {:induction false} CountTrueZero(flags: seq<bool>)
    ensures CountTrue(flags) == 0 <==> forall j | 0 <= j < |flags| :: !flags[j]
  {
    if flags != [] {
      var init := flags[..|flags| - 1];
      CountTrueZero(init);
      assert forall j | 0 <= j < |init| :: init[j] == flags[j];
    }
  }

  /** A row in which only position `i` is set has count one. */
  lemma {:induction false} CountTrueSingle(flags: seq<bool>, i: nat)
    requires i < |flags|
    requires forall j | 0 <= j < |flags| :: flags[j] == (j == i)
    ensures CountTrue(flags) == 1
  {
    var init := flags[..|flags| - 1];
    if i == |flags| - 1 {
      CountTrueZero(init);
    } else {
      CountTrueSingle(init, i);
    }
  }

  /** A row in which no two positions are set has count at most one. */
  lemma {:induction false} CountTrueAtMostOne(flags: seq<bool>)
    requires forall j, k | 0 <= j < k < |flags| :: !(flags[j] && flags[k])
    ensures CountTrue(flags) <= 1
  {
    if flags != [] {
      var init := flags[..|flags| - 1];
      CountTrueAtMostOne(init);
      if flags[|flags| - 1] {
        CountTrueZero(init);
      }
    }
  }
}
