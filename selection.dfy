/** Mutually exclusive "active" markers: the primary navigation links and the tab
    switcher's buttons and panels. */
module Selection {
  import opened Text
  import opened Flags

  /** The markers of `n` items after a click on item `i` has removed "active" from
      all of them and added it to `i`. */
  function OnlyAt(n: nat, i: nat): (r: seq<bool>)
    requires i < n
    ensures |r| == n && r[i]
    ensures CountTrue(r) == 1
  {
    var r := seq(n, j => j == i);
    CountTrueSingle(r, i);
    r
  }

  /** The markers of the panels after a click on a button whose target is `target`:
      a panel is active exactly when its `data-tab` equals the target. */
  function Matching(panelIds: seq<JsString>, target: JsString): (r: seq<bool>)
    ensures |r| == |panelIds|
    ensures forall p | 0 <= p < |r| :: r[p] <==> panelIds[p] == target
  {
    seq(|panelIds|, p requires 0 <= p < |panelIds| => panelIds[p] == target)
  }

  predicate Distinct(ids: seq<JsString>) {
    forall p, q | 0 <= p < q < |ids| :: ids[p] != ids[q]
  }

  /** Some panel is shown exactly when some panel carries the target id; when the
      page's panel ids are distinct, at most one panel is shown. Nothing in the
      handler itself enforces the latter: repeated ids show several panels. */
  lemma MatchingCount(panelIds: seq<JsString>, target: JsString)
    ensures CountTrue(Matching(panelIds, target)) >= 1 <==> target in panelIds
    ensures Distinct(panelIds) ==> CountTrue(Matching(panelIds, target)) <= 1
  {
    var r := Matching(panelIds, target);
    CountTrueZero(r);
    if target in panelIds {
      var p :| 0 <= p < |panelIds| && panelIds[p] == target;
      assert r[p];
    }
    if Distinct(panelIds) {
      CountTrueAtMostOne(r);
    }
  }

  /** Two panels sharing the target id are both shown by one click. */
  lemma RepeatedIdsShowSeveral(id: JsString)
    ensures CountTrue(Matching([id, id], id)) == 2
  {
    var r := Matching([id, id], id);
    assert r[..1][..0] == [];
    assert r[..1] == [true];
  }

  /** Removes "active" from every marker in `flags`, then adds it to `flags[i]`. */
  method ActivateOnly(flags: array<bool>, i: nat)
    requires i < flags.Length
    modifies flags
    ensures flags[..] == OnlyAt(flags.Length, i)
  {
    for j := 0 to flags.Length
      invariant forall k | 0 <= k < j :: !flags[k]
    {
      flags[j] := false;
    }
    flags[i] := true;
    assert forall k | 0 <= k < flags.Length :: flags[k] == (k == i);
  }

  /** The links under `.nav-links`, each with its "active" marker. */
  class NavLinks {
    const active: array<bool>

    constructor (initial: seq<bool>)
      ensures fresh(active) && active[..] == initial
    {
      active := new bool[|initial|](k requires 0 <= k < |initial| => initial[k]);
    }

    /** The click handler of link `i`: it alone is active afterwards. */
    method Click(i: nat)
      requires i < active.Length
      modifies active
      ensures active[..] == OnlyAt(active.Length, i)
    {
      ActivateOnly(active, i);
    }
  }

  /** The tab switcher: buttons carrying `data-tab-target`, panels carrying
      `data-tab`, and the "active" marker of each. */
  class TabGroup {
    const targets: seq<JsString>
    const panelIds: seq<JsString>
    const buttonActive: array<bool>
    const panelActive: array<bool>

    ghost predicate Valid() {
      && buttonActive.Length == |targets|
      && panelActive.Length == |panelIds|
      && buttonActive != panelActive
    }

    constructor (targets: seq<JsString>, panelIds: seq<JsString>, buttons: seq<bool>, panels: seq<bool>)
      requires |buttons| == |targets| && |panels| == |panelIds|
      ensures Valid() && fresh(buttonActive) && fresh(panelActive)
      ensures this.targets == targets && this.panelIds == panelIds
      ensures buttonActive[..] == buttons && panelActive[..] == panels
    {
      this.targets, this.panelIds := targets, panelIds;
      buttonActive := new bool[|buttons|](k requires 0 <= k < |buttons| => buttons[k]);
      panelActive := new bool[|panels|](k requires 0 <= k < |panels| => panels[k]);
    }

    /** The click handler of button `i`. The new markers depend only on `i`, not
        on the markers before, so clicking the same button twice is clicking it once. */
    method Click(i: nat)
      requires Valid() && i < |targets|
      modifies buttonActive, panelActive
      ensures buttonActive[..] == OnlyAt(|targets|, i)
      ensures panelActive[..] == Matching(panelIds, targets[i])
    {
      var target := targets[i];
      ActivateOnly(buttonActive, i);
      for p := 0 to panelActive.Length
        invariant buttonActive[..] == OnlyAt(|targets|, i)
        invariant forall k | 0 <= k < p :: panelActive[k] == (panelIds[k] == target)
      {
        panelActive[p] := panelIds[p] == target;
      }
      assert forall k | 0 <= k < |panelIds| :: panelActive[..][k] == Matching(panelIds, target)[k];
    }

    /** At load the first button, when there is one, is clicked. */
    method ActivateFirst()
      requires Valid()
      modifies buttonActive, panelActive
      ensures |targets| > 0 ==> buttonActive[..] == OnlyAt(|targets|, 0)
      ensures |targets| > 0 ==> panelActive[..] == Matching(panelIds, targets[0])
      ensures |targets| == 0 ==> buttonActive[..] == old(buttonActive[..])
      ensures |targets| == 0 ==> panelActive[..] == old(panelActive[..])
    {
      if |targets| > 0 {
        Click(0);
      }
    }
  }
}
