/** Independent open/closed toggles: FAQ answers, with the "+"/"−" indicator of
    their question, and generic `.collapsible-toggle` targets. */
module Collapsible {
  import opened Text

  /** The `.faq-toggle` text for an answer that is open or closed: "−" (U+2212) or "+". */
  function Glyph(open: bool): (g: JsString)
    ensures |g| == 1
    ensures open <==> g == [0x2212]
    ensures !open ==> g == [0x2B]
  {
    if open then [0x2212] else [0x2B]
  }

  /** The "open" markers after `classList.toggle('open')` on the element `target`
      names; no element leaves every marker as it was. */
  function Toggled(open: seq<bool>, target: Option<nat>): (r: seq<bool>)
    requires target.Some? ==> target.value < |open|
    ensures |r| == |open|
    ensures forall k | 0 <= k < |r| :: r[k] == (if target == Some(k) then !open[k] else open[k])
  {
    match target
    case None => open
    case Some(k) => open[k := !open[k]]
  }

  /** Toggling the same target twice restores every marker. */
  lemma ToggleTwice(open: seq<bool>, target: Option<nat>)
    requires target.Some? ==> target.value < |open|
    ensures Toggled(Toggled(open, target), target) == open
  {
  }

  /** Toggles on different targets commute: the sections are independent. */
  lemma TogglesCommute(open: seq<bool>, s: Option<nat>, t: Option<nat>)
    requires s.Some? ==> s.value < |open|
    requires t.Some? ==> t.value < |open|
    ensures Toggled(Toggled(open, s), t) == Toggled(Toggled(open, t), s)
  {
  }

  /** The elements that may carry "open", and the FAQ questions.
      `answerOf[q]` is the element following question `q` (its `nextElementSibling`),
      or None when the question is the last child; `glyph[q]` is the text of its
      `.faq-toggle`. A `.collapsible-toggle` names its target by a selector; the
      lookup is done by the caller and passed in as an element index or None. */
  class Collapsibles {
    const open: array<bool>
    const glyph: array<JsString>
    const answerOf: seq<Option<nat>>

    ghost predicate Valid() {
      && glyph.Length == |answerOf|
      && forall q | 0 <= q < |answerOf| :: answerOf[q].Some? ==> answerOf[q].value < open.Length
    }

    constructor (open: seq<bool>, glyph: seq<JsString>, answerOf: seq<Option<nat>>)
      requires |glyph| == |answerOf|
      requires forall q | 0 <= q < |answerOf| :: answerOf[q].Some? ==> answerOf[q].value < |open|
      ensures Valid() && fresh(this.open) && fresh(this.glyph)
      ensures this.open[..] == open && this.glyph[..] == glyph && this.answerOf == answerOf
    {
      this.open := new bool[|open|](k requires 0 <= k < |open| => open[k]);
      this.glyph := new JsString[|glyph|](k requires 0 <= k < |glyph| => glyph[k]);
      this.answerOf := answerOf;
    }

    /** The click handler of FAQ question `q`: toggle its answer and show the
        glyph of the answer's new state; a question without answer does nothing. */
    method ClickQuestion(q: nat)
      requires Valid() && q < |answerOf|
      modifies open, glyph
      ensures open[..] == Toggled(old(open[..]), answerOf[q])
      ensures answerOf[q].None? ==> glyph[..] == old(glyph[..])
      ensures answerOf[q].Some? ==> glyph[..] == old(glyph[..])[q := Glyph(open[answerOf[q].value])]
    {
      match answerOf[q]
      case None =>
      case Some(a) =>
        open[a] := !open[a];
        glyph[q] := Glyph(open[a]);
    }

    /** The click handler of a `.collapsible-toggle` whose selector found `target`. */
    method ClickToggle(target: Option<nat>)
      requires target.Some? ==> target.value < open.Length
      modifies open
      ensures open[..] == Toggled(old(open[..]), target)
    {
      if target.Some? {
        open[target.value] := !open[target.value];
      }
    }
  }
}
