/** The light/dark theme: the `dark` class on the body and the preference stored
    under the `tnd-theme` key of localStorage. */
module Theme {
  import opened Text

  const DARK: JsString := Lit("dark")
  const LIGHT: JsString := Lit("light")

  /** `localStorage.getItem('tnd-theme') || 'light'`: a missing key (null) and an
      empty stored string are both falsy and read as "light". */
  function SavedTheme(slot: Option<JsString>): (theme: JsString)
    ensures theme != []
    ensures slot.Some? && slot.value != [] ==> theme == slot.value
    ensures slot.None? || slot.value == [] ==> theme == LIGHT
  {
    if slot.Some? && slot.value != [] then slot.value else LIGHT
  }

  /** The value a toggle stores for the new state of the `dark` class. */
  function ThemeName(dark: bool): (name: JsString)
    ensures dark <==> name == DARK
    ensures !dark ==> name == LIGHT
  {
    if dark then DARK else LIGHT
  }

  /** The body state and the storage slot together. */
  datatype ThemeView = ThemeView(dark: bool, stored: Option<JsString>)

  /** The state at load: the slot is read, and applyTheme sets `dark` exactly when
      the saved theme is "dark". */
  function Loaded(slot: Option<JsString>): (v: ThemeView)
    ensures v.stored == slot
    ensures v.dark <==> slot == Some(DARK)
  {
    ThemeView(SavedTheme(slot) == DARK, slot)
  }

  /** The state after a click on any `.theme-toggle`. */
  function Toggled(v: ThemeView): (w: ThemeView)
    ensures w.dark == !v.dark
    ensures w.stored == Some(if w.dark then DARK else LIGHT)
  {
    var dark := !v.dark;
    ThemeView(dark, Some(ThemeName(dark)))
  }

  /** After a toggle, a reload shows the same theme: what a toggle stores is read
      back as the state it was stored for. */
  lemma ToggleSurvivesReload(v: ThemeView)
    ensures Loaded(Toggled(v).stored) == Toggled(v)
  {
    assert DARK != LIGHT by {
      assert |DARK| == 4 && |LIGHT| == 5;
    }
  }

  /** Two toggles restore both the class and the stored preference, once the
      preference has been written by the script. */
  lemma ToggleTwice(v: ThemeView)
    requires v.stored == Some(ThemeName(v.dark))
    ensures Toggled(Toggled(v)) == v
  {
  }

  /** From any state, two toggles restore the class and leave the slot holding
      the name of that class, so a first visit with an empty slot ends up storing
      "light" (or "dark" for a page already dark). */
  lemma ToggleTwiceStores(v: ThemeView)
    ensures Toggled(Toggled(v)).dark == v.dark
    ensures Toggled(Toggled(v)).stored == Some(ThemeName(v.dark))
  {
  }

  class ThemeState {
    var dark: bool
    var stored: Option<JsString>

    function View(): ThemeView
      reads this
    {
      ThemeView(dark, stored)
    }

    /** Page load with `slot` in storage: the saved theme is applied. */
    constructor Load(slot: Option<JsString>)
      ensures View() == Loaded(slot)
    {
      stored := slot;
      new;
      ApplyTheme(SavedTheme(slot));
    }

    /** applyTheme: the `dark` class is present exactly for the theme "dark". */
    method ApplyTheme(theme: JsString)
      modifies this`dark
      ensures dark <==> theme == DARK
    {
      if theme == DARK {
        dark := true;
      } else {
        dark := false;
      }
    }

    /** The toggle handler: flip the class, then store the theme it now shows. */
    method Toggle()
      modifies this
      ensures View() == Toggled(old(View()))
    {
      dark := !dark;
      stored := Some(if dark then DARK else LIGHT);
    }
  }
}
