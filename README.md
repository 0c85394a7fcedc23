# Tech Newbie Diary page behaviours, modelled in Dafny

`script.js` wires the interactive parts of a static diary site when the page loads:
a light/dark theme stored in `localStorage`, a highlighted navigation link, a tab
switcher, collapsible FAQ answers and sections, a click counter with a milestone
highlight every fifth click, and the "Join the Diary" form with live validation and
a thank-you message on submit. This project models that behaviour apart from the
DOM and proves what each handler guarantees.

- `text.dfy` (module `Text`): JavaScript strings as sequences of UTF-16 code units.
  It also holds the character classes the regular expressions use, with `\s` and
  `trim` sharing one whitespace set (ECMAScript WhiteSpace and LineTerminator), and
  `String.prototype.trim`.
- `validators.dfy` (module `Validators`): `validateName`, `validateEmail` and
  `validatePassword`, with the language of each regular expression written out,
  including the splits a backtracking matcher can choose. `validateEmail` and
  `validatePassword` are proved equal to their language. `validateName` tests its
  language on the trimmed name and is characterised on the untrimmed name. The
  module also has sample inputs for the three error texts and the greeting
  `trim().split(' ')[0] || 'Friend'`.
- `join_form.dfy` (module `JoinForm`): the form as a class with three optional
  inputs (value, default value, error flag) and an optional message box. The input
  and submit handlers are its methods, each proved equal to a pure transition
  (`AfterInput`, `AfterSubmit`) whose properties are proved.
- `selection.dfy` (module `Selection`): the nav links and the tab switcher. Their
  `forEach` loops become `for` loops over arrays of "active" markers.
- `collapsible.dfy` (module `Collapsible`): the FAQ questions with their `+`/`−`
  indicator, and the generic `.collapsible-toggle` targets.
- `counter.dfy` (module `CounterGame`): the click counter and its milestone.
- `theme.dfy` (module `Theme`): `applyTheme`, the load-time read of the stored
  preference, and the toggle.
- `flags.dfy` (module `Flags`): counting set markers, used by the selection and
  counter proofs.

The error texts (script.js:134, 137, 140) and the names in the script leave some details open; the model follows the code:
- The password check also rejects line terminators, because the regex `.` does not match them.
- Lengths count UTF-16 code units.
- A "letter" in a name is ASCII `A–Z`/`a–z` only.
- The greeting's first token is cut at U+0020 only, so a tab inside the first word stays in it.
- A tab click shows every panel whose `data-tab` equals the target. "At most one panel" therefore holds only when the page's panel ids are distinct (`Selection.MatchingCount`, `Selection.RepeatedIdsShowSeveral`).

## Model

| member | source | states |
|---|---|---|
| Text.Trim | script.js:104 | the result is the slice of the input that keeps every non-whitespace code unit and starts and ends with non-whitespace (whitespace = ECMAScript WhiteSpace ∪ LineTerminator) |
| Text.TrimIdempotent | script.js:104 | trimming an already trimmed name changes nothing |
| Text.IsWS | script.js:104 | the one whitespace set stripped by `trim` and matched by `\s`: ECMAScript WhiteSpace ∪ LineTerminator |
| Validators.NamePatternTrim | script.js:103-105 | the trimmed name is in the language of `[A-Za-z\s]{2,40}` iff its length is 2 to 40 and every code unit of the untrimmed name is an ASCII letter or whitespace |
| Validators.ValidateName | script.js:103-105 | validateName holds iff the trimmed length is 2 to 40 and the name holds nothing but ASCII letters and whitespace, so any other code unit anywhere rejects it |
| Validators.LettersOnlyName | script.js:103-105 | for a name made only of letters, validateName holds exactly when its length is 2 to 40 |
| Validators.NameRejectsLong | script.js:103-105 | a name whose non-whitespace span is longer than 40 fails, whatever whitespace surrounds it |
| Validators.NameExampleDigit | script.js:104 | "Al1ce" fails |
| Validators.TwoWordName | script.js:103-105 | two non-empty words of ASCII letters joined by one space pass validateName when the whole is at most 40 code units |
| Validators.NameExampleTwoWords | script.js:104 | "Alice Wonderland" passes |
| Validators.NameExampleTooLong | script.js:104 | a 41-letter name fails |
| Validators.EmailSound | script.js:106-108 | every address the left-to-right scan accepts has a split local@host.tail matching the regex |
| Validators.EmailComplete | script.js:106-108 | every split matching the regex makes the scan accept |
| Validators.EmailMatchesPattern | script.js:106-108 | the scan holds iff the address is in the language of `^[^\s@]+@[^\s@]+\.[^\s@]{2,}$`: no whitespace, exactly one "@" not in first place, and a "." in the domain with at least one code unit before it and two after it |
| Validators.ValidateEmail | script.js:106-108 | validateEmail holds exactly for the addresses in the language of `^[^\s@]+@[^\s@]+\.[^\s@]{2,}$` |
| Validators.EmailExampleValid | script.js:107 | "a@b.co" passes: the regex splits it at its "@" and its "." |
| Validators.EmailExampleNoDot | script.js:107 | "a@b" fails: its domain has no dotted suffix |
| Validators.EmailExampleSpace | script.js:107 | "a b@c.com" fails: it holds whitespace |
| Validators.PasswordMatchesPattern | script.js:109-111 | a password is in the language of `^(?=.*\d).{6,}$` iff it has at least 6 code units, an ASCII digit and no line terminator |
| Validators.ValidatePassword | script.js:109-111 | validatePassword holds exactly for the passwords in the language of `^(?=.*\d).{6,}$` |
| Validators.PasswordExamples | script.js:110 | "abc123" passes; "abcdef" and "a1" fail |
| Validators.FirstToken | script.js:159 | `split(' ')[0]`: the longest prefix without U+0020; it is followed by U+0020 unless it is the whole string |
| Validators.Username | script.js:159 | the greeting is never empty: the first token of the trimmed name, or 'Friend' when the name input is missing or that token is empty |
| Validators.ValidNameGreeting | script.js:159-161 | for a name passing validateName the greeting is its first token: non-empty, starting with a letter, only letters and non-space whitespace, so the 'Friend' fallback is never taken and the greeting never contains "<" |
| JoinForm.Revalidate | script.js:131-142 | clearError then showError on a rejected value: the value and default are kept, and the error shows iff the field's validator rejects the value |
| JoinForm.AfterInput | script.js:129-143 | after an input event on a present field, its value is the typed value and its error flag is set iff its validator rejects it; other fields and the message are unchanged; a missing field has no handler |
| JoinForm.AllValidFields | script.js:152-156 | the form passes exactly when each of the three inputs is present and passes its own validator |
| JoinForm.SubmitInput | script.js:147-164 | one input after submit: still present or missing, error shown iff its validator rejects the submitted value, value reset to the default on success and kept otherwise |
| JoinForm.AfterSubmit | script.js:145-164 | every present field's error flag is set iff its validator rejects the submitted value; on success every value is reset to its default and the message is the thank-you for the name read before the reset; otherwise values are kept and the message is emptied |
| JoinForm.SubmitGreeting | script.js:159-161 | a successful submit thanks the first token of the trimmed name, which is non-empty and holds no "<" |
| JoinForm.SubmitFailureIdempotent | script.js:145-156 | submitting a form that fails a second time changes nothing: earlier errors are always cleared first |
| JoinForm.Form.constructor | script.js:97-100 | the form holds the inputs and message box found in the markup |
| JoinForm.Form.OnInput | script.js:131-142 | the input handler's new state is AfterInput of the old state |
| JoinForm.Form.OnSubmit | script.js:145-164 | the submit handler's new state is AfterSubmit of the old state |
| Selection.OnlyAt | script.js:36-37 | after removing "active" from all items and adding it to item i, item i is active and exactly one item is |
| Selection.Matching | script.js:51-54 | a panel is active exactly when its `data-tab` equals the clicked target |
| Selection.MatchingCount | script.js:51-54 | some panel is active iff some panel id equals the target; with distinct ids at most one panel is active |
| Selection.RepeatedIdsShowSeveral | script.js:51-54 | two panels sharing the target id are both made active by one click |
| Selection.ActivateOnly | script.js:49-50 | the loop that clears every marker and then sets one leaves exactly OnlyAt |
| Selection.NavLinks.constructor | script.js:34 | the nav links with their markers as found in the markup |
| Selection.NavLinks.Click | script.js:34-39 | a nav-link click leaves exactly the clicked link active |
| Selection.TabGroup.constructor | script.js:44-45 | the tab buttons with their targets and the panels with their ids, as found in the markup |
| Selection.TabGroup.Click | script.js:46-56 | a tab click leaves exactly the clicked button active and each panel active iff its id equals the button's target; the result does not depend on the prior markers, so a second click changes nothing |
| Selection.TabGroup.ActivateFirst | script.js:59 | at load the first button is clicked when any exist; with none, nothing changes |
| Collapsible.Glyph | script.js:67 | the indicator is "−" exactly when the answer is open, "+" otherwise |
| Collapsible.Toggled | script.js:66-75 | toggling flips "open" on the target alone; a missing target changes nothing |
| Collapsible.ToggleTwice | script.js:62-77 | two clicks on the same toggle restore every "open" marker |
| Collapsible.TogglesCommute | script.js:62-77 | toggles on different targets are independent: their order does not matter |
| Collapsible.Collapsibles.constructor | script.js:62-64 | the FAQ questions, the element following each, and the collapsible elements, as found in the markup |
| Collapsible.Collapsibles.ClickQuestion | script.js:62-69 | an FAQ click flips "open" on the question's answer only and shows the glyph of its new state; with no following element nothing changes |
| Collapsible.Collapsibles.ClickToggle | script.js:72-77 | a collapsible click flips "open" on its target only; a selector that finds nothing changes nothing |
| CounterGame.MilestoneClicks | script.js:87 | the k-th click adds "milestone" exactly when k is a multiple of 5 |
| CounterGame.MilestoneCount | script.js:83-90 | of the first n clicks exactly n / 5 reach a milestone |
| CounterGame.Counter.Valid | script.js:83-90 | the record of hits has one entry per click, so it holds exactly count / 5 milestones |
| CounterGame.Counter.constructor | script.js:83 | the count starts at zero and no milestone has been reached |
| CounterGame.Counter.Click | script.js:84-91 | each click adds one to the count and shows it; it adds "milestone" exactly when the new count is a multiple of 5; the record of hits stays MilestoneClicks(count) |
| Theme.SavedTheme | script.js:16 | the theme read at load is never empty: the stored value, or "light" when the key is missing or holds the empty string |
| Theme.ThemeName | script.js:20 | a toggle stores "dark" exactly when the new state is dark, and "light" otherwise |
| Theme.Loaded | script.js:16-17 | at load `dark` is set exactly when the stored value is "dark"; a missing or empty key reads as "light" |
| Theme.Toggled | script.js:18-21 | a toggle flips `dark` and stores "dark" or "light" to match the new state |
| Theme.ToggleSurvivesReload | script.js:16-20 | after a toggle, loading the page again gives the same `dark` state and stored value |
| Theme.ToggleTwice | script.js:18-21 | two toggles restore both `dark` and the stored value once the script has stored one |
| Theme.ToggleTwiceStores | script.js:18-21 | from any state, an empty slot included, two toggles restore `dark` and leave the slot holding the matching name |
| Theme.ThemeState.Load | script.js:16-17 | page load gives the state Loaded of the stored slot |
| Theme.ThemeState.ApplyTheme | script.js:12-15 | applyTheme sets `dark` iff the theme is "dark" |
| Theme.ThemeState.Toggle | script.js:18-21 | the toggle handler's new state is Toggled of the old state |

## Left out

- DOM lookups and event registration (`querySelector*`, `addEventListener`, `dataset`, `nextElementSibling`) are not modelled: each widget's constructor takes the elements it found, and the generic collapsible's selector lookup is passed in as an element index or None.
- The `invalid` flag of each input is its `aria-invalid` attribute only. The `.error` `div`s, the three error texts and the HTML of the thank-you message are not modelled.
- The `.error` `div` is looked up in the input's parent element, so inputs sharing a parent share one `div`. Clearing one input's error then removes a neighbour's text while that neighbour keeps `aria-invalid`, and several errors on submit leave one `div` holding the last text. The model has no `div`s, so it does not capture this; read `invalid` as `aria-invalid`, not as "an error text is visible".
- The loading-overlay removal after 600 ms is left out: it is timer-driven.
- CounterGame.Counter.Click: the removal of "milestone" 800 ms later is left out, so the model's flag, once raised, stays raised; `hit` records which clicks raise it.
- The back-to-top button is left out: `scrollY` is a browser floating-point value and `scrollTo` is an animation.
- The card hover transforms are left out: they are cosmetic style only.
- A missing `.faq-toggle` inside a question would throw in the browser; every modelled question has an indicator.
- Storage failures are left out, and so is any storage key other than `tnd-theme`.
- The count is unbounded. The script's count is a double and exact only up to 2^53 clicks.
- Elements are assumed distinct across lists: no element is both a tab button and a tab panel, and a nav link's marker is separate from the tab markers.
- Several `#join-form` forms are handled independently, one `Form` object each.
