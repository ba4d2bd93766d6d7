# Portfolio site interactivity — a verified model

This project models the parts of a personal-portfolio website's client-side
scripts that make decisions. The rest of those scripts only wire up the DOM.

The current site (`main.js`) contributes four pieces:

- the hero **typewriter** effect, a small state machine that types and deletes a
  fixed list of phrases and returns the delay until its next tick;
- the **navigation** controller: it opens and closes the mobile menu (including
  on Escape), sets the bar's "scrolled" style, and highlights the nav link of
  the section under the scroll position;
- the **contact form** required-field check;
- the **stats counter**'s fire-once latch.

The older site (`Assets/JS/Main.js`) contributes five handlers: the hamburger
menu, the scroll-to-top button threshold, the theme button, the exclusive tab
switcher (`opentab`) and the read-more toggle (`read`).

The DOM is modelled abstractly. An element's class list is a `set<string>`. A
style property or attribute is a `string`. The sections, links, tabs and form
fields a handler walks over are sequences. Per component there are two layers:

- a value-level specification: datatypes, functions and lemmas stating the
  properties;
- a `class` with the fields the JavaScript mutates. Its methods do the same
  in-place updates as the source, loops included, and each method's `ensures`
  ties the new state to the specification function applied to the old state.

Files: `dom.dfy` (class-list toggling, `Option`), `typewriter.dfy`,
`navigation.dfy`, `contact_form.dfy`, `stats_counter.dfy` (all from `main.js`),
`legacy_site.dfy` (from `Assets/JS/Main.js`).

Four behaviours of the code that are easy to assume otherwise:

- Active-link selection: overlapping sections are resolved in favour of the
  **last** matching section in document order, not the first. Every match
  clears all links before marking its own.
- The contact form only checks that required fields are non-blank. There is
  **no** e-mail format check.
- `read()` sets two `display` values and the button's `innerHTML`. It sets no
  accessibility attribute.
- The legacy theme button only toggles classes. It stores no preference.

## Model

| member | source | states |
|---|---|---|
| `Dom.Toggle` | Assets/JS/Main.js:6-7 | `classList.toggle`: the token is present afterwards iff it was absent before, and every other token is unchanged |
| `Dom.BoolAttr` | main.js:331-332 | the string `setAttribute` stores for a boolean is "true" exactly when the boolean is true, and "false" otherwise |
| `TypeWriterEffect.SiteWordsValid` | main.js:504 | the site's four phrases form a usable list: non-empty, and no phrase is empty |
| `TypeWriterEffect.Shown` | main.js:521-524 | the displayed text has exactly `charIndex` characters and is a prefix of the current phrase |
| `TypeWriterEffect.Substring` | main.js:521-524 | `substring(0, n)` returns a prefix whose length is `n` clamped to `[0, length]` |
| `TypeWriterEffect.Step` | main.js:517-537 | one tick keeps the invariant (`wordIndex` in range, `0 <= charIndex <= len`, a character still to delete or to type), and the text afterwards is the first `charIndex` characters of the current phrase |
| `TypeWriterEffect.StepOutcome` | main.js:520-537 | `charIndex` moves by one in the current direction. The direction flips exactly at the two ends. `wordIndex` advances by one modulo the list length exactly when a deletion empties the phrase. The delay is 2000 for the tick that completes the phrase, 500 for the tick that empties it, and otherwise 100 while typing and 50 while deleting, each as an if-and-only-if |
| `TypeWriterEffect.Run` | main.js:539 | any number of rescheduled ticks keeps the invariant |
| `TypeWriterEffect.RunAdd` | main.js:539 | `a` ticks followed by `b` ticks equal `a + b` ticks |
| `TypeWriterEffect.TypingPhase` | main.js:523-532 | typing from character `j` reaches the full phrase, now deleting, after exactly `len - j` ticks |
| `TypeWriterEffect.DeletingPhase` | main.js:520-536 | deleting from character `j` reaches the start of the next phrase (cyclically), typing, after exactly `j` ticks |
| `TypeWriterEffect.FullCycle` | main.js:517-539 | from `(i, 0, typing)`, exactly `2 * len(words[i])` ticks reach `((i+1) % n, 0, typing)`, with the text empty |
| `TypeWriterEffect.NextPhrase` | main.js:533-535 | going round one more phrase moves the effect from the start of phrase `k-1` to the start of phrase `k % n` |
| `TypeWriterEffect.Rotation` | main.js:505-539 | from the initial cursor, after phrases `0..k-1` have each been typed and deleted, the effect is at the start of phrase `k % n` |
| `TypeWriterEffect.Period` | main.js:505-539 | one full rotation through all phrases returns the effect to its initial cursor |
| `TypeWriterEffect.SiteFirstPhrase` | main.js:504-539 | on the site's own list, "Game Developer" (14 characters) takes 28 ticks and hands over to "Unity Expert" |
| `TypeWriterEffect.TypeWriter.constructor` | main.js:502-507 | the component starts at phrase 0, character 0, typing, with the element's markup text untouched |
| `TypeWriterEffect.TypeWriter.Type` | main.js:517-540 | the in-place `type()` keeps the invariant. Its new fields, new text and returned delay are those of `Step` |
| `NavigationController.ToggleMenuFlips` | main.js:327-334 | `toggleMenu` flips `is-open` and `is-active`, sets `aria-expanded` to the new open state, and sets the body's overflow to "hidden" iff the menu is open. Nothing else changes. It preserves menu consistency, and toggling twice from a consistent menu restores it |
| `NavigationController.ToggleMenuWithoutMenu` | main.js:327-329 | without a `.nav__menu`, the handler changes only the hamburger's `is-active` (it then throws) |
| `NavigationController.CloseMenuCloses` | main.js:336-341 | `closeMenu` always leaves the menu closed, `aria-expanded` "false" and the overflow cleared. Absent elements are skipped. No other class or field changes. It is idempotent and yields a consistent menu |
| `NavigationController.EscapeCloses` | main.js:322-324 | Escape behaves as `closeMenu`. Any other key changes nothing |
| `NavigationController.OnScrollThreshold` | main.js:343-353 | after `onScroll`, the bar has `scrolled` iff `scrollY > 50` and `lastScroll == scrollY`. Nothing else changes |
| `NavigationController.FirstLink` | main.js:363 | the `querySelector` lookup returns the first link whose `href` is the given string, or none when no link has it |
| `NavigationController.ClearActive` | main.js:366 | afterwards no link carries `active`. Every href and every other class is kept |
| `NavigationController.LastCovering` | main.js:359-365 | picks the last section in document order with `top <= y < top + height`, or none when no section matches |
| `NavigationController.HighlightExclusive` | main.js:365-368 | after one matching section, exactly the first link pointing at `#id` is active, or none when there is no such link. Hrefs and the other classes are unchanged |
| `NavigationController.HighlightAbsorbs` | main.js:366-367 | a later match completely overrides an earlier one |
| `NavigationController.FirstLinkSameHrefs` | main.js:363 | the link lookup depends on the hrefs alone, so it is unaffected by earlier highlighting |
| `NavigationController.SweepIsLastCovering` | main.js:359-369 | the `forEach` over all sections equals one highlight for the last matching section, or no change at all |
| `NavigationController.ActiveLinkSelection` | main.js:355-370 | when some section contains `scrollY + 100`, exactly the link for the last such section is active afterwards (or none if that link does not exist). When no section matches, every link is unchanged |
| `NavigationController.AtMostOneActive` | main.js:365-368 | after a matching `setActiveLink`, no two links are active |
| `NavigationController.AtMostOneActiveKept` | main.js:355-370 | `setActiveLink` preserves "at most one link is active", including when no section matches |
| `NavigationController.Navigation.ToggleMenu` | main.js:327-334 | the in-place handler produces the state of `Toggled` and reports whether it completed (the menu exists) |
| `NavigationController.Navigation.CloseMenu` | main.js:336-341 | the in-place handler produces the state of `Closed` |
| `NavigationController.Navigation.KeyDown` | main.js:322-324 | the keydown listener produces the state of `AfterKey` |
| `NavigationController.Navigation.OnScroll` | main.js:343-353 | the in-place handler produces the state of `AfterScroll` |
| `NavigationController.Navigation.SetActiveLink` | main.js:355-370 | the nested loops over sections and links give exactly `ActiveLinks` of the old links. No other field changes |
| `NavigationController.Navigation.Scroll` | main.js:316-319 | the scroll listener is `onScroll` followed by `setActiveLink` |
| `ContactFormValidation.TrimStartDropsWhitespace` | main.js:484 | leading trim keeps a suffix, drops only whitespace, and stops at a non-whitespace character |
| `ContactFormValidation.TrimEndDropsWhitespace` | main.js:484 | trailing trim keeps a prefix, drops only whitespace, and stops at a non-whitespace character |
| `ContactFormValidation.BlankIffAllWhitespace` | main.js:484 | `!value.trim()` holds exactly when every character of the value is ECMAScript whitespace or a line terminator, including the empty value |
| `ContactFormValidation.Mark` | main.js:484-489 | a field's value is unchanged. Its border is `#ff3b30` iff its trimmed value is empty, and cleared otherwise |
| `ContactFormValidation.Marked` | main.js:483-490 | every field, in order, keeps its value. Each gets the error border iff its own trimmed value is empty, and a cleared border otherwise |
| `ContactFormValidation.MarksMatchBlocking` | main.js:479-495 | submission is blocked iff some field ends up with the error border. Values never change. Marking again changes nothing |
| `ContactFormValidation.ContactForm.HandleSubmit` | main.js:479-495 | `preventDefault` is called iff at least one required field's trimmed value is empty. Each field's border is red iff its own trimmed value is empty, otherwise cleared |
| `StatsCounterLatch.LatchComposes` | main.js:603-604 | once set the latch stays set. Two callbacks leave it as one callback with all their entries would |
| `StatsCounterLatch.AtMostOnce` | main.js:601-607 | over any number of callbacks the animation starts at most once. It starts exactly once from a clear latch when some entry intersects, and never when the latch is already set |
| `StatsCounterLatch.StatsCounter.Observe` | main.js:601-607 | the callback loop keeps "animations started == 1 iff animated", so `animateStats` runs at most once |
| `LegacySite.HamburgerClicked` | Assets/JS/Main.js:5-8 | toggles `active` on both the hamburger and the menu, and nothing else |
| `LegacySite.NavLinkClicked` | Assets/JS/Main.js:9-12 | removes `active` from both, whatever the prior state, and nothing else |
| `LegacySite.MenuRoundTrips` | Assets/JS/Main.js:5-12 | two hamburger clicks restore both class lists. A nav-link click is idempotent and absorbs a hamburger click. Both handlers keep the two elements in agreement |
| `LegacySite.HamburgerMenu.HamburgerClick` | Assets/JS/Main.js:5-8 | the in-place handler equals `HamburgerClicked` |
| `LegacySite.HamburgerMenu.NavLinkClick` | Assets/JS/Main.js:9-12 | the in-place handler equals `NavLinkClicked` |
| `LegacySite.FifthOfQuotient` | Assets/JS/Main.js:25 | `t / total > 0.2` is `5t > total` for a positive total, and reversed for a negative total |
| `LegacySite.PastFifthInIntegers` | Assets/JS/Main.js:24-25 | on a scrollable page the threshold is `5 * scrollTop > scrollTotal` |
| `LegacySite.ScrollTopButton.HandleScroll` | Assets/JS/Main.js:23-30 | the button has `show` iff `scrollTop / (scrollHeight - clientHeight) > 0.2`. Other classes are unchanged |
| `LegacySite.ThemeClickToggles` | Assets/JS/Main.js:51-62 | a click toggles only `light-theme` when the OS prefers dark and only `dark-theme` otherwise, plus `bx-sun` on the button. Two clicks with the same flag restore both class lists |
| `LegacySite.ThemeClicksParity` | Assets/JS/Main.js:51-62 | `n` clicks under one OS flag equal zero clicks or one click, depending on the parity of `n` |
| `LegacySite.ThemeOverrideExclusive` | Assets/JS/Main.js:51-62 | from the markup's state, the body never carries the other flag's override. The sun icon shows iff an override is applied, which holds after an odd number of clicks |
| `LegacySite.ThemeSwitch.Click` | Assets/JS/Main.js:51-62 | the in-place handler equals `ThemeClicked` |
| `LegacySite.FirstWithId` | Assets/JS/Main.js:78 | `getElementById` returns the first tab content with that id, or none |
| `LegacySite.ClearLinks` | Assets/JS/Main.js:71-73 | afterwards no tab link carries `active-link`. Every other class is kept |
| `LegacySite.ClearContents` | Assets/JS/Main.js:74-76 | afterwards no tab content carries `active-tab`. Every id and every other class is kept |
| `LegacySite.OpenTabExclusive` | Assets/JS/Main.js:70-79 | afterwards the clicked link is the only tab link with `active-link`, and the panel with id `name` is the only one with `active-tab`. Nothing else changes |
| `LegacySite.FirstWithIdSameIds` | Assets/JS/Main.js:78 | the panel lookup depends on the ids alone |
| `LegacySite.OpenTabForgetsMarkers` | Assets/JS/Main.js:70-79 | `opentab`'s result does not depend on which links and panels were marked before |
| `LegacySite.OpenTabLastWins` | Assets/JS/Main.js:70-79 | only the last `opentab` matters, so calling it twice with the same link and name equals calling it once |
| `LegacySite.TabSet.OpenTab` | Assets/JS/Main.js:70-79 | the two clearing loops followed by the two adds give exactly `TabOpened`. It reports whether the panel was found |
| `LegacySite.ReadToggles` | Assets/JS/Main.js:84-98 | `read()` collapses (`inline`/`none`/"Read more") exactly when the dots are hidden, and otherwise expands (`none`/`inline`/"Read less"). Two further calls return to any state a call produced |
| `LegacySite.ReadMore.Read` | Assets/JS/Main.js:84-98 | the in-place handler equals `ReadToggled` |

## Left out

- The 3D scene (main.js:20-235): calls into a rendering library, float trigonometry and a per-frame loop.
- The loader (main.js:241-279): random increments on a timer.
- The stats counter's eased count-up (main.js:614-633): floating-point easing timed by the frame clock. Only the fire-once latch is modelled. `animateStats` is represented by a counter of how often it was entered.
- The scroll-reveal, the current site's scroll-to-top button, smooth scrolling and the cursor glow (main.js:377-583): observer and style plumbing. The scroll-to-top button compares against a floating-point `0.3 * innerHeight`.
- Assets/JS/Animation.js: configuration-only calls into a scroll-reveal library.
- `scrollToTop` (Assets/JS/Main.js:32-37): a call into the browser's smooth-scroll API.
- Timer scheduling: `type()` returns its delay instead of calling `setTimeout`.
- Event-listener registration and the bootstrap order (main.js:292-325, 641-671): I/O wiring. The component models start where `init` has found its elements, and `Navigation.init`'s first `setActiveLink` is an ordinary `SetActiveLink` call.
- `TypeWriterEffect.TypeWriter.Type` requires a phrase list with no empty phrase. The site's list satisfies this (`SiteWordsValid`). An empty phrase would make the source type forever.
- Browser inputs are parameters: `window.scrollY`, the sections' offsets, the root element's extents, the OS dark-mode flag, the key pressed, the observer entries, and the clicked tab link (passed in place of the implicit global `event.currentTarget`).
- Scroll offsets are integers. Fractional pixel offsets are not modelled.
- `LegacySite.PastFifth` uses exact real division in place of IEEE double division. For pixel-sized values the two agree on the comparison with 0.2, and the division-by-zero cases (Infinity, NaN) are modelled explicitly.
- Class lists are sets. Token order in `className` is not modelled.
- `opentab`'s `getElementById` searches only the tab contents. An id that only a non-tab element carries is treated like a missing id (the handler throws). The tab links and tab contents are assumed to be distinct elements.
- `setActiveLink` assumes every section id forms a valid CSS selector. An id that does not would make `querySelector` throw.
- Only the form's `[required]` controls are modelled. Other controls are untouched by the handler.
- The legacy script's elements are assumed present. A missing one makes the script throw part-way, after some handlers are bound or some effects are done. The model does not capture these partial states:
  - a missing `.hamburger` stops the script at Assets/JS/Main.js:5, before any handler is bound;
  - a missing `.nav-menu`: the hamburger handler is still bound, and each click toggles the hamburger (line 6), then throws at line 7;
  - a missing `.scrollTop`: `handleScroll` is bound at line 20, and the script then throws at line 21. Every later scroll throws at line 26 or 28;
  - a missing `#theme-btn`: the script throws at line 51, after the hamburger, nav-link and scroll handlers are bound;
  - `#dots`, `#more` and `#readBtn` are looked up inside `read()` (lines 85-87). A missing one makes `read()` throw part-way. For example, with no `#more`, the dots and the button label are already rewritten when line 92 or 96 throws.
- Strings are sequences of Unicode characters. JavaScript's `substring` and `length` count UTF-16 code units. The two agree on the site's phrases, which are ASCII.
