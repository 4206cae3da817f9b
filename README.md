# Portfolio page logic, modelled in Dafny

This project models the decision logic of a static portfolio site's scripts and proves properties
of it. There are three pieces:

- **Navigation highlighting** (`js/main.js`). On every scroll or resize, `updateActiveSidebarLinks`
  measures the page sections. It picks at most one current section with a best-match rule, or else a
  topmost-visible fallback. It then clears and re-marks the `active` class of the navigation links and
  the display of the sub-menus. `setInitialActiveLinks` marks top-bar links by page name.
- **Gallery auto-scroll step** (`animateScroll` in `js/main.js`).
- **Terminal typing animation** (`script.js`). A timer-driven state machine types each command
  character by character, replaces it with its highlighted markup, opens the next prompt and, at the
  end, appends the output links once.
- **Extension normaliser** (`script.py`, a shell script). Its `sed -E 's/\.[A-Z]+$/\L&/'` lowercases an
  all-capital file extension and keeps the directory.

Files and modules:

- `wrappers.dfy` (`Wrappers`): `Option`.
- `paths.dfy` (`Paths`): `split('/')`, `pop()`, the current-page rule.
- `sections.dfy` (`ActiveSection`): section geometry, the visibility ratio, the two selection loops
  (`ResolveCurrentSection`) and the folds that specify them (`BestMatch`, `Topmost`). Each fold has a
  declarative characterisation, proved in both directions.
- `navigation.dfy` (`Navigation`): the markup as static data (anchors, sub-menus). The class
  `NavigationMenu` holds the mutable `active` and `shown` flags. Its methods are the reset loops, the
  pass and the initial marking. They are proved against `PassMarks` / `ActiveAfterPass`.
- `gallery.dfy` (`Gallery`): class `AutoScrollGallery` with the frame step.
- `terminal.dfy` (`Terminal`): class `TerminalSession` over the script's globals. The pure `Step`
  function specifies its methods, and lemmas give invariant, progress and termination.
- `extension_case.dfy` (`ExtensionCase`): the `sed` substitution, `dirname`/`basename` and the rename
  guard.

Modelling choices:

- Section geometry and viewport heights are `real`, so ratio comparisons are exact.
- A missing `id` attribute is the empty string. Both are falsy where the code tests the id.
- `closestTop = Infinity` is a `found` flag.
- The undeclared `activationOffset` of `js/main.js:130` is a parameter. It is evidently the `.top-navbar`
  height computed at line 92 (see Findings).
- The visible height of `js/main.js:121-123` is not clamped to `[0, height]`, so off-screen sections get
  ratios of at most 0.
- The fallback of `js/main.js:152-159` takes the smallest `top` among sections with `bottom > 0`, even
  when that `top` is negative.
- In the terminal, the `cursorSpan.remove()` of `script.js:59` changes nothing. The `innerHTML`
  assignment of line 39 has already detached the span. `StepProgress` shows this: the removal leaves
  the lines as they were.

## Model

| member | source | states |
|---|---|---|
| `Paths.Split` | js/main.js:91 | `split('/')` yields at least one piece, no piece holds a slash, and a slash-free string is its own single piece |
| `Paths.JoinSplit` | js/main.js:91 | joining the pieces of `split('/')` with slashes gives back the original string |
| `Paths.SplitJoin` | js/main.js:91 | splitting a join of slash-free pieces gives back the same pieces |
| `Paths.LastSegmentIsTail` | js/main.js:197 | `split('/').pop()` is the longest slash-free tail of the string: it ends the string and is all of it or preceded by a slash |
| `Paths.LastSegment` | js/main.js:91 | no ensures; `split('/').pop()`, specified by `LastSegmentIsTail` (the longest slash-free tail) |
| `Paths.CurrentPage` | js/main.js:91 | the current page is the last path segment, or `index.html` when that segment is empty; never empty, never holds a slash |
| `ActiveSection.VisibilityRatio` | js/main.js:118-125 | zero-height sections get ratio 0; for a real rectangle of positive height the ratio is at most 1; a section wholly above or below the viewport gets a ratio of at most 0 (no clamping) |
| `ActiveSection.StraddlerIsVisible` | js/main.js:121-130 | with the activation line inside the viewport, a section crossing it has a positive ratio |
| `ActiveSection.BestMatch` | js/main.js:116-145 | the best-match loop after n sections holds one of those sections or none |
| `ActiveSection.BestMatchSound` | js/main.js:130-144 | the loop's choice is eligible (straddles the offset, or starts below it inside the viewport with ratio > 0.5), has a positive ratio, beats every earlier eligible section strictly and every later one weakly; no choice means no eligible section has a positive ratio |
| `ActiveSection.BestMatchUnique` | js/main.js:133-141 | at most one section satisfies the best-match rule (strict `>` keeps the earliest of equal ratios) |
| `ActiveSection.BestMatchCharacterized` | js/main.js:111-145 | the loop's choice is exactly the section the best-match rule describes, and none exactly when every eligible ratio is at most 0 |
| `ActiveSection.BestMatchBound` | js/main.js:116-145 | the as-written loop with `activationOffset` read from a global that may be unbound; its range ensures only, specified by `BestMatchBoundThrows` |
| `ActiveSection.BestMatchBoundThrows` | js/main.js:116-130 | with the offset read from a global binding, the loop throws exactly when the name is unbound and there is a section to visit, and otherwise completes with the best match |
| `ActiveSection.SoleStraddlerChosen` | js/main.js:130-136 | a real section crossing an in-viewport activation line is chosen when no other section is eligible |
| `ActiveSection.Topmost` | js/main.js:152-159 | the fallback loop after n sections holds one of those sections or none |
| `ActiveSection.TopmostSound` | js/main.js:152-159 | the fallback's choice has `bottom > 0`, a strictly smaller top than every earlier such section and no larger than every later one; no choice means no section reaches below the viewport top |
| `ActiveSection.TopmostCharacterized` | js/main.js:152-159 | the fallback's choice is exactly the section the topmost-visible rule describes, in both directions |
| `ActiveSection.CurrentSectionId` | js/main.js:147-160 | no ensures; the best match's id when non-empty, else the fallback's, specified by `CurrentSectionRules` over `BestMatchCharacterized` and `TopmostCharacterized` |
| `ActiveSection.CurrentSectionRules` | js/main.js:147-160 | a best match with a non-empty id is the current section; a best match without an id falls back to the topmost rule (line 147 tests the id for truthiness); with no best match the topmost visible section is; with neither, no section is current |
| `ActiveSection.ResolveCurrentSection` | js/main.js:110-160 | the two loops compute exactly the current section id the rules specify |
| `Navigation.FindNavMenuLink` | js/main.js:162-169 | `querySelector('.nav-menu a[href=…]')` returns the first anchor in the nav menu with exactly that href, or none when no anchor matches |
| `Navigation.ParentLink` | js/main.js:173-174 | the parent link is the previous sibling of the sub-menu enclosing the active link, found exactly when that sibling is a `nav-link` |
| `Navigation.ParentEligible` | js/main.js:175-179 | no ensures; the parent-link condition, stated by the parent clauses of `PassMarks` |
| `Navigation.PassMarks` | js/main.js:104-189 | the current-page link is highlighted on both paths; the mobile path ignores geometry; the section link is the one whose href is `#` plus the resolved id; the parent and its sub-menu are shown exactly when the parent is an in-page anchor, names the current page, or is empty on `index.html` |
| `Navigation.SectionMarks` | js/main.js:168-189 | the marks are in range and leave the page link to the caller; its section, parent and sub-menu marks are specified through `PassMarks` |
| `Navigation.ActiveAfterPassExact` | js/main.js:94-107 | after a pass an anchor is active exactly when the pass marks it or, outside the cleared `.nav-menu .nav-link`/`.sub-link` set, it was active before; cleared links depend on the current inputs only |
| `Navigation.PassIdempotent` | js/main.js:94-102 | running the pass twice with the same inputs gives the same classes as running it once |
| `Navigation.ShownMenuConsistent` | js/main.js:173-186 | at most one sub-menu is displayed, and a displayed sub-menu holds an active link and follows an active parent link |
| `Navigation.TopNavbarMarked` | js/main.js:196-203 | a top-bar link is active exactly when its href's last segment equals the current page; other anchors keep their class |
| `Navigation.PassAsWritten` | js/main.js:90-191 | no ensures; the pass as written, with `activationOffset` possibly unbound, specified by `PassAsWrittenOutcome` |
| `Navigation.PassAsWrittenOutcome` | js/main.js:104-164 | as written, the pass throws exactly on the desktop path over at least one section when `activationOffset` is unbound; with a bound offset it is the intended pass |
| `Navigation.AsWrittenLosesPageLink` | js/main.js:94-164 | as written, a desktop pass over sections leaves no `.nav-menu` nav-link or sub-link highlighted, the current page's included, while the pass with an activation offset highlights the current page's link |
| `Navigation.NavigationMenu.ClearActive` | js/main.js:94-102 | removes `active` from exactly the `.nav-menu .nav-link` and `.nav-menu .sub-link` anchors and hides every sub-menu |
| `Navigation.NavigationMenu.MarkSectionLink` | js/main.js:168-189 | highlights the link to the resolved section and, when the parent qualifies, the parent link, and displays the sub-menu between them, as `SectionMarks` gives |
| `Navigation.NavigationMenu.UpdateActiveSidebarLinks` | js/main.js:90-191 | the new classes and displays are the reset old state plus the marks `PassMarks` gives for these inputs |
| `Navigation.NavigationMenu.MarkTopNavbarLinks` | js/main.js:196-203 | the loop leaves exactly the classes `TopNavbarMarked` describes, displays untouched |
| `Navigation.NavigationMenu.SetInitialActiveLinks` | js/main.js:193-207 | top-bar marking followed by a full pass |
| `Gallery.NextScroll` | js/main.js:416-419 | the next position is 0 or the advanced one; it is below half the scroll width or 0; a position in `[0, scrollWidth/2)` with a non-negative speed stays there |
| `Gallery.AutoScrollGallery.constructor` | js/main.js:404-407 | starts at position 0, neither paused nor touched |
| `Gallery.AutoScrollGallery.AnimateScroll` | js/main.js:413-421 | paused or touched: nothing moves; otherwise one `NextScroll` step, written to `scrollLeft`; the loop range is preserved |
| `Terminal.Completed` | script.js:39 | n completed prompt lines, the k-th showing command k's markup without cursor |
| `Terminal.TypeCommandStep` | script.js:28-64 | no ensures; one `typeCommand` call, specified by `TypeCommandStepProgress`, `TypingStepAppendsOne` and `FinishingAdvances` |
| `Terminal.LoadStep` | script.js:66-78 | no ensures; the load handler, specified by `StepProgress` and `TranscriptFromLoad` |
| `Terminal.OutputStep` | script.js:58-61 | no ensures; the output callback, specified by `StepProgress` (nothing left scheduled) and `RunsToCompletion` |
| `Terminal.Step` | script.js:28-78 | no ensures; the next pending callback, specified by `StepProgress` |
| `Terminal.TypeCommandStepProgress` | script.js:28-64 | a `typeCommand` call from a typing state keeps the invariant and brings the end exactly one callback closer |
| `Terminal.StepProgress` | script.js:28-78 | every callback keeps the invariant (typed prefix, `charIndex` within the text, `currentCommand` within the list, line layout) and brings the end one callback closer; once done nothing is scheduled |
| `Terminal.Run` | script.js:36-55 | any number of callbacks keeps the invariant |
| `Terminal.RunsToCompletion` | script.js:41-61 | from any reachable state, the remaining callbacks end with every command shown as markup, one prompt per command, and the output appended once |
| `Terminal.TranscriptFromLoad` | script.js:66-78 | from page load, after one callback per character, one per command and one for the output, the terminal holds one prompt line per command and then the output links |
| `Terminal.TypingStepAppendsOne` | script.js:31-35 | a typing step appends exactly the next character and increases `charIndex` by 1 |
| `Terminal.FinishingAdvances` | script.js:39-53 | finishing a command that is not last shows its markup, increments `currentCommand` by 1, resets `charIndex` and `tempLine`, and appends one new prompt |
| `Terminal.TerminalSession.constructor` | script.js:4-26 | the globals start at command 0, nothing typed, no lines, waiting for load |
| `Terminal.TerminalSession.TypeCommand` | script.js:28-64 | the method's new state is `TypeCommandStep` of the old one, and the invariant holds |
| `Terminal.TerminalSession.OnLoad` | script.js:66-78 | the load handler appends the first prompt and types, as `Step` specifies |
| `Terminal.TerminalSession.RunPendingTimer` | script.js:55-61 | the pending timer does what `Step` specifies, and the remaining-callback count drops by one |
| `ExtensionCase.ToLower` | script.py:2 | `\L` maps a capital to the small letter 32 code points above it and keeps every other character |
| `ExtensionCase.Substitute` | script.py:2 | no ensures; sed's left-to-right search for `\.[A-Z]+$`, specified by `SubstituteFindsMatch` and `SubstituteWithoutMatch` |
| `ExtensionCase.LowercaseExtension` | script.py:2 | no ensures; `sed -E 's/\.[A-Z]+$/\L&/'`, specified by `ChangedIffUpperExtension`, `UpperExtensionLowered`, `StemKept`, `LowercaseExtensionShape` and `Idempotent` |
| `ExtensionCase.MatchUnique` | script.py:2 | `\.[A-Z]+$` can match at one position only |
| `ExtensionCase.SubstituteFindsMatch` | script.py:2 | sed's left-to-right search rewrites the one match: the text before it is kept, the match is lowercased |
| `ExtensionCase.SubstituteWithoutMatch` | script.py:2 | with no match the name is unchanged |
| `ExtensionCase.UpperExtensionLowered` | script.py:2 | `stem.EXT` with an all-capital non-empty extension becomes `stem.ext` |
| `ExtensionCase.ChangedIffUpperExtension` | script.py:2 | a name changes exactly when it ends in a dot followed by capitals only (`a.MP4`, `a.JpG`, `a.`, `a` are kept) |
| `ExtensionCase.LowercaseExtensionShape` | script.py:2 | the rewrite keeps the length, and each character is kept or is a lowered capital |
| `ExtensionCase.StemKept` | script.py:2 | everything up to and including the extension's dot is kept |
| `ExtensionCase.Idempotent` | script.py:2 | rewriting an already rewritten name changes nothing |
| `ExtensionCase.Dirname` | script.py:2 | no ensures; `dirname`, specified by `DirectoryKept` |
| `ExtensionCase.Basename` | script.py:2 | no ensures; `basename` of a path without a trailing slash is its last segment, specified by `LastSegmentIsTail` and `DirectoryKept` |
| `ExtensionCase.NewName` | script.py:2 | no ensures; the directory, a slash and the rewritten basename, specified by `DirectoryKept` |
| `ExtensionCase.NeedsRename` | script.py:3 | no ensures; the guard `[ "$fname" != "$newname" ]`, specified by `RenameGuard` |
| `ExtensionCase.TrimTrailingSlashes` | script.py:2 | `dirname`'s slash trimming removes exactly the trailing slashes: a prefix that does not end in a slash, followed in the input only by slashes |
| `ExtensionCase.DirectoryKept` | script.py:2 | for a path printed by `find .`, the directory part is kept verbatim and only the last segment is rewritten |
| `ExtensionCase.RenameGuard` | script.py:3-5 | for a path printed by `find .`, `mv` runs exactly when the file name ends in an all-capital extension |

## Left out

- Event wiring is not modelled: the listeners, the `load`, `resize`, `scroll` and `DOMContentLoaded`
  handlers, and the 50 ms `debounce` (js/main.js:2-10, 57-64, 546-555). These are event-loop
  scheduling with no decision logic.
- Smooth scrolling on nav-link click (js/main.js:66-88), the mobile menu toggling (13-50), the image
  and project modals, the IntersectionObserver reveal, and the ripple effect are not modelled. These
  are DOM and CSS side effects with fixed animation delays.
- The profile-name typing effect of js/main.js:517-542 is not modelled. It is a timer-driven reveal
  like the terminal's typing step.
- Gallery: content duplication, `requestAnimationFrame` rescheduling, hover and touch handlers with
  their 300 ms delay, the `scroll` listener of lines 456-460, which re-reads `currentScroll` from the browser's clamped and
  rounded `scrollLeft` after every moving frame (the step's own write at line 420 fires it too), and the `creative.html` page check
  are not modelled. Only the frame step is.
- Gallery.AutoScrollGallery.AnimateScroll: the browser's clamping and rounding of `scrollLeft` are not
  modelled. The written value is taken as is.
- Markup the model does not represent:
  - Non-anchor elements carrying the `nav-link` class.
  - A non-anchor `previousElementSibling` carrying `nav-link`. The source would throw on its missing
    `href`.
  - Anchors without an `href`.
  - Hrefs containing a double quote, which break the attribute selector.
- Strings are sequences of Dafny characters, not UTF-16 code units.
- Timer delays (100 ms, 500 ms) are not modelled. Only the order of the callbacks is.
- HTML strings are opaque line contents.
- The terminal's `#terminal-content` is taken to be empty before load. The page markup that holds it is
  not part of this model.
- `script.py`:
  - `find`, the `while read` loop (which trims blanks and eats backslashes) and `mv` are I/O and are not
    modelled.
  - `[A-Z]` is taken in the C locale.
  - `dirname` is modelled for paths that do not end in a slash, which `find -type f` never prints.

## Findings

| source | as written | input that shows it | evidently intended | confidence | as-written member | corrected member |
|---|---|---|---|---|---|---|
| js/main.js:130 | the desktop branch reads `activationOffset`, which is declared nowhere in the file; the header height computed into `topNavbarHeight` at line 92 is never used | any viewport wider than 768 px with at least one `.main-content .section`: the pass throws a ReferenceError after the reset of lines 94-102, so no `.nav-menu` nav-link or sub-link is highlighted, not even the current page's | the activation line is the `.top-navbar` height of line 92 | likely (another script on the page could define a global of that name); not executed | `Navigation.AsWrittenLosesPageLink` | `Navigation.PassMarks` |
