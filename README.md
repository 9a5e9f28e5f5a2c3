# Portfolio page interactivity: typewriter, theme switch, navigation highlighting, scroll threshold

This project models the decision logic of `script.js`, the script behind a
personal portfolio page, and proves properties of it in Dafny.

- **Typewriter** (`typewriter.dfy`) is the hero-section animation `typeText`.
  It keeps the globals `typingIndex`, `charIndex` and `isDeleting`. Each tick
  writes a prefix of the current phrase into the `typing-text` element and
  moves `charIndex` one step. At the ends of a phrase it flips direction, and
  after erasing it moves to the next phrase modulo the phrase count. It then
  re-schedules itself after 100, 2000 or 50 ms. Class `Typewriter` holds the
  globals and the element's text. `Tick` is one call of `typeText`, and
  `Run(n)` stands for `n` self-scheduled calls. The pure function `Step`
  specifies one tick and `After`/`Frames` specify `n` ticks. The lemmas prove
  the tick invariant, the displayed prefix, the stepping and delay rules,
  the tick-by-tick run of one phrase, and that the whole animation is
  periodic (142 ticks for the page's own four phrases).
- **Theme** (`theme.dfy`) covers `initializeTheme`, `toggleTheme` and
  `updateThemeIcon` over the global `currentTheme`, the `data-theme`
  attribute, the toggle icon's class and the `theme` entry in
  `localStorage`. Storage is a field of the controller, and its value from an
  earlier visit is a constructor argument.
- **Navigation** (`navigation.dfy`) is `updateActiveNavigation`. Sections are
  given as (id, offsetTop, clientHeight) and links as their `href`
  attributes. The links' `active` classes are an array of flags.
- **Scroll** (`scroll.dfy`) is the threshold branch of `handleScroll`: the
  navbar's `scrolled` class and the back-to-top button's `visible` class.

The model follows the code's timing. There is no separate "hold" tick: the
tick that types a phrase's last character also starts erasing and asks for
2000 ms. There is no pause between phrases either: the tick that erases the
last character moves to the next phrase and asks for the erasing delay of
50 ms. In the model, a phrase of length L therefore takes exactly 2L ticks.

## Model

| member | source | states |
|---|---|---|
| Typewriter.JsSubstring | script.js:186-189 | on in-range arguments `substring(start, end)` is the slice between them, in either order; from 0 it is the prefix up to `end` clamped into the string |
| Typewriter.NextIndexIsMod | script.js:200 | for a valid index, `(i + 1) % N` is the next index, wrapping to 0 after the last; the specification functions use this form |
| Typewriter.Step | script.js:182-204 | one `typeText` call on a valid phrase index never leaves the range of phrase indices, so it can be repeated forever |
| Typewriter.StartInvariant | script.js:4-6 | the initial globals (0, 0, false) satisfy the tick invariant when every phrase is non-empty |
| Typewriter.StepInvariant | script.js:185-201 | every tick preserves the invariant: index in [0, N); while typing 0 <= charIndex < phrase length; while erasing 1 <= charIndex <= phrase length |
| Typewriter.StepShowsPrefix | script.js:182-201 | after each tick the displayed text is the first `charIndex` characters of the phrase at `typingIndex`, including the '' shown on the tick that wraps to the next phrase |
| Typewriter.StepRule | script.js:185-201 | a typing tick adds exactly 1 to `charIndex` and an erasing tick subtracts 1; erasing starts exactly on the tick that reaches the phrase length; typing resumes and the index becomes (i + 1) mod N exactly on the erasing tick that reaches 0, and the index changes on no other tick |
| Typewriter.DelayRule | script.js:193-203 | the next delay is 2000 after the tick that completes a phrase, 100 after any other typing tick, and 50 after every erasing tick, including the one that wraps |
| Typewriter.AfterAdd | script.js:203 | running a ticks then b ticks is running a + b ticks |
| Typewriter.FramesAt | script.js:203 | the t-th frame of a run is the frame of one tick from the state after t ticks |
| Typewriter.PhraseRun | script.js:182-201 | from (i, 0, typing), after t <= 2L ticks the state is (i, t, typing) for t < L, (i, 2L - t, erasing) for L <= t < 2L, and (i + 1 mod N, 0, typing) at t = 2L |
| Typewriter.PhraseFrames | script.js:182-203 | the 2L frames of one phrase show prefixes of length 1, 2, ..., L and then L - 1, ..., 0, with delays 100 (typing), 2000 (the completing tick) and 50 (erasing) |
| Typewriter.PhraseCycle | script.js:182-201 | typing and erasing a phrase of length L takes exactly 2L ticks and ends at (i + 1 mod N, 0, typing) |
| Typewriter.PhrasesFrom | script.js:182-201 | starting phrase j, twice the total length of phrases j..N-1 ticks later the animation is back at (0, 0, typing) |
| Typewriter.FullCycle | script.js:4-6 | after every phrase has been typed and erased once the globals equal their initial (0, 0, false): the animation is periodic with period twice the total phrase length |
| Typewriter.SiteCycle | script.js:18-23 | the page's four phrases are non-empty, and the animation returns to its initial state after 142 ticks |
| Typewriter.Typewriter.constructor | script.js:4-6 | the globals start at (0, 0, false) and satisfy the invariant |
| Typewriter.Typewriter.Tick | script.js:182-204 | one `typeText` call keeps the invariant, moves the globals exactly as `Step` does, writes the prefix of the current phrase of length `charIndex` into the element and returns it with the delay `Step` gives |
| Typewriter.Typewriter.Run | script.js:203 | n self-scheduled ticks leave the globals at `After(n)`, show exactly the frames `Frames(n)`, and leave the element holding the last frame's text (unchanged when n = 0) |
| Theme.Toggled | script.js:164 | the toggled theme is 'light' exactly when the current one is 'dark', and 'dark' otherwise |
| Theme.IconFor | script.js:172 | the icon class is 'fas fa-sun' exactly when the theme is 'dark', and 'fas fa-moon' otherwise |
| Theme.StartupTheme | script.js:153-158 | a truthy saved theme (non-null and non-empty) replaces the default 'dark'; otherwise 'dark' stays |
| Theme.ToggleTwice | script.js:163-164 | toggling twice is the identity on 'dark' and 'light', and turns any other stored theme into 'light' |
| Theme.ToggleChangesIcon | script.js:163-173 | every toggle changes the icon |
| Theme.ThemeController.UpdateThemeIcon | script.js:170-173 | the icon class is set from the current theme and nothing else changes |
| Theme.ThemeController.InitializeTheme | script.js:151-158 | with a truthy saved theme, the theme, the `data-theme` attribute and the icon all take it; otherwise nothing changes; storage is only read |
| Theme.ThemeController.ToggleTheme | script.js:163-168 | the theme becomes `Toggled` of the old one, and the attribute, the stored value and the icon all agree with it |
| Theme.LoadTheme | script.js:150-161 | at page load the theme in force is the truthy saved theme, or 'dark'; with a truthy saved theme the attribute and icon follow it, and otherwise they keep the markup's values, even where those disagree with 'dark' |
| Navigation.LastInView | script.js:133-140 | the index found is of a section in view, with no section after it in view; none is found only when no section is in view |
| Navigation.CurrentIdSpec | script.js:133-140 | `current` is the id of a section in view with none in view after it, or '' when no section is in view |
| Navigation.NothingInViewHighlightsBareHash | script.js:133-147 | with no section in view, exactly the links whose href is '#' are highlighted |
| Navigation.FindCurrent | script.js:133-140 | the loop leaves `current` equal to the id of the last section in view, or '' |
| Navigation.HighlightLinks | script.js:142-147 | afterwards a link is active exactly when its href equals '#' + current, and every other link is inactive |
| Navigation.UpdateActiveNavigation | script.js:129-148 | afterwards exactly the links pointing at the last section in view are active |
| Scroll.ScrollChrome.HandleScroll | script.js:221-227 | the navbar's 'scrolled' and the button's 'visible' are both set exactly when scrollTop > 100 (strictly) and both removed otherwise |

## Left out

- DOM lookup, event-listener wiring and `AOS.init`: these are glue around the modelled rules.
- The `setTimeout` scheduling itself. Each timeout is one more call of `Tick`, and `Run(n)` stands for n of them. Real time is not modelled; only the delays each tick asks for are.
- `initializeTypingAnimation`'s early return when the element is missing. The model assumes the element exists.
- Typewriter.Typewriter.constructor: the element's text before the first tick comes from the page markup, which is not part of this model, so it is a constructor argument.
- String lengths: JavaScript counts UTF-16 code units and Dafny counts characters. The page's phrases contain only characters that are a single code unit, so the two agree for them.
- Numbers: `scrollY`, `offsetTop`, `clientHeight` and `pageYOffset` are integers in the model. The browser may report fractional scroll offsets, which are not modelled.
- The loading splash, scroll-percentage bar, parallax, particles, custom cursor, counters and skill bars: they rest on `Math.random`, floating-point tweening or IntersectionObserver callbacks.
- The contact form, notifications, image preloading, error listeners, accessibility toggles and injected CSS: asynchronous I/O and presentation only.
- `debounce` and `throttle`: their behaviour is timer timing.
- The `data-theme` attribute and the icon class before `initializeTheme` runs come from the page markup, which is not part of this model. They are arguments of `ThemeController`'s constructor and of `LoadTheme`.
- `localStorage` is a field of `ThemeController`. Persistence across visits is represented by the value passed to its constructor.
- Navigation links with no `href` attribute are `None`. They never match, just as `null === '#…'` is false.
