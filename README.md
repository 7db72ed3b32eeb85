# UniqueAdz site scripts — a Dafny model

This project models the deterministic rules inside the browser scripts of the
UniqueAdz marketing site (`js/animations.js` and `js/main.js`), with the DOM,
timers and the network replaced by plain values, explicit event methods and
tick methods:

- **Scroll animations and counters** (`animation_controller.dfy`, module
  `AnimationController`): the class change of `triggerAnimation`, the stat
  counter of `animateCounter` (a class whose `Tick` is one firing of the 16 ms
  interval), and the `counted` guard of `setupCounterAnimation` (a class whose
  `OnEntries` is one observer callback).
- **Stagger delays** (`stagger_animation.dfy`, module `StaggerAnimation`): the
  in-place loop that gives child *i* the delay `i * delay` and the `animated`
  class.
- **ScrollReveal** (`scroll_reveal.dfy`, module `Reveal`): the option merge
  (`||` defaults, then a spread of the caller's options) and the one-shot
  reveal of each `[data-reveal]` element.
- **Text effects** (`text_animation.dfy`, module `TextAnimation`): the
  typewriter (a class whose `Type` is one run of the inner `type` closure) and
  the word fade (`fadeInWords`).
- **Navigation** (`navigation.dfy`, module `Navigation`): the active-link loop,
  the menu/hamburger `active` flags under the three handlers, and the navbar's
  `scrolled` threshold.
- **Contact form** (`contact_form.dfy`, module `ContactForm`): `validateForm`,
  including the e-mail regular expression `/^[^\s@]+@[^\s@]+\.[^\s@]+$/`, and
  the button state machine of `handleFormSubmit` (`Submit`, then `Settle` with
  an abstract fetch outcome).
- **Query parameters** (`url_parameter.dfy`, module `UrlParameter`):
  `getUrlParameter`, with `location.search` and `decodeURIComponent` passed in.
- Shared helpers: `js_values.dfy` (`JsValues`: optional values, JavaScript
  values, truthiness, `||`) and `js_strings.dfy` (`JsStrings`: the JavaScript
  white-space class, `trim`, `split`/`join` on one character, counting).

Inputs the scripts read from the environment become parameters:
`window.location.pathname`, `window.scrollY`, `location.search`, the text of
an element and the number `parseInt` reads from it, the batch of
intersection entries, the pressed key, and the outcome of the POST.

## Model

| member | source | states |
|---|---|---|
| `AnimationController.AnimationType` | js/animations.js:44 | The animation class is the `data-animate` value when it is present and non-empty, and `fadeInUp` when it is missing or empty. |
| `AnimationController.TriggerAnimation` | js/animations.js:43-48 | `classList.add` throws, and nothing changes, exactly when the animation name is not a valid class token: empty, or containing ASCII white space such as `data-animate="fade in"`. Otherwise the element keeps all its classes and gains exactly `animated` and its animation class; opacity becomes `1` and transform `none`. |
| `AnimationController.DefaultAnimationApplies` | js/animations.js:44-45 | An element without a (non-empty) `data-animate` always gets the `fadeInUp` class. |
| `AnimationController.TriggerAnimationIdempotent` | js/animations.js:29-36 | Triggering an already animated element again changes nothing. |
| `AnimationController.Increment` | js/animations.js:77-78 | The increment is `target / (2000 / 16)`, so 125 increments add up to the target. |
| `AnimationController.CurrentClosedForm` | js/animations.js:79-82 | After `k` ticks of `current += increment` from 0, `current` equals `k` increments. |
| `AnimationController.StopsExactlyAtFinish` | js/animations.js:81-85 | Up to the finishing tick, `current >= target` holds exactly on that tick: the 1st tick for a target of at most 0, the 125th for a positive target. |
| `AnimationController.DisplayNeverDecreases` | js/animations.js:82-87 | For a positive target, `Math.floor(current)` never decreases from one tick to the next. |
| `AnimationController.CounterSuffix` | js/animations.js:74-75 | The suffix is `%` exactly when the text contains `%`, and `+` otherwise. Trimming cannot remove a `%`. |
| `JsStrings.TrimKeepsNonWhitespace` | js/animations.js:74-75 | `trim` removes only white space, so a non-white-space character is in the trimmed text exactly when it is in the text. |
| `AnimationController.StatCounter.constructor` | js/animations.js:73-80 | A started counter is running and still shows the original text. Its suffix follows the `%` rule and its increment is `target/125`. |
| `AnimationController.StatCounter.Tick` | js/animations.js:81-89 | Each tick of a running counter adds one increment. While it keeps running it shows `floor(current)` plus the suffix, strictly below the target, and for a positive target never less than before. The tick that reaches the target shows exactly the target plus the suffix and clears the timer. A cleared timer never changes anything. The invariant bounds the ticks by `TicksToFinish`. |
| `AnimationController.CounterStarts` | js/animations.js:58-66 | One batch starts counters only for targets that are not yet counted, and never twice for the same target. |
| `AnimationController.CounterStartsExact` | js/animations.js:59-64 | Every started element comes from an intersecting entry, and every intersecting entry's target ends up counted. |
| `AnimationController.CounterObserver.constructor` | js/animations.js:51-70 | Every `.stat-number` element is observed. The elements already marked `counted` in the markup are taken as given. No counter has started. |
| `AnimationController.CounterObserver.OnEntries` | js/animations.js:58-66 | The callback appends exactly the batch's starts to the `animateCounter` calls, marks them counted and unobserves them. The invariant holds across calls: no element's counter is ever started twice. |
| `StaggerAnimation.StaggeredDelays` | js/animations.js:121-124 | After staggering, every child is `animated` and keeps its classes. Child `i` has delay `i * delay`, the first child 0, and with a non-negative step the delays never decrease. |
| `StaggerAnimation.StaggerChildren` | js/animations.js:119-125 | The loop updates the children array in place to exactly the staggered children. |
| `StaggerAnimation.OnContainerEntry` | js/animations.js:130-139 | An intersecting container has its children staggered and is unobserved. Any other entry changes nothing. |
| `Reveal.MergeOptions` | js/animations.js:154-161 | Every key the caller supplies keeps the caller's value, even a falsy one. Only absent keys among duration/delay/distance/easing get 600/0/30/cubic-bezier. No other key is added. |
| `Reveal.MergeIsDefaultsOverridden` | js/animations.js:155-160 | The merge equals the defaults overridden by the options, so the `||` tests never decide the result. |
| `Reveal.NoOptionsGivesDefaults` | js/animations.js:154 | Calling the constructor with no options gives exactly the four defaults. |
| `Reveal.ScrollReveal.constructor` | js/animations.js:165-182 | The options are merged, and every `[data-reveal]` element is hidden, shifted by `distance` and observed. |
| `Reveal.ScrollReveal.OnEntry` | js/animations.js:168-190 | An intersecting element gets the revealed style and is unobserved. The invariant keeps observed elements hidden and unobserved elements revealed. |
| `TextAnimation.TypeWriter.constructor` | js/animations.js:297-309 | `typeWriter` clears the element and runs `type` once, so it shows the first character at most. |
| `TextAnimation.TypeWriter.Type` | js/animations.js:301-307 | While characters remain, a run appends exactly the next one and schedules another run; otherwise it does nothing and schedules nothing. The invariant: after k runs the text is the first `min(k, length)` characters. |
| `TextAnimation.StoppedTypeWriterShowsText` | js/animations.js:301-307 | Once no run is scheduled, the element shows the whole text. |
| `TextAnimation.FadeInWords` | js/animations.js:312-324 | There is one span per `' '`-separated piece. Span k holds the piece plus a space, with delay `k * speed`. Together the spans read as the original text plus one trailing space. |
| `TextAnimation.SpansReadBack` | js/animations.js:316-322 | Spans holding `words[k] + ' '` read as the words joined by spaces, plus one space. |
| `JsStrings.JoinSplit` | js/animations.js:313 | Joining the pieces of a split gives back the original text. |
| `JsStrings.SplitJoin` | js/animations.js:313 | Splitting a join of separator-free pieces gives back the pieces, so the split is a bijection onto its image. |
| `Navigation.IsCurrentPage` | js/main.js:60-61 | The two-disjunct test holds exactly when the href equals the current path; the `'/'` disjunct adds nothing. |
| `Navigation.MarkActive` | js/main.js:59-63 | A link is active exactly when its href is the current path. Its href and its other classes are unchanged. |
| `Navigation.UpdateActiveNavLink` | js/main.js:54-65 | After the loop, every link is marked as `MarkActive` says, so a link is active iff its href equals the current path. |
| `Navigation.HamburgerTwiceIsIdentity` | js/main.js:25-28 | Two hamburger clicks restore the menu state. |
| `Navigation.HandlersKeepFlagsInStep` | js/main.js:25-38 | Every handler keeps a missing element's flag false. When both elements exist, the handlers keep the menu and hamburger flags equal if they start equal. |
| `Navigation.ClosingHandlersCloseBoth` | js/main.js:32-38 | On a page with a menu, a nav-link click or Escape leaves both menu and hamburger inactive. |
| `Navigation.NavMenu.OnHamburgerClick` | js/main.js:24-29 | The click toggles both flags together when both elements exist. |
| `Navigation.NavMenu.OnNavLinkClick` | js/main.js:32-39 | The click clears the menu flag, and the hamburger flag when there is a hamburger. |
| `Navigation.NavMenu.OnKeyDown` | js/main.js:305-316 | Escape clears the flag of each element that exists. Other keys change nothing. |
| `Navigation.NavbarOnScroll` | js/main.js:45-51 | After a scroll event the navbar has `scrolled` exactly when scrollY > 50. Its other classes are untouched. |
| `ContactForm.EmailShapeIsRegex` | js/main.js:193-195 | The regular expression accepts exactly the strings with no white space, exactly one `@`, a non-empty part before it, and a `.` after it that is neither the first nor the last character of the domain. |
| `ContactForm.ValidateForm` | js/main.js:183-199 | The form is valid exactly when name, email and message are present and non-empty and the email matches the regular expression. |
| `ContactForm.BlankFieldsPass` | js/main.js:184-190 | A name and message made only of white space pass, since nothing is trimmed. |
| `ContactForm.Settlement` | js/main.js:165-176 | The notice is a success exactly when `response.ok`. A not-ok response and a rejected fetch give the same error notice. |
| `ContactForm.Form.Edit` | js/main.js:142-143 | The fields that `new FormData(form)` reads are whatever the user last entered, even while a POST is pending. Nothing else changes. |
| `ContactForm.Form.Submit` | js/main.js:139-158 | An invalid form gets one error notice, no request and an untouched button. A valid form without a `button[type="submit"]` throws at line 153: no notice, no request, nothing changes. A valid form with one posts its data once, and its button is disabled and reads `Sending...`. |
| `ContactForm.Form.Settle` | js/main.js:165-180 | When the POST settles there is one notice (success exactly when `response.ok`). The fields reset to their defaults on an ok response only and are otherwise kept. The button is re-enabled with its original text. |
| `UrlParameter.FindKey` | js/main.js:251-252 | Finds the leftmost position where `?name=` or `&name=` occurs, or reports that none does. |
| `UrlParameter.ValueRun` | js/main.js:251 | The captured value is the longest run of characters without `&` or `#` after the `=`. |
| `UrlParameter.PlusToSpace` | js/main.js:253 | Every `+` becomes a space and nothing else changes. |
| `UrlParameter.GetUrlParameter` | js/main.js:249-254 | The result is `''` when no `?name=` or `&name=` occurs. Otherwise it is the decoded, plus-to-space value after the leftmost occurrence, up to the next `&`, `#` or the end. A decoding failure is a URIError. |

## Left out

- Observer, listener and selector wiring (`IntersectionObserver` construction, `observe`, `addEventListener`, `querySelectorAll`): the callbacks are methods called with the entries or events they would receive.
- AnimationController.TriggerAnimation: a throwing `classList.add` also aborts the rest of the batch in the scroll observer's callback (js/animations.js:30-35) and skips its `unobserve`. That callback belongs to the wiring above, so the model reports the throw only as a None result for the one element.
- The scroll-animation observer of `setupScrollAnimations` (js/animations.js:19-41) and `initializeIntersectionObserver` (js/main.js:103-126) are observer wiring and inline styles. Only the effect of `triggerAnimation` is modelled.
- Parallax (js/animations.js:94-111, js/main.js:89-96) is floating-point transforms with nothing to state beyond the formula.
- `parseInt`: the counter takes the parsed target as an integer input. Text that parses to NaN makes the real timer run forever; that case is not modelled.
- AnimationController.StopsExactlyAtFinish: uses exact rational arithmetic. With JavaScript doubles, `current` after 125 increments can differ from the target by rounding, so the real timer may stop one tick later.
- AnimationController.StatCounter.Tick: the display is a number and a suffix character, not JavaScript's rendering of the number as text.
- Timer timing: the interval period, the `speed` of the typewriter and the `setTimeout` ordering are not modelled. Ticks and `Type` runs are explicit calls.
- `debounce`, the FPS monitor and the performance logging (js/main.js:236-246, 341-348; js/animations.js:363-409) are about timers, consoles and analytics.
- `trackEvent`/`gtag` analytics, console logging, focus outlines, the `page-loaded` class, hover effects, the background keyframe injection, lazy image loading and smooth-scroll anchors are DOM side effects with nothing to state.
- `showNotification` styling and its removal after four seconds: a notice is recorded as a message and a kind.
- `fetch` is not modelled: the POST is recorded as the submitted data, and its outcome is an input (ok, not ok, rejected). The URL, headers and encoding are not modelled.
- ContactForm.Form.Submit: requires that no POST is pending, because a browser does not submit a form through a disabled submit button. A submit forced by script while the button is disabled is not modelled.
- `decodeURIComponent` (section 19.2.6.2 of ECMA-262) is a parameter of `GetUrlParameter`, returning nothing where it would throw a URIError.
- UrlParameter.GetUrlParameter: requires a key whose only regular-expression metacharacters are at most one `[` and one `]`, which the function escapes. With other metacharacters the pattern is not the literal key, or does not compile.
- Strings are sequences of Unicode scalar values. JavaScript's `split` and `charAt` work on UTF-16 code units, so text outside the Basic Multilingual Plane is not modelled exactly.
- FormData values are strings. File entries and repeated names are not modelled; `get` returns the first value.
