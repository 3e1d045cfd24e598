# Portfolio page interaction logic, in Dafny

A model of the stateful logic inside the portfolio page's `script.js`: the
horizontal panel navigation with its indicator rows and the one-shot skill-bar
animation, the typewriter effect in the header, the project carousel, and the
contact form's validation guard. Each piece is written as an immutable state
datatype with pure step functions; DOM calls become outputs (a requested scroll
offset, a delay, a notice) and browser measurements become inputs (the window
width, the panel index the scroll position rounds to).

| file | module | models |
|---|---|---|
| `navigation.dfy` | `Navigation` | `scrollToPanel`, `updateNav`, the scroll, keydown and resize listeners, `animateSkills` with its flag and the load-time check |
| `typewriter.dfy` | `Typewriter` | the role list and `type()`, stated for any list of non-empty titles |
| `carousel.dfy` | `Carousel` | the next and prev buttons of the project slider |
| `contact_form.dfy` | `ContactForm` | `String.prototype.trim` and the validation in `submitForm` |

The script has a single layout: one horizontal track of full-width panels.
It has no viewport-width branch, so keyboard navigation and the scroll
listener behave the same at every window size, and the model has no layout
mode either.

## Model

| member | source | states |
|---|---|---|
| Navigation.Clamp | script.js:29 | The clamped index lies in `[0, N-1]` when there is at least one panel, equals the request when it is in range, is 0 below the range and `N-1` above it. |
| Navigation.UpdateNav | script.js:34-38 | Afterwards the current panel is `idx` and, in both indicator rows, position `j` is active iff `j = idx`; row lengths, panel count and skill flag are unchanged. |
| Navigation.UpdateNavIdempotent | script.js:34-38 | Syncing twice to the same index yields the same state as syncing once. |
| Navigation.UpdateNavFixedPoint | script.js:34-38 | A state whose rows already mirror its current panel is unchanged by syncing to that panel. |
| Navigation.ActiveAtCount | script.js:36-37 | A row synced to `idx` has exactly one active indicator when `idx` is one of its positions and none otherwise. |
| Navigation.ScrollToPanel | script.js:28-32 | The new current panel is the clamped target (so in range), indicators are synced to it, a smooth scroll to `idx × width` is requested, and the skill flag is untouched. |
| Navigation.ScrollToPanelIdempotent | script.js:28-32 | Navigating to the same target twice leaves the same controller as navigating once. |
| Navigation.OnScroll | script.js:40-46 | An observed index equal to the current panel changes nothing; a different one syncs to it and touches nothing else but the flag; the animation fires iff the index changes to panel 1 with the flag down, and the flag rises exactly then. |
| Navigation.OnKeyDown | script.js:49-52 | ArrowRight/ArrowDown act as navigating to `current+1`, ArrowLeft/ArrowUp as navigating to `current-1`, any other key changes nothing; the skill flag is never touched. |
| Navigation.ArrowKeysStepWithinBounds | script.js:49-52 | On a consistent controller the forward keys step one panel but stay on the last one, the backward keys step back but stay on the first one, and other keys leave the state unchanged. |
| Navigation.OnResize | script.js:55-57 | Resizing leaves the controller unchanged and requests a non-smooth scroll to `current × width`. |
| Navigation.Step | script.js:28-57 | No event changes the panel count or row lengths; the skill flag is never lowered; an event fires the animation iff it raises the flag; only scroll observations fire it. |
| Navigation.RunFiresAtMostOnce | script.js:40-46 | Along any sequence of events the number of animation firings equals the flag's final value minus its initial value (0 or 1), so it is at most one and zero if the flag starts raised. |
| Navigation.NoScrollNoAnimation | script.js:49-57 | Events that are not scroll observations (navigation, keys, resizes) never move the flag and never fire the animation, so reaching panel 1 by keyboard alone does not animate the skill bars. |
| Navigation.Load | script.js:78-86 | At load the current panel is 0 and the indicator rows are as given, and the skill bars are animated, with the flag raised, iff the track starts positioned at panel 1. |
| Navigation.LoadIsValid | script.js:78-86 | The page-load controller is consistent iff there is at least one panel, each indicator row has one entry per panel, and the markup lights the first entry of each row (and only it). |
| Navigation.AnimationFiresAtMostOnce | script.js:78-86 | Over the page lifetime (the load-time check followed by any events) the skill-bar animation fires at most once. |
| Navigation.ArrivalAtSkillsFires | script.js:44 | From a state with the flag down and another panel current, a scroll arriving at panel 1 raises the flag, and the whole run then fires exactly once however often panel 1 is revisited. |
| Navigation.StepKeepsValid | script.js:34-38 | An event whose observed index is one of the panels keeps the controller consistent: current panel in range and each row lit exactly there. |
| Navigation.RunKeepsValid | script.js:34-38 | Along any sequence of such events the controller stays consistent and each indicator row has exactly one active indicator. |
| Navigation.ObservedIndex | script.js:41 | For a whole-pixel offset and positive width, the result `r` is `Math.round(left / width)`: `r - 1/2 <= left / width < r + 1/2`. |
| Navigation.SettledScrollIsQuiet | script.js:28-46 | Once a requested scroll has settled, the scroll listener observes the requested panel and changes nothing. |
| Typewriter.RolesOk | script.js:60 | The page's four role titles form a usable title list: at least one title and none empty. |
| Typewriter.TitleStartIsValid | script.js:61 | The start of any title, in particular the page-load state (first title, nothing typed, not deleting), satisfies the typist invariant. |
| Typewriter.Type | script.js:63-74 | Each tick keeps the invariant (indices in range, a typing typist has not finished its title, a deleting one has a character left); the text shown is the prefix `roles[ri][..ci]`; typing adds one character, deleting removes one; the title changes only when the last character is deleted, and then to the next title cyclically. |
| Typewriter.TypePhaseAndDelay | script.js:66-73 | Deletion starts exactly when a title is completed and continues until its last character is removed: after a tick the typist is deleting iff it was deleting with two or more characters shown or has just completed the title. The delay is 1600 exactly on completing a title, 55 exactly while deletion continues, 100 otherwise. |
| Typewriter.Ticks | script.js:73-75 | Any number of ticks from a valid state keeps the invariant. |
| Typewriter.TicksAdd | script.js:73 | Running `a + b` ticks is running `a` ticks and then `b` more. |
| Typewriter.TypingCompletes | script.js:66-68 | From any typing state the title is complete, with deletion started, after as many ticks as characters remain. |
| Typewriter.DeletingCompletes | script.js:69-71 | A deleting typist with `c` characters shown reaches an empty screen at the start of the next title after `c` ticks. |
| Typewriter.RoundAdvancesTitle | script.js:63-74 | Starting on an empty screen, twice the title's length in ticks brings the typist to the start of the next title. |
| Typewriter.RoundsAdvanceTitles | script.js:71 | `j` complete rounds from title `ri` end at the start of the title `j` places further on, cyclically. |
| Typewriter.RolesCycle | script.js:60 | Stepping through the page's titles four times with wrap-around returns to the starting title, and the four titles have 55 characters in all. |
| Typewriter.RolesRounds | script.js:60 | Four rounds from any of the page's titles end back at that title and take 110 ticks. |
| Typewriter.CycleIsPeriodic | script.js:60-74 | From the start of any of the page's titles, 110 ticks (every title typed and deleted once) return the typist to the same state. |
| Typewriter.PeriodRepeats | script.js:73-75 | A state that recurs after `p` ticks recurs after every multiple of `p`. |
| Typewriter.CycleReturnsToStart | script.js:60-75 | The page-load state recurs after every multiple of 110 ticks. |
| Carousel.Next | script.js:91-93 | "Next" keeps length and multiset of the items, puts the first item last and shifts every other item one place forward. |
| Carousel.Prev | script.js:94-97 | "Prev" keeps length and multiset of the items, puts the last item first and shifts every other item one place back. |
| Carousel.PrevAfterNext | script.js:91-97 | "Prev" after "next" restores the original order. |
| Carousel.NextAfterPrev | script.js:91-97 | "Next" after "prev" restores the original order. |
| Carousel.NextTimes | script.js:91-93 | Any number of "next" presses keeps the length and multiset of the items. |
| Carousel.NextTimesRotates | script.js:91-93 | `k` presses of "next" (`k` at most the item count) move the first `k` items, in order, behind the rest. |
| Carousel.FullCycleIsIdentity | script.js:91-93 | Pressing "next" once per item restores the original order. |
| ContactForm.TrimStart | script.js:117-119 | Leading trimming keeps a suffix, drops only whitespace, and leaves no whitespace at the front. |
| ContactForm.TrimEnd | script.js:117-119 | Trailing trimming keeps a prefix, drops only whitespace, and leaves no whitespace at the end. |
| ContactForm.Trim | script.js:117-119 | A trimmed field is a contiguous slice of the input with only whitespace outside it, and a non-empty one starts and ends with a character that is not whitespace. |
| ContactForm.TrimEmptyIffBlank | script.js:120 | A field trims to the empty string iff it consists only of whitespace. |
| ContactForm.Submit | script.js:116-122 | The form is accepted iff none of the three fields is blank; a rejection leaves the form exactly as it was; an acceptance thanks the user with the trimmed name and e-mail and switches the button to its sent state, leaving the fields as typed. |

## Left out

- Pointer glow (script.js:7-14): floating-point division, `toFixed` formatting and CSS variable writes only.
- Theme toggle (script.js:17-19): a single class toggle with no logic.
- Navigation.ObservedIndex: models `Math.round(scrollLeft / innerWidth)` for whole-pixel offsets only; fractional scroll offsets and floating-point division are not modelled. Everywhere else the scroll listener and the load-time check take the observed index as an input.
- Smooth-scroll animation and `setTimeout` scheduling: only the requested offset and the requested delay are outputs. The intermediate scroll events a smooth scroll produces in a browser are separate `Scrolled` inputs; a keyboard step to panel 1 followed by those events does fire the animation, through the scroll listener.
- The number of indicators per row and which indicator is lit at load are set by the page markup, not by the script. The consistency results assume one dot and one nav button per panel with the first of each lit, the condition `Navigation.LoadIsValid` states.
- The typing effect's element lookup and text write: the displayed text is an output of each tick.
- CV download (script.js:101-113): base64 decoding, blob creation and the download click are browser library calls.
- After a successful validation (script.js:121-131): the exact button text and gradient, the alert wording and the 2.5-second timer that restores the button and clears the fields are not modelled; the button is reduced to a sent flag.
- Carousel.Next: requires a non-empty slide; on an empty slide the source passes `null` to `appendChild`, which throws.
- Carousel.Prev: requires a non-empty slide; on an empty slide the source prepends `undefined`, which the browser inserts as the text "undefined".
