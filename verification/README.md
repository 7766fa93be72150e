# Review carousel navigation — Dafny model

This project models the navigation logic of the `Project` component of
react-reviews. The component is a carousel over a fixed list of review
records. It shows one review at a time. The user can move with "previous"
and "next", and can jump to a random review with "surprise me".

The model has three modules:

- `JsValues` (`js_values.dfy`) gives the flag type `string | boolean` and
  JavaScript truthiness, which is what `!!isDisabled` computes.
- `ArrowButton` (`arrow_button.dfy`) covers the `ArrowButton` component.
  A button whose `disabled` attribute is `!!isDisabled` ignores presses.
- `Project` (`project.dfy`) covers the component's state. The state is the
  cursor `review`, the two stored flags and the list length `count`. The
  module also defines:
  - the mounted state and the effect that re-derives the flags;
  - the three handlers, each gated by its button;
  - a run over any sequence of user events;
  - the lookup `reviews[review]`.

One user event is a press followed by the re-render and its effect. Events
are handled one at a time, as the single UI thread does.

The main property is `Project.RunPreservesValid`. From a valid state, any
sequence of events keeps `0 <= review < count`, and the flags stay in step
with the cursor. `Project.LookupInBounds` and `Project.Displayed` apply it to
the first screen, so `reviews[review]` is always in bounds.
`Project.ReachableIffIndex` shows that the invariant is also tight: every
valid index can be reached.

The handlers (`review - 1`, `review + 1`) check no bounds. The only guard
is the button's `disabled` attribute, which `Project.Click` models. The
component has no empty-list case. `Project.EmptyListEscapes` shows what
happens with no reviews: "next" is enabled on the first screen and moves the
cursor to 1. So the invariant lemmas require `count >= 1`.

## Model

| member | source | states |
|---|---|---|
| `Project.DisabledLeft` | src/components/Project.tsx:109-111 | The "previous" flag is truthy exactly when the cursor is 0; it is either the class string "fill-red-400" or `false` |
| `Project.DisabledRight` | src/components/Project.tsx:112-113 | The "next" flag is truthy exactly when the cursor is `count - 1`; it is either "fill-red-400" or `false` |
| `Project.Mount` | src/components/Project.tsx:105-107 | On mount the cursor is 0, the left flag is truthy and the right flag is falsy |
| `Project.Effect` | src/components/Project.tsx:109-114 | The effect keeps cursor and length, leaves the flags in step with the cursor, and changes nothing when they already are |
| `Project.Start` | src/components/Project.tsx:105-114 | The first screen has cursor 0 and "previous" disabled; "next" is disabled exactly when there is one review; it is valid for a non-empty list |
| `Project.RandomIndex` | src/components/Project.tsx:139 | `floor(r * count)` with `0 <= r < 1` is a valid index for a non-empty list (staying put allowed) |
| `Project.RandomIndexCovers` | src/components/Project.tsx:139 | Every index k is chosen by some random number (k / count), so "surprise me" can reach every review |
| `Project.Click` | src/components/Project.tsx:124-139 | A press changes only the cursor; a press on a disabled button changes nothing |
| `Project.Step` | src/components/Project.tsx:109-139 | One event keeps the list length, leaves the flags in step, and preserves the invariant |
| `Project.EnabledIff` | src/components/Project.tsx:93-114 | In a valid state "previous" is enabled iff cursor > 0, "next" iff cursor < count - 1, "surprise me" always |
| `Project.StepMoves` | src/components/Project.tsx:90-139 | Enabled "previous" moves the cursor by exactly -1, enabled "next" by exactly +1, "surprise me" to `RandomIndex`; a disabled press is a no-op |
| `Project.BoundaryPressesIgnored` | src/components/Project.tsx:90-135 | Since a button with a truthy flag is disabled (`!!isDisabled`), "previous" is unreachable on the first review and "next" on the last |
| `Project.RunPreservesValid` | src/components/Project.tsx:105-139 | Any sequence of events from a valid state ends in a valid state |
| `Project.HandleEvents` | src/components/Project.tsx:124-139 | Sequential dispatch of the handlers' presses (the event loop's role; the component has no loop): handling presses one at a time from a valid state agrees with `Run` and stays valid |
| `Project.CurrentReview` | src/components/Project.tsx:122 | In a valid state the rendered record is an element of the review list |
| `Project.LookupInBounds` | src/components/Project.tsx:122 | After any sequence of events from the first screen, `reviews[review]` is in bounds |
| `Project.Displayed` | src/components/Project.tsx:122 | The review on screen after any events from mount is one of the list's records |
| `Project.NextsWalk` | src/components/Project.tsx:132 | j presses of "next" that do not pass the last review move the cursor forward by exactly j |
| `Project.ReachableIffIndex` | src/components/Project.tsx:105-139 | An index is the cursor after some event sequence from the first screen iff `0 <= k < count` |
| `Project.SingleReviewIsFixed` | src/components/Project.tsx:109-139 | With one review, every event sequence leaves the first screen unchanged |
| `Project.MountFlagsBeforeEffect` | src/components/Project.tsx:106-114 | With one review the mounted flags enable "next", and the effect disables it |
| `Project.EmptyListEscapes` | src/components/Project.tsx:109-132 | With an empty list "next" is enabled on the first screen and moves the cursor to 1 |
| `Project.ThreeReviewScenario` | src/components/Project.tsx:109-135 | Three reviews: next, next, a refused next, then previous twice returns to review 0 |

## Left out

- Rendering: the SVG icons, the `Review` markup, the headings and the class
  strings built at src/components/Project.tsx:96-98. They are presentation
  only.
- React scheduling: the effect runs after the render, so the stored flags
  briefly lag the cursor. The model treats the render and the effect as one
  step after each press. No press is handled before the first effect.
- `Math.random` is floating point. It is modelled as a real in [0, 1)
  supplied with each "surprise me" press. IEEE rounding is not modelled.
- The review data module `../data/reviews` is not part of this model. It
  appears only as a list of `Review` records, and its length is `count`.
- Uniformity of "surprise me" is a statistical property and is not
  stated. `Project.RandomIndexCovers` states only that every index can be
  chosen.
