# Glint pitch deck: slide navigation model

The pitch-deck page (`PitchDeck` in `app/page.tsx`) is a single client-side
component showing one of twelve static slides. Its only behaviour is a small
state machine: the current slide index, which starts at 0, and a flag that shows
the side arrows while the pointer is over the page. Three transitions change the
index. `nextSlide` and `prevSlide` saturate at the ends of the deck. `goToSlide`
jumps to any index. These transitions are driven by the header and side buttons,
the ArrowRight/ArrowLeft keys and the twelve dot indicators.

The model has four modules:

- `Navigation` (navigation.dfy): the deck size, the `Deck` state, and the three
  transitions as pure functions on the index.
- `View` (view.dfy): the facts the page derives from the state. These are the
  disabled buttons, the "n / 12" counter, the rendered slide block, the
  highlighted dot and the side-arrow opacity.
- `Events` (events.dfy): the event type (button clicks, dot clicks, key presses,
  pointer enter and leave), the key dispatch, one `Step` per event, the fold
  `Run` over an event sequence, and `Replay`, the sequential event loop.
- `DeckProperties` (properties.dfy): properties that span whole event
  sequences. These cover the range invariant, saturation, round trips,
  key/button agreement and pointer independence.

The guards in `nextSlide` and `prevSlide` are equality tests
(`prev === totalSlides - 1`, `prev === 0`), and the model keeps them as
written. So an index outside 0..11 is not pulled back: next from 12 gives 13,
and previous from -1 gives -2. Only `goToSlide` with an out-of-range argument
could produce such an index (`UncheckedGoToLeavesDeck`). The page never does,
because its dots pass 0..11 only (`RunStaysInRange`).

A click on a disabled button is not delivered by the browser. `Step` models this
as a no-op, and `DisabledClickIsNoOp` shows that this never differs from calling
the transition directly.

## Model

| member | source | states |
|---|---|---|
| Navigation.NextSlide | app/page.tsx:11-15 | next leaves the index unchanged exactly on the last slide (11) and otherwise adds one; an in-range index stays in range and never decreases |
| Navigation.PrevSlide | app/page.tsx:17-19 | previous leaves the index unchanged exactly on slide 0 and otherwise subtracts one; an in-range index stays in range and never increases |
| Navigation.GoToSlide | app/page.tsx:21-23 | jump sets the index to exactly the given value whatever the prior slide, so the result is in range iff the argument is |
| View.PrevDisabled | app/page.tsx:58-59 | the previous buttons (header, and the left side arrow at line 81) are disabled iff prevSlide would leave the index unchanged |
| View.NextDisabled | app/page.tsx:68-69 | the next buttons (header, and the right side arrow at line 94) are disabled iff nextSlide would leave the index unchanged |
| View.CounterLabel | app/page.tsx:64-66 | the counter shows position index+1 out of 12, and the position lies in 1..12 iff the index is a slide of the deck |
| View.RenderedSlides | app/page.tsx:108-805 | of the twelve `currentSlide === k` blocks, exactly block s is rendered for an in-range s, and none otherwise |
| View.ActiveDots | app/page.tsx:842-851 | only the dot whose index equals the current slide is highlighted, and for an in-range slide that dot is |
| View.ArrowOpacity | app/page.tsx:78-99 | a side arrow rests at opacity 60 iff the pointer is over the page and its transition would move the index, else at 0 |
| Events.HandleKey | app/page.tsx:27-33 | ArrowRight applies nextSlide, ArrowLeft applies prevSlide, and other keys leave the index alone; the result moves at most one slide and keeps an in-range index in range |
| Events.Step | app/page.tsx:13-45 | pointer events change only the arrow flag (enter shows, leave hides); other events change only the index; a dot click lands on its index; events the page can produce keep the index in range |
| Events.Replay | app/page.tsx:8-23 | dispatching events one at a time from mount yields the fold of the sequence, and the index stays in range when every dot index is in range |
| DeckProperties.RunStaysInRange | app/page.tsx:8-23 | from an in-range index, any sequence of button, key, pointer and dot events (dots carrying 0..11) keeps the index in 0..11 |
| DeckProperties.ReachableViewFacts | app/page.tsx:842-845 | on every state reachable from mount, exactly one slide block is rendered, the highlighted dot is that slide, and the counter lies in 1..12 |
| DeckProperties.OneSlideRendered | app/page.tsx:108-805 | exactly one slide block is rendered iff the index is in range, never more than one, and the highlighted dot set equals the rendered slide set |
| DeckProperties.NextsSaturate | app/page.tsx:13-15 | n next clicks or ArrowRight presses from an in-range index reach min(index+n, 11), arrow flag untouched |
| DeckProperties.PrevsSaturate | app/page.tsx:17-19 | n previous clicks or ArrowLeft presses from an in-range index reach max(index-n, 0), arrow flag untouched |
| DeckProperties.ElevenNextsReachLast | app/page.tsx:11-19 | eleven nexts from mount reach slide 11, a twelfth stays there, and one previous from there reaches slide 10 |
| DeckProperties.EverySlideReachable | app/page.tsx:842-845 | every slide 0..11 is reachable from mount by its dot and by stepping forward, through page-producible events |
| DeckProperties.NavigationRoundTrips | app/page.tsx:13-19 | for in-range s, previous undoes next below slide 11 and next undoes previous above slide 0 |
| DeckProperties.KeysMatchButtons | app/page.tsx:27-33 | ArrowRight acts exactly like a next button, ArrowLeft exactly like a previous button, and any other key changes nothing |
| DeckProperties.DisabledClickIsNoOp | app/page.tsx:56-99 | a button click always has the bare transition's effect on the index, and a click on a disabled button changes nothing |
| DeckProperties.SlideIgnoresPointer | app/page.tsx:42-46 | the index after any event sequence equals the index after the same sequence with all pointer events removed |
| DeckProperties.ArrowsFollowLastPointer | app/page.tsx:44-45 | after any event sequence the arrows are shown iff the last pointer event was an enter, or as before when there was none |
| DeckProperties.UncheckedGoToLeavesDeck | app/page.tsx:21-23 | goToSlide(12) is not a dot the page renders, yet it is taken as given; it renders no slide, and next then moves to 13 instead of saturating |
| DeckProperties.KeyboardScenario | app/page.tsx:27-33 | three ArrowRight presses from mount show slide 3, the first dot returns to 0, and ArrowLeft there stays at 0 |

## Left out

- JSX markup, Tailwind classes, slide copy and images: presentational content with no behaviour.
- `next/image` and `lucide-react` components: library code whose behaviour is not visible here.
- The `useEffect` registration and removal of the window keydown listener (app/page.tsx:26-39): React/DOM lifecycle. Only the key-to-transition dispatch is modelled, and keys are assumed to arrive while the page is mounted.
- React's `setState` batching and scheduling: each functional updater is treated as one synchronous pure transition, applied in event order.
- View.ArrowOpacity: models only the resting opacity (0 or 60). The `hover:opacity-100` state and the CSS transition are not modelled, because pointer hover over a single button is not part of the component state.
- The index is a JavaScript `number`. The model uses mathematical integers, because every caller passes an integer (0, ±1 steps, dot indices 0..11). Fractional or NaN arguments to `goToSlide` are not modelled.
- The external links and the "Get Early Access" button: they have no effect on the state.
- The dots' `aria-label` text and the `animate-fadeIn` class: presentation only.
