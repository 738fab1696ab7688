/**
 The events the page reacts to, how each one changes the deck state, and the
 fold of a whole event sequence over the state.
 */
module Events {
  import opened Navigation
  import opened View

  /** Everything the page listens to. Header and side buttons share their
      click handler and their disabled condition, so one event stands for
      both placements. */
  datatype Event =
    | ClickPrev               // a "previous" button (header or left side)
    | ClickNext               // a "next" button (header or right side)
    | ClickDot(index: int)    // the dot indicator at `index`
    | KeyDown(key: string)    // a window-level keydown, by its `key` value
    | MouseEnter              // pointer enters the page container
    | MouseLeave              // pointer leaves the page container

  /** The key bound to `nextSlide`. */
  const ArrowRight: string := "ArrowRight"

  /** The key bound to `prevSlide`. */
  const ArrowLeft: string := "ArrowLeft"

  /** An event the page itself can produce: the dot indicators are rendered
      for the indices 0 .. TotalSlides - 1 only; every other event carries no
      index. */
  predicate FromPage(e: Event) {
    e.ClickDot? ==> InRange(e.index)
  }

  /** Every event of the sequence can be produced by the page. */
  predicate AllFromPage(evs: seq<Event>) {
    forall i :: 0 <= i < |evs| ==> FromPage(evs[i])
  }

  /** The keydown handler: ArrowRight advances, ArrowLeft goes back, and any
      other key leaves the index alone. */
  function HandleKey(s: int, key: string): (r: int)
    ensures key == ArrowRight ==> r == NextSlide(s)
    ensures key == ArrowLeft ==> r == PrevSlide(s)
    ensures key != ArrowRight && key != ArrowLeft ==> r == s
    ensures InRange(s) ==> InRange(r)
    ensures r == s || r == s + 1 || r == s - 1
  {
    if key == ArrowRight then NextSlide(s)
    else if key == ArrowLeft then PrevSlide(s)
    else s
  }

  /** One event applied to the state. A click on a disabled button is not
      delivered, so it changes nothing. Pointer events touch only the arrow
      flag; every other event touches only the index. */
  function Step(d: Deck, e: Event): (r: Deck)
    ensures (e.MouseEnter? || e.MouseLeave?) ==> r.slide == d.slide
    ensures !(e.MouseEnter? || e.MouseLeave?) ==> r.showArrows == d.showArrows
    ensures e.MouseEnter? ==> r.showArrows
    ensures e.MouseLeave? ==> !r.showArrows
    ensures FromPage(e) && InRange(d.slide) ==> InRange(r.slide)
    ensures e.ClickDot? ==> r.slide == e.index
  {
    match e
    case ClickPrev =>
      if PrevDisabled(d.slide) then d else d.(slide := PrevSlide(d.slide))
    case ClickNext =>
      if NextDisabled(d.slide) then d else d.(slide := NextSlide(d.slide))
    case ClickDot(index) => d.(slide := GoToSlide(d.slide, index))
    case KeyDown(key) => d.(slide := HandleKey(d.slide, key))
    case MouseEnter => d.(showArrows := true)
    case MouseLeave => d.(showArrows := false)
  }

  /** The events of a session, applied one after another in arrival order. */
  function Run(d: Deck, evs: seq<Event>): (r: Deck)
    decreases |evs|
  {
    if |evs| == 0 then d else Run(Step(d, evs[0]), evs[1..])
  }

  /** The browser's event loop: events are dispatched one at a time, each
      handler seeing the state the previous one left. */
  method Replay(evs: seq<Event>) returns (d: Deck)
    ensures d == Run(Initial, evs)
    ensures AllFromPage(evs) ==> InRange(d.slide)
  {
    d := Initial;
    var i := 0;
    while i < |evs|
      invariant 0 <= i <= |evs|
      invariant Run(d, evs[i..]) == Run(Initial, evs)
      invariant AllFromPage(evs) ==> InRange(d.slide)
    {
      assert evs[i..][1..] == evs[i + 1..];
      d := Step(d, evs[i]);
      i := i + 1;
    }
    assert evs[i..] == [];
  }
}
