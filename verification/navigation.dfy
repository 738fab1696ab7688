/**
 The slide-index state machine of the pitch-deck page: the deck size, the
 component state, and the three navigation transitions `nextSlide`,
 `prevSlide` and `goToSlide`.

 React's functional state updaters are modelled as synchronous pure
 functions from the previous index to the next one.
 */
module Navigation {

  /** Number of slides in the deck. */
  const TotalSlides: int := 12

  /** Index of the last slide, where `nextSlide` stops. */
  const LastIndex: int := TotalSlides - 1

  /** The index names one of the deck's slides. */
  predicate InRange(s: int) {
    0 <= s < TotalSlides
  }

  /** The component's state: the current slide index and whether the side
      arrows are shown (the pointer is over the page). */
  datatype Deck = Deck(slide: int, showArrows: bool)

  /** State on mount: first slide, arrows hidden. */
  const Initial: Deck := Deck(0, false)

  /** `nextSlide`. The guard is an equality test against the last index, so
      the index saturates at the end of the deck; an index that is already
      past the deck keeps growing. */
  function NextSlide(s: int): (r: int)
    ensures r == s <==> s == LastIndex
    ensures r != s ==> r == s + 1
    ensures InRange(s) ==> InRange(r) && s <= r
  {
    if s == LastIndex then s else s + 1
  }

  /** `prevSlide`. Saturates at the first slide; the guard is an equality
      test against 0, so a negative index keeps falling. */
  function PrevSlide(s: int): (r: int)
    ensures r == s <==> s == 0
    ensures r != s ==> r == s - 1
    ensures InRange(s) ==> InRange(r) && r <= s
  {
    if s == 0 then s else s - 1
  }

  /** `goToSlide(index)`: the index is taken as given, with no bounds check,
      whatever the previous slide was. */
  function GoToSlide(s: int, index: int): (r: int)
    ensures r == index
    ensures InRange(r) <==> InRange(index)
  {
    index
  }
}
