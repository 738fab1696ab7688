/**
 What the page shows for a given state: which navigation buttons are
 disabled, the "n / total" counter, which slide block is rendered, which dot
 is highlighted, and how opaque the side arrows are.
 */
module View {
  import opened Navigation

  /** The "previous" buttons (header and left side) are disabled exactly
      when going back would leave the index where it is. */
  function PrevDisabled(s: int): (b: bool)
    ensures b <==> PrevSlide(s) == s
  {
    s == 0
  }

  /** The "next" buttons (header and right side) are disabled exactly when
      going forward would leave the index where it is. */
  function NextDisabled(s: int): (b: bool)
    ensures b <==> NextSlide(s) == s
  {
    s == LastIndex
  }

  /** The header counter "{position} / {total}". */
  datatype Counter = Counter(position: int, total: int)

  /** The counter shows the 1-based position of the current slide out of the
      deck size; it names a real slide exactly when the index is in range. */
  function CounterLabel(s: int): (c: Counter)
    ensures c.total == TotalSlides
    ensures InRange(s) <==> 1 <= c.position <= c.total
    ensures c.position - 1 == s
  {
    Counter(s + 1, TotalSlides)
  }

  /** The guard `currentSlide === k` shared by slide block k and dot k. */
  predicate Selected(s: int, k: int) {
    s == k
  }

  /** The slide blocks whose guard `currentSlide === k` holds, for the twelve
      blocks k = 0 .. TotalSlides - 1. */
  function RenderedSlides(s: int): (r: set<int>)
    ensures InRange(s) ==> r == {s}
    ensures !InRange(s) ==> r == {}
  {
    set k | 0 <= k < TotalSlides && Selected(s, k)
  }

  /** The dot indicators, one per slide, highlighted when their index equals
      the current slide. */
  function ActiveDots(s: int): (r: set<int>)
    ensures forall k :: k in r ==> InRange(k) && k == s
    ensures InRange(s) ==> s in r
  {
    set index | 0 <= index < TotalSlides && Selected(s, index)
  }

  /** The two side arrows. */
  datatype Side = Left | Right

  /** The side arrow's resting opacity in percent (hover not modelled): a
      disabled arrow is invisible; otherwise it shows at 60 while the pointer
      is over the page and is hidden at 0 when it is not. */
  function ArrowOpacity(d: Deck, side: Side): (o: int)
    ensures o == 0 || o == 60
    ensures o == 60 <==>
      d.showArrows && (if side == Left then PrevSlide(d.slide) else NextSlide(d.slide)) != d.slide
  {
    var disabled := if side == Left then PrevDisabled(d.slide) else NextDisabled(d.slide);
    if disabled then 0 else if d.showArrows then 60 else 0
  }
}
