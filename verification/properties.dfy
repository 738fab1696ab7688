/**
 Properties of the deck over whole event sequences: the range invariant,
 saturation of repeated next/previous, the round trips between them, the
 agreement of keys and buttons, and the independence of the slide index from
 pointer events.
 */
module DeckProperties {
  import opened Navigation
  import opened View
  import opened Events

  /** `n` copies of the same event. */
  function Repeat(e: Event, n: nat): seq<Event>
    decreases n
  {
    if n == 0 then [] else [e] + Repeat(e, n - 1)
  }

  function Min(a: int, b: int): int {
    if a <= b then a else b
  }

  function Max(a: int, b: int): int {
    if a <= b then b else a
  }

  predicate IsPointer(e: Event) {
    e.MouseEnter? || e.MouseLeave?
  }

  /** The events with every pointer event removed. */
  function WithoutPointer(evs: seq<Event>): seq<Event>
    decreases |evs|
  {
    if |evs| == 0 then []
    else if IsPointer(evs[0]) then WithoutPointer(evs[1..])
    else [evs[0]] + WithoutPointer(evs[1..])
  }

  /** The arrow flag as set by the LAST pointer event of the sequence, or
      `init` when there is none; searched from the back, independently of
      the fold. */
  function LastPointer(init: bool, evs: seq<Event>): bool
    decreases |evs|
  {
    if |evs| == 0 then init
    else match evs[|evs| - 1]
      case MouseEnter => true
      case MouseLeave => false
      case _ => LastPointer(init, evs[..|evs| - 1])
  }

  /** Running two sequences back to back is running their concatenation. */
  lemma {:induction false} RunAppend(d: Deck, a: seq<Event>, b: seq<Event>)
    ensures Run(d, a + b) == Run(Run(d, a), b)
    decreases |a|
  {
    if |a| == 0 {
      assert a + b == b;
    } else {
      assert (a + b)[1..] == a[1..] + b;
      RunAppend(Step(d, a[0]), a[1..], b);
    }
  }

  /** The range invariant: from an in-range index, no sequence of events the
      page can produce moves the index out of the deck. */
  lemma {:induction false} RunStaysInRange(d: Deck, evs: seq<Event>)
    requires InRange(d.slide)
    requires AllFromPage(evs)
    ensures InRange(Run(d, evs).slide)
    decreases |evs|
  {
    if |evs| > 0 {
      assert AllFromPage(evs[1..]) by {
        forall i | 0 <= i < |evs| - 1
          ensures FromPage(evs[1..][i])
        {
          assert evs[1..][i] == evs[i + 1];
        }
      }
      RunStaysInRange(Step(d, evs[0]), evs[1..]);
    }
  }

  /** On every state reachable from mount by the page's own events exactly
      one slide block is rendered, exactly the dot of that slide is
      highlighted, and the counter shows a position between 1 and the deck
      size. */
  lemma ReachableViewFacts(evs: seq<Event>)
    requires AllFromPage(evs)
    ensures |RenderedSlides(Run(Initial, evs).slide)| == 1
    ensures ActiveDots(Run(Initial, evs).slide) == RenderedSlides(Run(Initial, evs).slide)
    ensures 1 <= CounterLabel(Run(Initial, evs).slide).position <= TotalSlides
  {
    var s := Run(Initial, evs).slide;
    RunStaysInRange(Initial, evs);
    assert RenderedSlides(s) == {s};
  }

  /** Exactly one slide block is rendered precisely when the index is in
      range, and the highlighted dot is always the rendered slide. */
  lemma OneSlideRendered(s: int)
    ensures |RenderedSlides(s)| == 1 <==> InRange(s)
    ensures |RenderedSlides(s)| <= 1
    ensures ActiveDots(s) == RenderedSlides(s)
  {
    if InRange(s) {
      assert RenderedSlides(s) == {s};
    } else {
      assert RenderedSlides(s) == {};
    }
  }

  /** Repeating "next" (button or ArrowRight) `n` times from an in-range
      index advances by `n` but never past the last slide. */
  lemma {:induction false} NextsSaturate(d: Deck, e: Event, n: nat)
    requires InRange(d.slide)
    requires e == ClickNext || e == KeyDown(ArrowRight)
    ensures Run(d, Repeat(e, n)) == d.(slide := Min(d.slide + n, LastIndex))
    decreases n
  {
    if n > 0 {
      assert Repeat(e, n)[0] == e;
      assert Repeat(e, n)[1..] == Repeat(e, n - 1);
      NextsSaturate(Step(d, e), e, n - 1);
    }
  }

  /** Repeating "previous" (button or ArrowLeft) `n` times from an in-range
      index goes back by `n` but never before the first slide. */
  lemma {:induction false} PrevsSaturate(d: Deck, e: Event, n: nat)
    requires InRange(d.slide)
    requires e == ClickPrev || e == KeyDown(ArrowLeft)
    ensures Run(d, Repeat(e, n)) == d.(slide := Max(d.slide - n, 0))
    decreases n
  {
    if n > 0 {
      assert Repeat(e, n)[0] == e;
      assert Repeat(e, n)[1..] == Repeat(e, n - 1);
      PrevsSaturate(Step(d, e), e, n - 1);
    }
  }

  /** Eleven "next" events from mount reach the last slide, a twelfth stays
      there, and one "previous" from there reaches slide 10. */
  lemma ElevenNextsReachLast()
    ensures Run(Initial, Repeat(ClickNext, 11)).slide == LastIndex
    ensures Run(Initial, Repeat(ClickNext, 12)).slide == LastIndex
    ensures Run(Initial, Repeat(ClickNext, 11) + [ClickPrev]).slide == 10
  {
    NextsSaturate(Initial, ClickNext, 11);
    NextsSaturate(Initial, ClickNext, 12);
    RunAppend(Initial, Repeat(ClickNext, 11), [ClickPrev]);
  }

  /** Every slide can be reached from mount, both by its dot and by stepping
      forward; together with RunStaysInRange, the reachable indices are
      exactly 0 .. LastIndex. */
  lemma EverySlideReachable(k: int)
    requires InRange(k)
    ensures Run(Initial, [ClickDot(k)]).slide == k
    ensures Run(Initial, Repeat(ClickNext, k)).slide == k
    ensures AllFromPage(Repeat(ClickNext, k) + [ClickDot(k)])
  {
    NextsSaturate(Initial, ClickNext, k);
    RepeatContents(ClickNext, k);
  }

  /** `Repeat(e, n)` holds exactly `n` events, each of them `e`. */
  lemma {:induction false} RepeatContents(e: Event, n: nat)
    ensures forall i :: 0 <= i < |Repeat(e, n)| ==> Repeat(e, n)[i] == e
    ensures |Repeat(e, n)| == n
    decreases n
  {
    if n > 0 {
      RepeatContents(e, n - 1);
    }
  }

  /** Between in-range neighbours, next and previous undo each other. */
  lemma NavigationRoundTrips(s: int)
    requires InRange(s)
    ensures s < LastIndex ==> PrevSlide(NextSlide(s)) == s
    ensures 0 < s ==> NextSlide(PrevSlide(s)) == s
  {
  }

  /** ArrowRight does exactly what a "next" button does, ArrowLeft exactly
      what a "previous" button does, and any other key does nothing. */
  lemma KeysMatchButtons(d: Deck, key: string)
    ensures Step(d, KeyDown(ArrowRight)) == Step(d, ClickNext)
    ensures Step(d, KeyDown(ArrowLeft)) == Step(d, ClickPrev)
    ensures key != ArrowRight && key != ArrowLeft ==> Step(d, KeyDown(key)) == d
  {
  }

  /** Disabling a button never changes what a click on it would have done:
      a button click always has the effect of the bare transition. */
  lemma DisabledClickIsNoOp(d: Deck)
    ensures Step(d, ClickNext).slide == NextSlide(d.slide)
    ensures Step(d, ClickPrev).slide == PrevSlide(d.slide)
    ensures NextDisabled(d.slide) ==> Step(d, ClickNext) == d
    ensures PrevDisabled(d.slide) ==> Step(d, ClickPrev) == d
  {
  }

  /** The slide index after a session does not depend on pointer events:
      dropping them all gives the same index. */
  lemma {:induction false} SlideIgnoresPointer(d: Deck, d': Deck, evs: seq<Event>)
    requires d.slide == d'.slide
    ensures Run(d, evs).slide == Run(d', WithoutPointer(evs)).slide
    decreases |evs|
  {
    if |evs| > 0 {
      var e := evs[0];
      if IsPointer(e) {
        SlideIgnoresPointer(Step(d, e), d', evs[1..]);
      } else {
        var w := [e] + WithoutPointer(evs[1..]);
        assert w[0] == e && w[1..] == WithoutPointer(evs[1..]);
        SlideIgnoresPointer(Step(d, e), Step(d', e), evs[1..]);
      }
    }
  }

  /** The arrows are shown after a session exactly when the last pointer
      event was an enter (or, with none, when they were shown before). */
  lemma {:induction false} ArrowsFollowLastPointer(d: Deck, evs: seq<Event>)
    ensures Run(d, evs).showArrows == LastPointer(d.showArrows, evs)
    decreases |evs|
  {
    if |evs| > 0 {
      var n := |evs| - 1;
      assert evs == evs[..n] + [evs[n]];
      RunAppend(d, evs[..n], [evs[n]]);
      ArrowsFollowLastPointer(d, evs[..n]);
    }
  }

  /** Without the dot range the invariant fails: `goToSlide` takes an index
      past the deck as given, nothing is rendered there, and "next" then
      moves further out instead of saturating. */
  lemma UncheckedGoToLeavesDeck()
    ensures !FromPage(ClickDot(TotalSlides))
    ensures Run(Initial, [ClickDot(TotalSlides)]).slide == TotalSlides
    ensures RenderedSlides(Run(Initial, [ClickDot(TotalSlides)]).slide) == {}
    ensures Run(Initial, [ClickDot(TotalSlides), ClickNext]).slide == TotalSlides + 1
  {
    var past := Step(Initial, ClickDot(TotalSlides));
    assert [ClickDot(TotalSlides), ClickNext][1..] == [ClickNext];
    assert Run(Initial, [ClickDot(TotalSlides), ClickNext]) == Run(past, [ClickNext]);
    assert Run(past, [ClickNext]) == Run(Step(past, ClickNext), []);
  }

  /** ArrowRight three times from mount shows slide 3; the first dot then
      returns to slide 0, and ArrowLeft there stays on slide 0. */
  lemma KeyboardScenario()
    ensures Run(Initial, Repeat(KeyDown(ArrowRight), 3)).slide == 3
    ensures Run(Initial, Repeat(KeyDown(ArrowRight), 3) + [ClickDot(0)]).slide == 0
    ensures Run(Initial, Repeat(KeyDown(ArrowRight), 3) + [ClickDot(0), KeyDown(ArrowLeft)]).slide == 0
  {
    var keys := Repeat(KeyDown(ArrowRight), 3);
    NextsSaturate(Initial, KeyDown(ArrowRight), 3);
    RunAppend(Initial, keys, [ClickDot(0)]);
    RunAppend(Initial, keys, [ClickDot(0), KeyDown(ArrowLeft)]);
    var first := Step(Run(Initial, keys), ClickDot(0));
    assert [ClickDot(0), KeyDown(ArrowLeft)][1..] == [KeyDown(ArrowLeft)];
    assert Run(Run(Initial, keys), [ClickDot(0), KeyDown(ArrowLeft)]) == Run(first, [KeyDown(ArrowLeft)]);
    assert Run(first, [KeyDown(ArrowLeft)]) == Run(Step(first, KeyDown(ArrowLeft)), []);
  }
}
