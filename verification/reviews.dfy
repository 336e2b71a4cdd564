/** The client-review slider: ring navigation over the ten reviews, the
    "animating" gate that drops requests during the 350 ms fade, the star
    string, breakpoint-dependent truncation, and the swipe gesture. The
    fade timer is the explicit `Complete` event; auto-advance timers are
    left to the caller. */
module Reviews {
  import opened JsText
  import opened ModArith

  /** The `rating` fields of the ten reviews, in list order. */
  const Ratings: seq<int> := [4, 5, 5, 4, 4, 5, 4, 5, 4, 5]

  const ReviewCount: nat := 10

  /** `reviewIndex`, `reviewIsAnimating`, and the index whose review the
      card currently renders. */
  datatype Slider = Slider(index: int, animating: bool, shown: int)

  const Initial: Slider := Slider(0, false, 0)

  /** `goToReview(i)`: ignored while a fade is running; otherwise it records
      the target and starts the fade. */
  function GoToReview(s: Slider, i: int): (r: Slider)
    ensures s.animating ==> r == s
    ensures !s.animating ==> r.index == i && r.animating && r.shown == s.shown
  {
    if s.animating then s else s.(index := i, animating := true)
  }

  /** The end of the fade: the card renders the review at the index as it
      now stands and the gate opens. */
  function Complete(s: Slider): (r: Slider)
    ensures !r.animating && r.shown == s.index && r.index == s.index
  {
    s.(shown := s.index, animating := false)
  }

  /** `nextReview`. */
  function NextIndex(i: int): (r: int)
    ensures 0 <= i < ReviewCount ==> 0 <= r < ReviewCount
    ensures 0 <= i < ReviewCount - 1 ==> r == i + 1
    ensures i == ReviewCount - 1 ==> r == 0
  {
    if 0 <= i < ReviewCount then
      ModSucc(i, ReviewCount);
      TruncRem(i + 1, ReviewCount)
    else TruncRem(i + 1, ReviewCount)
  }

  /** `prevReview`: the extra `+ length` keeps JavaScript's `%` away from a
      negative left operand. */
  function PrevIndex(i: int): (r: int)
    ensures 0 <= i < ReviewCount ==> 0 <= r < ReviewCount
    ensures 0 < i < ReviewCount ==> r == i - 1
    ensures i == 0 ==> r == ReviewCount - 1
  {
    if 0 < i < ReviewCount then
      AddModulus(i - 1, ReviewCount);
      ModBelow(i - 1, ReviewCount);
      TruncRem(i - 1 + ReviewCount, ReviewCount)
    else if i == 0 then
      ModBelow(ReviewCount - 1, ReviewCount);
      TruncRem(i - 1 + ReviewCount, ReviewCount)
    else TruncRem(i - 1 + ReviewCount, ReviewCount)
  }

  /** The two buttons are inverse steps around the ring. */
  lemma NextPrevInverse(i: int)
    requires 0 <= i < ReviewCount
    ensures PrevIndex(NextIndex(i)) == i && NextIndex(PrevIndex(i)) == i
  {
  }

  predicate Inv(s: Slider) {
    0 <= s.index < ReviewCount && 0 <= s.shown < ReviewCount
  }

  /** Everything that reaches the gate: the arrows, the auto-advance timer
      and swipes (`Forward`/`Back`), a dot click, the end of the fade. */
  datatype Event = Forward | Back | Dot(i: int) | FadeEnd

  function Step(s: Slider, e: Event): Slider {
    match e
    case Forward => GoToReview(s, NextIndex(s.index))
    case Back => GoToReview(s, PrevIndex(s.index))
    case Dot(i) => if 0 <= i < ReviewCount then GoToReview(s, i) else s
    case FadeEnd => Complete(s)
  }

  /** The index, and the review on screen, always name one of the ten. */
  lemma StepKeepsInv(s: Slider, e: Event)
    requires Inv(s)
    ensures Inv(Step(s, e))
  {
  }

  /** Once a request has started a fade, every further request before the
      fade ends is dropped. */
  lemma SecondRequestDropped(s: Slider, e1: Event, e2: Event)
    requires Step(s, e1).animating && e2 != FadeEnd
    ensures Step(Step(s, e1), e2) == Step(s, e1)
  {
  }

  /** "next" and then, once the fade has ended, "prev" shows the review one
      started from. */
  lemma ForwardThenBack(s: Slider)
    requires Inv(s) && !s.animating
    ensures Complete(Step(Complete(Step(s, Forward)), Back)).shown == s.index
  {
    NextPrevInverse(s.index);
  }

  /** `"★".repeat(r) + "☆".repeat(5 - r)`: a rating outside 0..5 makes one
      of the counts negative and `repeat` throws. */
  function Stars(rating: int): (r: Option<string>)
    ensures r.Some? <==> 0 <= rating <= 5
    ensures r.Some? ==> |r.value| == 5
                        && (forall k :: 0 <= k < rating ==> r.value[k] == '★')
                        && (forall k :: rating <= k < 5 ==> r.value[k] == '☆')
  {
    var full, empty := Repeat('★', rating), Repeat('☆', 5 - rating);
    if full.None? || empty.None? then None else Some(full.value + empty.value)
  }

  /** Every review's star line renders: all ratings lie in 0..5. */
  lemma EveryReviewHasStars(i: int)
    requires 0 <= i < ReviewCount
    ensures Stars(Ratings[i]).Some?
  {
  }

  /** `getMaxReviewTextLength`. */
  function MaxReviewTextLength(width: int): (m: nat)
    ensures m == 80 <==> width <= 480
    ensures m == 120 <==> 480 < width <= 768
    ensures m == 160 <==> width > 768
  {
    if width <= 480 then 80 else if width <= 768 then 120 else 160
  }

  /** `truncateReviewText`: text up to the limit is kept, longer text is cut
      to the limit and gets an ellipsis. */
  function TruncateReviewText(text: string, width: int): (r: string)
    ensures |text| <= MaxReviewTextLength(width) ==> r == text
    ensures |text| > MaxReviewTextLength(width) ==>
              |r| == MaxReviewTextLength(width) + 1 && r[|r| - 1] == '…'
              && r[..|r| - 1] == text[..MaxReviewTextLength(width)]
  {
    var m := MaxReviewTextLength(width);
    if |text| > m then text[..m] + "…" else text
  }

  /** Truncation never grows a text by more than the ellipsis, and a
      wider screen never shows less of it. */
  lemma TruncationMonotone(text: string, w1: int, w2: int)
    requires w1 <= w2
    ensures |TruncateReviewText(text, w1)| <= |TruncateReviewText(text, w2)|
    ensures |TruncateReviewText(text, w1)| <= |text| + 1
  {
  }

  const MinSwipe: int := 80

  /** The swipe decision on release: a drag to the right of more than 80 px
      goes back, one to the left goes forward, anything shorter does
      nothing. */
  function SwipeDecision(diff: int): (r: Option<Event>)
    ensures r == Some(Back) <==> diff > MinSwipe
    ensures r == Some(Forward) <==> diff < -MinSwipe
    ensures r.None? <==> -MinSwipe <= diff <= MinSwipe
  {
    if diff > MinSwipe then Some(Back) else if diff < -MinSwipe then Some(Forward) else None
  }

  /** `startX`, `currentX`, `dragging` of the swipe handlers, shared by
      touch and mouse. */
  datatype Swipe = Swipe(startX: int, currentX: int, dragging: bool)

  const NoSwipe: Swipe := Swipe(0, 0, false)

  /** touchstart / mousedown as written: `currentX` keeps whatever the last
      move left in it. */
  function Press(g: Swipe, x: int): (r: Swipe)
    ensures r.startX == x && r.dragging && r.currentX == g.currentX
  {
    g.(startX := x, dragging := true)
  }

  /** touchstart / mousedown with `currentX` starting at the press point. */
  function PressCorrected(g: Swipe, x: int): (r: Swipe)
    ensures r.startX == x && r.dragging && r.currentX == x
  {
    Swipe(x, x, true)
  }

  /** touchmove / mousemove: tracked only while dragging. */
  function Move(g: Swipe, x: int): (r: Swipe)
    ensures g.dragging ==> r == g.(currentX := x)
    ensures !g.dragging ==> r == g
  {
    if g.dragging then g.(currentX := x) else g
  }

  /** touchend / mouseup: outside a drag nothing happens; otherwise the drag
      ends and the distance travelled decides the navigation. */
  function Release(g: Swipe): (r: (Swipe, Option<Event>))
    ensures !g.dragging ==> r == (g, None)
    ensures g.dragging ==> !r.0.dragging && r.1 == SwipeDecision(g.currentX - g.startX)
  {
    if !g.dragging then (g, None) else (g.(dragging := false), SwipeDecision(g.currentX - g.startX))
  }

  /** mouseleave: the drag is abandoned without navigating. */
  function Leave(g: Swipe): (r: Swipe)
    ensures !r.dragging && r.startX == g.startX && r.currentX == g.currentX
  {
    g.(dragging := false)
  }

  /** Once the pointer has left the slider, further moves are ignored and the
      release navigates nothing, however far the drag went. */
  lemma LeaveCancelsSwipe(g: Swipe, y: int)
    ensures Move(Leave(g), y) == Leave(g)
    ensures Release(Move(Leave(g), y)) == (Leave(g), None)
  {
  }

  /** A tap (press and release without a move) on a fresh page at x = 300
      counts as a 300 px swipe to the left and advances the slider. */
  lemma TapNavigatesAsWritten()
    ensures Release(Press(NoSwipe, 300)).1 == Some(Forward)
  {
  }

  /** With the press resetting `currentX`, a tap never navigates, and a
      press-move-release navigates according to that gesture alone. */
  lemma TapIsInertCorrected(g: Swipe, x: int, y: int)
    ensures Release(PressCorrected(g, x)).1.None?
    ensures Release(Move(PressCorrected(g, x), y)).1 == SwipeDecision(y - x)
  {
  }
}
