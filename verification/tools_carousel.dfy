/** The infinite tools carousel: `n` real items followed by their clones,
    an index into that strip, the pause flag, the 600 ms teleport back to
    the first item (an explicit `Settle` event per pending timer), and the
    highlighted dot. The animation-frame half of `slidePrev` is taken to run
    right after the click. */
module ToolsCarousel {
  import opened JsText
  import opened ModArith

  /** `index` is `currentIndex`, `settles` counts the teleport timers not yet
      fired, `dot` is the dot index `updateDots` last highlighted. */
  datatype Carousel = Carousel(index: int, paused: bool, settles: nat, dot: int)

  const Initial: Carousel := Carousel(0, false, 0, 0)

  /** `updateDots`: the dot whose number equals `currentIndex % n` lights up;
      with no items there are no dots. */
  function UpdateDots(c: Carousel, n: nat): (r: Carousel)
    ensures n > 0 && c.index >= 0 ==> r.dot == c.index % n && 0 <= r.dot < n
    ensures r.index == c.index && r.paused == c.paused && r.settles == c.settles
  {
    if n == 0 then c else c.(dot := TruncRem(c.index, n))
  }

  /** `goToSlide(i)`, reached by clicking dot `i`; it ignores the pause flag. */
  function GoToSlide(c: Carousel, n: nat, i: int): (r: Carousel)
    ensures r.index == i && r.paused == c.paused && r.settles == c.settles
    ensures n > 0 && 0 <= i < n ==> r.dot == i
  {
    assert n > 0 && 0 <= i < n ==> i % n == i by {
      if n > 0 && 0 <= i < n { ModBelow(i, n); }
    }
    UpdateDots(c.(index := i), n)
  }

  /** `slideNext`: while paused nothing happens; otherwise one step right,
      and stepping onto a clone schedules the teleport back to 0. */
  function SlideNext(c: Carousel, n: nat): (r: Carousel)
    ensures c.paused ==> r == c
    ensures !c.paused ==> r.index == c.index + 1 && !r.paused
    ensures !c.paused ==> r.settles == c.settles + (if c.index + 1 >= n then 1 else 0)
    ensures !c.paused && n > 0 && c.index >= 0 ==> r.dot == (c.index + 1) % n
  {
    if c.paused then c
    else
      var d := c.(index := c.index + 1);
      UpdateDots(if d.index >= n then d.(settles := d.settles + 1) else d, n)
  }

  /** `slidePrev` as written: from the first item it jumps to the clone strip
      at `n` and steps back to `n - 1`, but it lights the dots while the
      index still reads `n`, so dot 0 stays highlighted. */
  function SlidePrev(c: Carousel, n: nat): (r: Carousel)
    ensures c.paused ==> r == c
    ensures !c.paused && c.index == 0 ==> r.index == n - 1 && (n > 0 ==> r.dot == 0)
    ensures !c.paused && c.index != 0 ==> r.index == c.index - 1
    ensures !c.paused && c.index > 0 && n > 0 ==> r.dot == (c.index - 1) % n
    ensures r.settles == c.settles && r.paused == c.paused
  {
    if c.paused then c
    else if c.index == 0 then
      UpdateDots(c.(index := n), n).(index := n - 1)
    else UpdateDots(c.(index := c.index - 1), n)
  }

  /** `slidePrev` with the dots lit after the deferred step back. */
  function SlidePrevCorrected(c: Carousel, n: nat): (r: Carousel)
    ensures c.paused ==> r == c
    ensures !c.paused ==> r.index == (if c.index == 0 then n - 1 else c.index - 1)
    ensures !c.paused && r.index >= 0 && n > 0 ==> r.dot == r.index % n
    ensures r.settles == c.settles && r.paused == c.paused
  {
    if c.paused then c
    else UpdateDots(c.(index := if c.index == 0 then n - 1 else c.index - 1), n)
  }

  /** One pending teleport timer fires: the track snaps to item 0 without
      relighting the dots. With no timer pending there is nothing to fire. */
  function Settle(c: Carousel): (r: Carousel)
    ensures c.settles == 0 ==> r == c
    ensures c.settles > 0 ==> r.index == 0 && r.settles == c.settles - 1 && r.dot == c.dot
    ensures r.paused == c.paused
  {
    if c.settles == 0 then c else c.(index := 0, settles := c.settles - 1)
  }

  /** The teleport timer relighting the dots as well. */
  function SettleCorrected(c: Carousel, n: nat): (r: Carousel)
    ensures c.settles == 0 ==> r == c
    ensures c.settles > 0 ==> r.index == 0 && r.settles == c.settles - 1 && (n > 0 ==> r.dot == 0)
  {
    if c.settles == 0 then c else UpdateDots(Settle(c), n)
  }

  /** Everything that can happen to the carousel: the arrow buttons (and the
      auto-advance timer, which calls `slideNext`), a dot click, a teleport
      timer firing, and hover or tooltip pause and resume. */
  datatype Event = Next | Prev | DotClick(i: int) | SettleTimer | Pause | Resume

  function Step(c: Carousel, n: nat, e: Event): Carousel {
    match e
    case Next => SlideNext(c, n)
    case Prev => SlidePrev(c, n)
    case DotClick(i) => if 0 <= i < n then GoToSlide(c, n, i) else c
    case SettleTimer => Settle(c)
    case Pause => c.(paused := true)
    case Resume => c.(paused := false)
  }

  function StepCorrected(c: Carousel, n: nat, e: Event): Carousel {
    match e
    case Prev => SlidePrevCorrected(c, n)
    case SettleTimer => SettleCorrected(c, n)
    case _ => Step(c, n, e)
  }

  /** The index never goes negative and only sits on a clone while a
      teleport timer is pending to bring it back. */
  predicate Inv(c: Carousel, n: nat) {
    n > 0 ==> 0 <= c.index < n + c.settles
  }

  /** The highlighted dot is the one for the item on screen. */
  predicate DotInSync(c: Carousel, n: nat) {
    n > 0 ==> c.dot == c.index % n
  }

  lemma StepKeepsInv(c: Carousel, n: nat, e: Event)
    requires Inv(c, n)
    ensures Inv(Step(c, n, e), n) && Inv(StepCorrected(c, n, e), n)
  {
  }

  /** With the corrected handlers the highlighted dot always matches the
      item on screen. */
  lemma CorrectedDotStaysInSync(c: Carousel, n: nat, e: Event)
    requires Inv(c, n) && DotInSync(c, n)
    ensures DotInSync(StepCorrected(c, n, e), n)
  {
  }

  /** As written, clicking back on the first of three items shows the third
      item while dot 0 stays highlighted. */
  lemma PrevFromFirstLeavesDotStale()
    ensures var c := SlidePrev(Initial, 3); c.index == 2 && c.dot == 0 && !DotInSync(c, 3)
  {
  }

  /** Fire every pending teleport timer. */
  function Drain(c: Carousel): (r: Carousel)
    ensures r.settles == 0 && r.paused == c.paused
    ensures c.settles > 0 ==> r.index == 0
    ensures c.settles == 0 ==> r == c
    decreases c.settles
  {
    if c.settles == 0 then c else Drain(Settle(c))
  }

  /** From a settled index `i`, one step right followed by the teleport
      lands on `(i + 1) mod n`. */
  lemma NextThenSettle(c: Carousel, n: nat)
    requires n > 0 && Inv(c, n) && c.settles == 0 && !c.paused
    ensures Drain(SlideNext(c, n)).index == (c.index + 1) % n
    ensures Drain(SlideNext(c, n)).settles == 0 && !Drain(SlideNext(c, n)).paused
  {
    ModSucc(c.index, n);
  }

  /** `k` unpaused steps right, each given time to settle. */
  function Advance(c: Carousel, n: nat, k: nat): Carousel
    decreases k
  {
    if k == 0 then c else Advance(Drain(SlideNext(c, n)), n, k - 1)
  }

  /** `k` steps right from a settled item `i` end on item `(i + k) mod n`:
      the clone strip makes the carousel behave as a ring. */
  lemma {:induction false} AdvanceIsRing(c: Carousel, n: nat, k: nat)
    requires n > 0 && Inv(c, n) && c.settles == 0 && !c.paused
    ensures Advance(c, n, k).index == (c.index + k) % n
    decreases k
  {
    if k == 0 {
      ModBelow(c.index, n);
    } else {
      var d := Drain(SlideNext(c, n));
      NextThenSettle(c, n);
      assert Inv(d, n);
      AdvanceIsRing(d, n, k - 1);
      ModSuccAdd(c.index, k - 1, n);
    }
  }

  /** A dot clicked during the 600 ms window after stepping onto a clone is
      overridden when the pending teleport fires. */
  lemma SettleOverridesDotClick(c: Carousel, n: nat, i: int)
    requires n > 0 && c.index == n && c.settles == 1 && 0 <= i < n
    ensures Settle(Step(c, n, DotClick(i))).index == 0
  {
  }
}
