/** The project carousel's `showSlider`: "next" moves the first item and
    the first thumbnail to the end, "prev" moves the item and thumbnail at
    the last item position to the front. The CSS class and the timers are
    left out. */
module ProjectCarousel {
  import opened JsText

  datatype Direction = Next | Prev

  /** The main list and the thumbnail strip, in document order. */
  datatype Slides<T, U> = Slides(items: seq<T>, thumbs: seq<U>)

  /** One thumbnail per item, as the page's markup provides. */
  predicate Paired<T, U>(s: Slides<T, U>) {
    |s.items| == |s.thumbs|
  }

  function RotateLeft<T>(xs: seq<T>): (r: seq<T>)
    requires |xs| > 0
    ensures |r| == |xs| && r[|r| - 1] == xs[0]
    ensures forall j :: 0 <= j < |xs| - 1 ==> r[j] == xs[j + 1]
    ensures multiset(r) == multiset(xs)
  {
    assert xs == [xs[0]] + xs[1..];
    xs[1..] + [xs[0]]
  }

  function RotateRight<T>(xs: seq<T>): (r: seq<T>)
    requires |xs| > 0
    ensures |r| == |xs| && r[0] == xs[|xs| - 1]
    ensures forall j :: 1 <= j < |xs| ==> r[j] == xs[j - 1]
    ensures multiset(r) == multiset(xs)
  {
    assert xs == xs[..|xs| - 1] + [xs[|xs| - 1]];
    [xs[|xs| - 1]] + xs[..|xs| - 1]
  }

  /** `showSlider(type)`. "next" on an empty list throws (there is no first
      item to append), which is `None`; "prev" on an empty list prepends
      nothing that is an item, so the lists stay as they are. */
  function ShowSlider<T, U>(s: Slides<T, U>, d: Direction): (r: Option<Slides<T, U>>)
    requires Paired(s)
    ensures r.None? <==> d == Next && |s.items| == 0
    ensures r.Some? ==> Paired(r.value)
                        && multiset(r.value.items) == multiset(s.items)
                        && multiset(r.value.thumbs) == multiset(s.thumbs)
    ensures r.Some? && |s.items| > 0 && d == Next ==>
              r.value.items[|s.items| - 1] == s.items[0] && r.value.thumbs[|s.items| - 1] == s.thumbs[0]
    ensures r.Some? && |s.items| > 0 && d == Prev ==>
              r.value.items[0] == s.items[|s.items| - 1] && r.value.thumbs[0] == s.thumbs[|s.items| - 1]
    ensures r.Some? && d == Next ==>
              forall j :: 0 <= j < |s.items| - 1 ==>
                r.value.items[j] == s.items[j + 1] && r.value.thumbs[j] == s.thumbs[j + 1]
    ensures r.Some? && d == Prev ==>
              forall j :: 1 <= j < |s.items| ==>
                r.value.items[j] == s.items[j - 1] && r.value.thumbs[j] == s.thumbs[j - 1]
    ensures |s.items| == 0 && d == Prev ==> r == Some(s)
  {
    if |s.items| == 0 then (if d == Next then None else Some(s))
    else match d
      case Next => Some(Slides(RotateLeft(s.items), RotateLeft(s.thumbs)))
      case Prev => Some(Slides(RotateRight(s.items), RotateRight(s.thumbs)))
  }

  /** Item `j` and thumbnail `j` started out together: the two lists move
      in lockstep, so every position keeps a matching item and thumbnail. */
  ghost predicate Lockstep<T, U>(orig: Slides<T, U>, s: Slides<T, U>) {
    && Paired(orig) && Paired(s) && |s.items| == |orig.items|
    && forall j :: 0 <= j < |s.items| ==>
         exists k :: 0 <= k < |orig.items| && s.items[j] == orig.items[k] && s.thumbs[j] == orig.thumbs[k]
  }

  lemma ShowSliderKeepsLockstep<T, U>(orig: Slides<T, U>, s: Slides<T, U>, d: Direction)
    requires Lockstep(orig, s) && |s.items| > 0
    ensures ShowSlider(s, d).Some? && Lockstep(orig, ShowSlider(s, d).value)
  {
    if d == Next {
      LeftKeepsLockstep(orig, s);
      assert ShowSlider(s, d) == Some(Slides(RotateLeft(s.items), RotateLeft(s.thumbs)));
    } else {
      RightKeepsLockstep(orig, s);
      assert ShowSlider(s, d) == Some(Slides(RotateRight(s.items), RotateRight(s.thumbs)));
    }
  }

  lemma LeftKeepsLockstep<T, U>(orig: Slides<T, U>, s: Slides<T, U>)
    requires Lockstep(orig, s) && |s.items| > 0
    ensures Lockstep(orig, Slides(RotateLeft(s.items), RotateLeft(s.thumbs)))
  {
    var r := Slides(RotateLeft(s.items), RotateLeft(s.thumbs));
    var n := |s.items|;
    forall j | 0 <= j < n
      ensures exists k :: 0 <= k < |orig.items| && r.items[j] == orig.items[k] && r.thumbs[j] == orig.thumbs[k]
    {
      var src := if j == n - 1 then 0 else j + 1;
      Inherit(orig, s, r, j, src);
    }
  }

  lemma RightKeepsLockstep<T, U>(orig: Slides<T, U>, s: Slides<T, U>)
    requires Lockstep(orig, s) && |s.items| > 0
    ensures Lockstep(orig, Slides(RotateRight(s.items), RotateRight(s.thumbs)))
  {
    var r := Slides(RotateRight(s.items), RotateRight(s.thumbs));
    var n := |s.items|;
    forall j | 0 <= j < n
      ensures exists k :: 0 <= k < |orig.items| && r.items[j] == orig.items[k] && r.thumbs[j] == orig.thumbs[k]
    {
      var src := if j == 0 then n - 1 else j - 1;
      Inherit(orig, s, r, j, src);
    }
  }

  /** A position filled from a position of a lockstep arrangement holds a
      pair that started out together. */
  lemma Inherit<T, U>(orig: Slides<T, U>, s: Slides<T, U>, r: Slides<T, U>, j: nat, src: nat)
    requires Lockstep(orig, s) && src < |s.items| && j < |r.items| && j < |r.thumbs|
    requires r.items[j] == s.items[src] && r.thumbs[j] == s.thumbs[src]
    ensures exists k :: 0 <= k < |orig.items| && r.items[j] == orig.items[k] && r.thumbs[j] == orig.thumbs[k]
  {
    var k :| 0 <= k < |orig.items| && s.items[src] == orig.items[k] && s.thumbs[src] == orig.thumbs[k];
  }

  /** "next" followed by "prev" (and the other way round) restores both
      lists. */
  lemma NextPrevInverse<T, U>(s: Slides<T, U>)
    requires Paired(s) && |s.items| > 0
    ensures ShowSlider(ShowSlider(s, Next).value, Prev) == Some(s)
    ensures ShowSlider(ShowSlider(s, Prev).value, Next) == Some(s)
  {
    RotateInverse(s.items);
    RotateInverse(s.thumbs);
  }

  lemma RotateInverse<T>(xs: seq<T>)
    requires |xs| > 0
    ensures RotateRight(RotateLeft(xs)) == xs && RotateLeft(RotateRight(xs)) == xs
  {
    var a := RotateLeft(xs);
    assert a[..|a| - 1] == xs[1..];
    var b := RotateRight(xs);
    assert b[1..] == xs[..|xs| - 1];
  }
}
