/** The FAQ accordion: each panel has its content (`faq-expanded`) and its
    chevron (`faq-rotated`), and a click opens one panel while closing the
    rest. */
module Faq {

  datatype Panel = Panel(expanded: bool, rotated: bool)

  /** Number of expanded panels. */
  function OpenCount(ps: seq<Panel>): nat {
    if |ps| == 0 then 0 else OpenCount(ps[..|ps| - 1]) + (if ps[|ps| - 1].expanded then 1 else 0)
  }

  /** `toggleFaqAccordion` for the button of panel `b`: every other panel and
      chevron is closed, panel `b` flips its content state and its chevron
      follows it. */
  function Toggle(ps: seq<Panel>, b: nat): (r: seq<Panel>)
    requires b < |ps|
    ensures |r| == |ps|
    ensures forall i :: 0 <= i < |r| && i != b ==> r[i] == Panel(false, false)
    ensures r[b].expanded == !ps[b].expanded && r[b].rotated == r[b].expanded
  {
    seq(|ps|, i requires 0 <= i < |ps| =>
      if i == b then (if ps[b].expanded then Panel(false, false) else Panel(true, true))
      else Panel(false, false))
  }

  /** A list where every panel except possibly `b` is closed has at most one
      open panel, and exactly one when `b` is open. */
  lemma {:induction false} OnlyOneOpen(ps: seq<Panel>, b: nat)
    requires b < |ps|
    requires forall i :: 0 <= i < |ps| && i != b ==> !ps[i].expanded
    ensures OpenCount(ps) == if ps[b].expanded then 1 else 0
    decreases |ps|
  {
    var n := |ps| - 1;
    if n == b {
      NoneOpen(ps[..n]);
    } else {
      OnlyOneOpen(ps[..n], b);
    }
  }

  lemma {:induction false} NoneOpen(ps: seq<Panel>)
    requires forall i :: 0 <= i < |ps| ==> !ps[i].expanded
    ensures OpenCount(ps) == 0
    decreases |ps|
  {
    if |ps| > 0 {
      NoneOpen(ps[..|ps| - 1]);
    }
  }

  /** After any click at most one panel is open, and every chevron agrees
      with its panel, whatever state the accordion was in before. */
  lemma ToggleKeepsSingleOpen(ps: seq<Panel>, b: nat)
    requires b < |ps|
    ensures OpenCount(Toggle(ps, b)) <= 1
    ensures forall i :: 0 <= i < |ps| ==> Toggle(ps, b)[i].rotated == Toggle(ps, b)[i].expanded
  {
    OnlyOneOpen(Toggle(ps, b), b);
  }

  /** Clicking the same button twice closes everything; clicking another
      button opens that one and closes the first. */
  lemma ToggleTwice(ps: seq<Panel>, b: nat, c: nat)
    requires b < |ps| && c < |ps|
    ensures b == c && !ps[b].expanded ==> OpenCount(Toggle(Toggle(ps, b), c)) == 0
    ensures b != c ==> var r := Toggle(Toggle(ps, b), c);
                       r[c] == Panel(true, true) && OpenCount(r) == 1
  {
    var r := Toggle(Toggle(ps, b), c);
    if b == c && !ps[b].expanded {
      NoneOpen(r);
    }
    if b != c {
      OnlyOneOpen(r, c);
    }
  }
}
