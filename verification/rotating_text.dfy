/** The rotating hero line: every 3 s the index advances by one around the
    five phrases and the element shows the phrase at the new index. */
module RotatingText {
  import opened JsText
  import opened ModArith

  const Texts: seq<string> := [
    "Brand identity with purpose",
    "Interfaces that feel effortless",
    "Creating memorable experiences",
    "Design that communicates and converts",
    "Bringing ideas to life through designs"
  ]

  /** One interval callback: `idx = (idx + 1) % texts.length`, and the
      phrase it displays. */
  function Tick(idx: int): (r: (int, string))
    requires 0 <= idx < |Texts|
    ensures 0 <= r.0 < |Texts| && r.1 == Texts[r.0]
    ensures r.0 == if idx == |Texts| - 1 then 0 else idx + 1
  {
    ModSucc(idx, |Texts|);
    var next := TruncRem(idx + 1, |Texts|);
    (next, Texts[next])
  }

  /** The index after `k` callbacks, starting from 0. */
  function After(k: nat): (idx: int)
    ensures 0 <= idx < |Texts|
  {
    if k == 0 then 0 else Tick(After(k - 1)).0
  }

  /** After `k` callbacks the line shows phrase `k mod 5`: the phrases come
      round in order, each once per 15 s. */
  lemma {:induction false} AfterIsMod(k: nat)
    ensures After(k) == k % |Texts|
  {
    if k > 0 {
      AfterIsMod(k - 1);
      ModStep(k - 1, |Texts|);
    }
  }
}
