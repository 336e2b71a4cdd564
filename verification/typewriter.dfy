/** The hero typewriter: it types a word one character per 100 ms, holds it
    for 2 s, deletes it one character per 50 ms and moves to the next of
    its three words. Each timer callback is one `Tick`. */
module Typewriter {

  const Words: seq<string> := ["Something Creative", "Amazing Websites", "Visual Experiences"]

  const TypingDelay: nat := 100
  const DeletingDelay: nat := 50
  const PauseDelay: nat := 2000

  /** `currentWordIndex`, `currentCharIndex`, `isDeletingText`. */
  datatype Typewriter = Typewriter(word: nat, chars: int, deleting: bool)

  const Start: Typewriter := Typewriter(0, 0, false)

  /** `s.substring(0, k)`: JavaScript clamps `k` into `[0, |s|]`. */
  function Substring0(s: string, k: int): (r: string)
    ensures 0 <= k <= |s| ==> r == s[..k]
    ensures k < 0 ==> r == []
    ensures k > |s| ==> r == s
  {
    if k < 0 then [] else if k > |s| then s else s[..k]
  }

  /** What one callback produces: the next state, the text it shows and the
      delay before the next callback. */
  datatype Tick = Tick(next: Typewriter, shown: string, delay: nat)

  function WordAt(t: Typewriter): string {
    if t.word < |Words| then Words[t.word] else []
  }

  /** `animateTypewriter`. */
  function Step(t: Typewriter): Tick {
    var w := WordAt(t);
    var shown := if t.deleting then Substring0(w, t.chars - 1) else Substring0(w, t.chars + 1);
    var c := if t.deleting then t.chars - 1 else t.chars + 1;
    var delay := if t.deleting then DeletingDelay else TypingDelay;
    if !t.deleting && c == |w| then Tick(Typewriter(t.word, c, true), shown, PauseDelay)
    else if t.deleting && c == 0 then Tick(Typewriter((t.word + 1) % |Words|, c, false), shown, delay)
    else Tick(Typewriter(t.word, c, t.deleting), shown, delay)
  }

  /** The reachable states: a valid word, a character count inside it, at
      least one character left while deleting and at least one missing
      while typing. */
  predicate Inv(t: Typewriter) {
    && t.word < |Words|
    && 0 <= t.chars <= |Words[t.word]|
    && (t.deleting ==> t.chars >= 1)
    && (!t.deleting ==> t.chars < |Words[t.word]|)
  }

  lemma WordsNonEmpty()
    ensures forall i :: 0 <= i < |Words| ==> |Words[i]| > 0
  {
  }

  lemma StartIsValid()
    ensures Inv(Start)
  {
    WordsNonEmpty();
  }

  /** Each tick keeps the invariant and shows exactly the first `chars`
      characters of the current word of the next state; it waits 2 s after
      completing a word and otherwise 100 ms while typing and 50 ms while
      deleting. */
  lemma StepShowsPrefix(t: Typewriter)
    requires Inv(t)
    ensures Inv(Step(t).next)
    ensures Step(t).shown == Words[Step(t).next.word][..Step(t).next.chars]
    ensures Step(t).delay == PauseDelay <==> !t.deleting && t.chars + 1 == |Words[t.word]|
    ensures Step(t).delay == DeletingDelay <==> t.deleting
    ensures Step(t).delay == TypingDelay <==> !t.deleting && t.chars + 1 < |Words[t.word]|
  {
    WordsNonEmpty();
  }

  /** `k` callbacks in a row. */
  function Run(t: Typewriter, k: nat): Typewriter
    decreases k
  {
    if k == 0 then t else Run(Step(t).next, k - 1)
  }

  lemma {:induction false} RunAdd(t: Typewriter, a: nat, b: nat)
    ensures Run(t, a + b) == Run(Run(t, a), b)
    decreases a
  {
    if a > 0 {
      var n := Step(t).next;
      RunAdd(n, a - 1, b);
      assert Run(t, a + b) == Run(n, a - 1 + b);
      assert Run(t, a) == Run(n, a - 1);
      assert Run(t, a + b) == Run(Run(t, a), b);
    } else {
      assert Run(t, a) == t && a + b == b;
    }
  }

  lemma {:induction false} TypingRun(w: nat, c: int, k: nat)
    requires w < |Words| && 0 <= c < |Words[w]| && k <= |Words[w]| - c
    ensures Run(Typewriter(w, c, false), k) == Typewriter(w, c + k, c + k == |Words[w]|)
    decreases k
  {
    if k > 0 && c + 1 < |Words[w]| {
      TypingRun(w, c + 1, k - 1);
    }
  }

  lemma {:induction false} DeletingRun(w: nat, c: int, k: nat)
    requires w < |Words| && 1 <= c <= |Words[w]| && k <= c
    ensures Run(Typewriter(w, c, true), k)
            == if k < c then Typewriter(w, c - k, true) else Typewriter((w + 1) % |Words|, 0, false)
    decreases k
  {
    if k > 0 && c > 1 {
      DeletingRun(w, c - 1, k - 1);
    }
  }

  /** A full cycle: starting on an empty word, typing it out and deleting it
      takes twice its length in ticks and ends on the empty next word. */
  lemma WordCycle(w: nat)
    requires w < |Words|
    ensures Run(Typewriter(w, 0, false), 2 * |Words[w]|) == Typewriter((w + 1) % |Words|, 0, false)
  {
    WordsNonEmpty();
    var n := |Words[w]|;
    RunAdd(Typewriter(w, 0, false), n, n);
    TypingRun(w, 0, n);
    DeletingRun(w, n, n);
  }
}
