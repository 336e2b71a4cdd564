/** The few pieces of JavaScript string semantics the widgets rely on:
    the `\s` character class and `String.prototype.trim`, `startsWith`,
    `includes`, `repeat`, and the truncating remainder operator `%`. */
module JsText {
  import opened ModArith

  /** ECMAScript WhiteSpace and LineTerminator code points: the set matched
      by the regular-expression class `\s` and stripped by `trim()`. The
      ASCII ones are tab through carriage return and the space. */
  predicate IsSpace(c: char) {
    c == ' ' || ('\t' <= c <= '\r') || c in WideSpaces
  }

  /** The non-ASCII white space and line terminators. */
  const WideSpaces: set<char> := {
    '\U{00A0}', '\U{1680}',
    '\U{2000}', '\U{2001}', '\U{2002}', '\U{2003}', '\U{2004}', '\U{2005}',
    '\U{2006}', '\U{2007}', '\U{2008}', '\U{2009}', '\U{200A}',
    '\U{2028}', '\U{2029}', '\U{202F}', '\U{205F}', '\U{3000}', '\U{FEFF}'
  }

  predicate AllSpace(s: string) {
    forall i :: 0 <= i < |s| ==> IsSpace(s[i])
  }

  predicate NoSpace(s: string) {
    forall i :: 0 <= i < |s| ==> !IsSpace(s[i])
  }

  /** The first position at or after `k` that does not hold white space
      (`|s|` when there is none). */
  function SkipSpaces(s: string, k: nat): (j: nat)
    requires k <= |s|
    ensures k <= j <= |s|
    ensures forall i :: k <= i < j ==> IsSpace(s[i])
    ensures j < |s| ==> !IsSpace(s[j])
    decreases |s| - k
  {
    if k == |s| || !IsSpace(s[k]) then k else SkipSpaces(s, k + 1)
  }

  /** The end of the text before position `k` once the white space running
      up to `k` is dropped. */
  function BackSpaces(s: string, k: nat): (j: nat)
    requires k <= |s|
    ensures j <= k
    ensures forall i :: j <= i < k ==> IsSpace(s[i])
    ensures j > 0 ==> !IsSpace(s[j - 1])
  {
    if k == 0 || !IsSpace(s[k - 1]) then k else BackSpaces(s, k - 1)
  }

  /** `trim()`: the result is the slice of the input that starts after the
      leading white space and stops before the trailing white space; it
      neither starts nor ends with white space, and everything cut away is
      white space. */
  function Trim(s: string): (r: string)
    ensures var a := SkipSpaces(s, 0);
            && a + |r| <= |s| && r == s[a..a + |r|]
            && (forall i :: 0 <= i < a ==> IsSpace(s[i]))
            && (forall i :: a + |r| <= i < |s| ==> IsSpace(s[i]))
    ensures |r| > 0 ==> !IsSpace(r[0]) && !IsSpace(r[|r| - 1])
  {
    var a := SkipSpaces(s, 0);
    var b := if a == |s| then a else BackSpaces(s, |s|);
    assert a <= b;
    s[a..b]
  }

  /** A string trims to the empty string exactly when it is all white space. */
  lemma {:induction false} TrimEmptyIffAllSpace(s: string)
    ensures Trim(s) == [] <==> AllSpace(s)
  {
    var r := Trim(s);
    if r != [] {
      var a := SkipSpaces(s, 0);
      assert s[a] == r[0];
    }
  }

  /** `s.startsWith(p)`. */
  predicate StartsWith(s: string, p: string) {
    |p| <= |s| && s[..|p|] == p
  }

  /** Reference reading of `s.includes(p)`: `p` occurs at some offset. */
  ghost predicate OccursAt(s: string, p: string, i: int) {
    0 <= i && i + |p| <= |s| && s[i..i + |p|] == p
  }

  /** `s.includes(p)`, searched left to right. */
  function Includes(s: string, p: string): (r: bool)
    ensures r <==> exists i :: OccursAt(s, p, i)
  {
    if StartsWith(s, p) then
      assert OccursAt(s, p, 0);
      true
    else if |s| == 0 then
      false
    else
      assert |p| <= |s| ==> s[0..|p|] == s[..|p|];
      assert !OccursAt(s, p, 0);
      forall i | 1 <= i ensures OccursAt(s, p, i) <==> OccursAt(s[1..], p, i - 1) {
        OccursShift(s, p, i);
      }
      var r := Includes(s[1..], p);
      assert r ==> exists i :: OccursAt(s, p, i) by {
        if r {
          var j :| OccursAt(s[1..], p, j);
          OccursShift(s, p, j + 1);
        }
      }
      r
  }

  lemma OccursShift(s: string, p: string, i: int)
    requires |s| > 0 && 1 <= i
    ensures OccursAt(s, p, i) <==> OccursAt(s[1..], p, i - 1)
  {
    if i + |p| <= |s| {
      assert s[1..][i - 1..i - 1 + |p|] == s[i..i + |p|];
    }
  }

  /** An occurrence of `p` placed between two strings is found. */
  lemma IncludesMiddle(x: string, p: string, y: string)
    ensures Includes(x + p + y, p)
  {
    assert (x + p + y)[|x|..|x| + |p|] == p;
    assert OccursAt(x + p + y, p, |x|);
  }

  /** When the last character of `x` does not occur in `p`, no occurrence of
      `p` in `x + y` can straddle the seam. */
  lemma IncludesConcat(x: string, y: string, p: string)
    requires |x| > 0 && x[|x| - 1] !in p
    ensures Includes(x + y, p) <==> Includes(x, p) || Includes(y, p)
  {
    if Includes(x, p) {
      var i :| OccursAt(x, p, i);
      OccursInLeft(x, y, p, i);
    }
    if Includes(y, p) {
      var j :| OccursAt(y, p, j);
      OccursInRight(x, y, p, j);
    }
    if Includes(x + y, p) {
      var i :| OccursAt(x + y, p, i);
      OccursInConcat(x, y, p, i);
    }
  }

  lemma OccursInLeft(x: string, y: string, p: string, i: int)
    requires OccursAt(x, p, i)
    ensures OccursAt(x + y, p, i)
  {
    assert (x + y)[i..i + |p|] == x[i..i + |p|];
  }

  lemma OccursInRight(x: string, y: string, p: string, j: int)
    requires OccursAt(y, p, j)
    ensures OccursAt(x + y, p, |x| + j)
  {
    assert (x + y)[|x| + j..|x| + j + |p|] == y[j..j + |p|];
  }

  /** An occurrence in `x + y` lies in `x`, in `y`, or across the seam. */
  lemma OccursInConcat(x: string, y: string, p: string, i: int)
    requires |x| > 0 && x[|x| - 1] !in p && OccursAt(x + y, p, i)
    ensures Includes(x, p) || Includes(y, p)
  {
    if i + |p| <= |x| {
      assert (x + y)[i..i + |p|] == x[i..i + |p|];
      assert OccursAt(x, p, i);
    } else if i >= |x| {
      assert (x + y)[i..i + |p|] == y[i - |x|..i - |x| + |p|];
      assert OccursAt(y, p, i - |x|);
    } else {
      SeamChar(x, y, p, i);
    }
  }

  lemma SeamChar(x: string, y: string, p: string, i: int)
    requires OccursAt(x + y, p, i) && i < |x| < i + |p|
    ensures x[|x| - 1] in p
  {
    assert (x + y)[i..i + |p|][|x| - 1 - i] == x[|x| - 1];
  }

  /** `c.repeat(n)` for a one-character string `c`; JavaScript throws a
      RangeError for a negative count, which is `None` here. */
  function Repeat(c: char, n: int): (r: Option<string>)
    ensures n < 0 <==> r.None?
    ensures r.Some? ==> |r.value| == n && forall i :: 0 <= i < |r.value| ==> r.value[i] == c
    decreases if n < 0 then 0 else n
  {
    if n < 0 then None
    else if n == 0 then Some([])
    else Some([c] + Repeat(c, n - 1).value)
  }

  datatype Option<+T> = None | Some(value: T)

  /** JavaScript `a % b` for a positive divisor: the remainder takes the
      sign of the dividend (truncating division), unlike Dafny's Euclidean `%`. */
  function TruncRem(a: int, b: int): (r: int)
    requires b > 0
    ensures a >= 0 ==> r == a % b
    ensures a < 0 ==> -b < r <= 0
    ensures (a - r) % b == 0
  {
    if a >= 0 then
      ModUnique(a - a % b, b, a / b, 0);
      a % b
    else
      ModUnique(a + (-a) % b, b, -((-a) / b), 0);
      -((-a) % b)
  }

  /** The decimal digit for `d`. */
  function DigitChar(d: nat): (c: char)
    requires d < 10
    ensures '0' <= c <= '9'
  {
    "0123456789"[d]
  }

  /** `${n}` for a non-negative integer: its decimal digits, most
      significant first, with no leading zeros. */
  function NatToString(n: nat): (r: string)
    ensures |r| > 0 && forall i :: 0 <= i < |r| ==> '0' <= r[i] <= '9'
    ensures |r| > 1 ==> r[0] != '0'
  {
    if n < 10 then [DigitChar(n)] else NatToString(n / 10) + [DigitChar(n % 10)]
  }

  /** Reading a string of decimal digits back as a number. */
  function ParseDigits(s: string): nat
    requires forall i :: 0 <= i < |s| ==> '0' <= s[i] <= '9'
  {
    if |s| == 0 then 0 else ParseDigits(s[..|s| - 1]) * 10 + (s[|s| - 1] as int - '0' as int)
  }

  /** Printing a number and reading it back gives the number. */
  lemma {:induction false} ParseNatToString(n: nat)
    ensures ParseDigits(NatToString(n)) == n
  {
    var r := NatToString(n);
    if n < 10 {
      assert r[..0] == [];
      assert "0123456789"[n] as int - '0' as int == n;
    } else {
      ParseNatToString(n / 10);
      assert r[..|r| - 1] == NatToString(n / 10);
      assert "0123456789"[n % 10] as int - '0' as int == n % 10;
    }
  }

  /** Different numbers print differently. */
  lemma NatToStringInjective(a: nat, b: nat)
    requires NatToString(a) == NatToString(b)
    ensures a == b
  {
    ParseNatToString(a);
    ParseNatToString(b);
  }
}
