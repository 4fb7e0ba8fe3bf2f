/** `textPriceFallback` of check-sales.js: the leftmost match of
    `(\$|NZ\$|A\$|€|£)\s?\d[\d,]*(\.\d{1,2})?` in the page's body text, or `""`.
    The regular expression is described twice: declaratively, as the set of
    strings it accepts (IsPriceText), and operationally, as the greedy,
    leftmost-first search a JavaScript regex engine performs (MatchAt, Locate).
    The lemmas show that the search returns the leftmost and, at that position,
    longest accepted substring. */
module Fallback {
  import opened Wrappers
  import opened JsText

  // ---------------------------------------------------------------------
  // The language of the pattern
  // ---------------------------------------------------------------------

  /** `(\$|NZ\$|A\$|€|£)` */
  predicate IsCurrency(p: string) {
    p == "$" || p == "NZ$" || p == "A$" || p == "€" || p == "£"
  }

  predicate IsDigitOrComma(c: char) {
    IsDigit(c) || c == ','
  }

  /** `[\d,]*` */
  predicate AllDigitsOrCommas(z: string) {
    forall k :: 0 <= k < |z| ==> IsDigitOrComma(z[k])
  }

  /** `\d[\d,]*(\.\d{1,2})?` */
  predicate IsAmount(y: string) {
    |y| >= 1 && IsDigit(y[0]) &&
    (AllDigitsOrCommas(y[1..])
     || (|y| >= 3 && y[|y| - 2] == '.' && IsDigit(y[|y| - 1]) && AllDigitsOrCommas(y[1..|y| - 2]))
     || (|y| >= 4 && y[|y| - 3] == '.' && IsDigit(y[|y| - 2]) && IsDigit(y[|y| - 1])
         && AllDigitsOrCommas(y[1..|y| - 3])))
  }

  /** `\s?` followed by an amount. */
  predicate IsSpacedAmount(y: string) {
    IsAmount(y) || (|y| >= 1 && IsSpace(y[0]) && IsAmount(y[1..]))
  }

  /** x is a currency symbol of length k followed by a spaced amount. */
  predicate HasCurrencyTail(x: string, k: nat) {
    k <= |x| && IsCurrency(x[..k]) && IsSpacedAmount(x[k..])
  }

  /** x is accepted by the whole pattern (the currency symbols are 1 to 3 characters long). */
  predicate IsPriceText(x: string) {
    HasCurrencyTail(x, 1) || HasCurrencyTail(x, 2) || HasCurrencyTail(x, 3)
  }

  /** No substring of b starting in [from, to) is accepted by the pattern. */
  ghost predicate NoPriceTextFrom(b: string, from: nat, to: nat) {
    forall s, j :: from <= s < to && s <= j <= |b| ==> !IsPriceText(b[s..j])
  }

  // ---------------------------------------------------------------------
  // The search a JavaScript regex engine performs for this pattern
  // ---------------------------------------------------------------------

  /** Length of the currency symbol at position i, 0 if there is none. The
      alternatives start with different characters, so at most one applies. */
  function CurrencyLen(b: string, i: nat): (k: nat)
    requires i <= |b|
    ensures k <= 3 && i + k <= |b|
  {
    if i < |b| && b[i] == '$' then 1
    else if i + 3 <= |b| && b[i..i + 3] == "NZ$" then 3
    else if i + 2 <= |b| && b[i..i + 2] == "A$" then 2
    else if i < |b| && (b[i] == '€' || b[i] == '£') then 1
    else 0
  }

  /** End of the greedy `[\d,]*` that starts at j. */
  function RunEnd(b: string, j: nat): (e: nat)
    requires j <= |b|
    ensures j <= e <= |b|
    ensures forall k :: j <= k < e ==> IsDigitOrComma(b[k])
    ensures e == |b| || !IsDigitOrComma(b[e])
    decreases |b| - j
  {
    if j < |b| && IsDigitOrComma(b[j]) then RunEnd(b, j + 1) else j
  }

  /** End of the greedy `\d[\d,]*(\.\d{1,2})?` whose first digit is at d. */
  function AmountEnd(b: string, d: nat): (e: nat)
    requires d < |b| && IsDigit(b[d])
    ensures d < e <= |b|
  {
    var r := RunEnd(b, d + 1);
    if r + 1 < |b| && b[r] == '.' && IsDigit(b[r + 1]) then
      (if r + 2 < |b| && IsDigit(b[r + 2]) then r + 3 else r + 2)
    else r
  }

  /** The end of the match that starts at position i, if the pattern matches there. */
  function MatchAt(b: string, i: nat): (m: Option<nat>)
    requires i <= |b|
    ensures m.Some? ==> i < m.value <= |b|
  {
    var k := CurrencyLen(b, i);
    var d := i + k;
    if k == 0 then None
    else if d < |b| && IsDigit(b[d]) then Some(AmountEnd(b, d))
    else if d + 1 < |b| && IsSpace(b[d]) && IsDigit(b[d + 1]) then Some(AmountEnd(b, d + 1))
    else None
  }

  /** The leftmost match at or after position i, as a (start, end) pair. */
  function Locate(b: string, i: nat): (m: Option<(nat, nat)>)
    requires i <= |b|
    ensures m.Some? ==> i <= m.value.0 < m.value.1 <= |b|
    decreases |b| - i
  {
    if i == |b| then None
    else
      match MatchAt(b, i)
      case Some(e) => Some((i, e))
      case None => Locate(b, i + 1)
  }

  /** `textPriceFallback`, given the text of the page's body. */
  function TextPriceFallback(body: string): string {
    match Locate(body, 0)
    case None => ""
    case Some((s, e)) => body[s..e]
  }

  // ---------------------------------------------------------------------
  // The search agrees with the language
  // ---------------------------------------------------------------------

  lemma CurrencySound(b: string, i: nat)
    requires i <= |b| && CurrencyLen(b, i) > 0
    ensures IsCurrency(b[i..i + CurrencyLen(b, i)])
  {
    if b[i] == '$' || b[i] == '€' || b[i] == '£' {
      assert b[i..i + 1] == [b[i]];
    }
  }

  /** A slice of a slice is a slice of the original string. */
  lemma SliceOfSlice(b: string, d: nat, j: nat, lo: nat, hi: nat)
    requires d <= j <= |b| && lo <= hi <= j - d
    ensures b[d..j][lo..hi] == b[d + lo..d + hi]
  {
    var x, y := b[d..j][lo..hi], b[d + lo..d + hi];
    assert |x| == |y|;
    forall k | 0 <= k < |x| ensures x[k] == y[k] {
      assert x[k] == b[d..j][lo + k] == b[d + lo + k];
    }
  }

  /** The first character of b[i..] decides which symbol the search recognises. */
  lemma CurrencyByFirst(b: string, i: nat)
    requires i < |b|
    ensures b[i] != 'N' ==> !(i + 3 <= |b| && b[i..i + 3] == "NZ$")
    ensures b[i] != 'A' ==> !(i + 2 <= |b| && b[i..i + 2] == "A$")
  {
    if i + 3 <= |b| {
      assert b[i..i + 3][0] == b[i];
    }
    if i + 2 <= |b| {
      assert b[i..i + 2][0] == b[i];
    }
  }

  /** The symbol at the front of an accepted substring is the one the search sees. */
  lemma CurrencyDetermined(b: string, i: nat, j: nat, k: nat)
    requires i <= j <= |b| && 1 <= k <= 3 && HasCurrencyTail(b[i..j], k)
    ensures CurrencyLen(b, i) == k
  {
    SliceOfSlice(b, i, j, 0, k);
    var c := b[i..i + k];
    assert IsCurrency(c);
    assert c[0] == b[i];
    CurrencyByFirst(b, i);
  }

  /** The characters of a run of digits and commas, read off the whole string. */
  lemma RunChars(b: string, lo: nat, hi: nat)
    requires lo <= hi <= |b| && AllDigitsOrCommas(b[lo..hi])
    ensures forall k :: lo <= k < hi ==> IsDigitOrComma(b[k])
  {
    forall k | lo <= k < hi ensures IsDigitOrComma(b[k]) {
      assert b[lo..hi][k - lo] == b[k];
    }
  }

  /** The greedy `[\d,]*` from j reaches at least e when [j, e) is such a run. */
  lemma {:induction false} RunEndReaches(b: string, j: nat, e: nat)
    requires j <= e <= |b| && forall k :: j <= k < e ==> IsDigitOrComma(b[k])
    ensures e <= RunEnd(b, j)
    decreases e - j
  {
    if j < e {
      RunEndReaches(b, j + 1, e);
    }
  }

  /** The greedy `[\d,]*` from j stops exactly at e when [j, e) is such a run
      and b[e] is neither a digit nor a comma. */
  lemma RunEndExact(b: string, j: nat, e: nat)
    requires j <= e < |b| && forall k :: j <= k < e ==> IsDigitOrComma(b[k])
    requires !IsDigitOrComma(b[e])
    ensures RunEnd(b, j) == e
  {
    RunEndReaches(b, j, e);
  }

  lemma AmountSound(b: string, d: nat)
    requires d < |b| && IsDigit(b[d])
    ensures IsAmount(b[d..AmountEnd(b, d)])
  {
    var r := RunEnd(b, d + 1);
    var e := AmountEnd(b, d);
    var y := b[d..e];
    assert y[0] == b[d];
    var run := b[d + 1..r];
    assert AllDigitsOrCommas(run) by {
      forall k | 0 <= k < |run| ensures IsDigitOrComma(run[k]) {
        assert run[k] == b[d + 1 + k];
      }
    }
    SliceOfSlice(b, d, e, 1, r - d);
    if e == r {
      assert y[1..] == run;
    } else if e == r + 2 {
      assert y[1..|y| - 2] == run;
      assert y[|y| - 2] == b[r] && y[|y| - 1] == b[r + 1];
    } else {
      assert y[1..|y| - 3] == run;
      assert y[|y| - 3] == b[r] && y[|y| - 2] == b[r + 1] && y[|y| - 1] == b[r + 2];
    }
  }

  /** An accepted amount b[d..j], described by positions of b: digits and
      commas up to j, or up to a dot followed by one or two final digits. */
  predicate AmountCase(b: string, d: nat, j: nat, f: nat)
    requires d < j <= |b| && f <= 2
  {
    j - d >= 1 + (if f == 0 then 0 else f + 1)
    && (forall k :: d + 1 <= k < j - (if f == 0 then 0 else f + 1) ==> IsDigitOrComma(b[k]))
    && (f > 0 ==> b[j - f - 1] == '.' && forall k :: j - f <= k < j ==> IsDigit(b[k]))
  }

  lemma AmountCases(b: string, d: nat, j: nat)
    requires d < j <= |b| && IsAmount(b[d..j])
    ensures AmountCase(b, d, j, 0) || AmountCase(b, d, j, 1) || AmountCase(b, d, j, 2)
  {
    var y := b[d..j];
    var n := |y|;
    if AllDigitsOrCommas(y[1..]) {
      SliceOfSlice(b, d, j, 1, n);
      RunChars(b, d + 1, j);
      assert AmountCase(b, d, j, 0);
    } else if n >= 3 && y[n - 2] == '.' && IsDigit(y[n - 1]) && AllDigitsOrCommas(y[1..n - 2]) {
      assert b[j - 2] == y[n - 2] && b[j - 1] == y[n - 1];
      SliceOfSlice(b, d, j, 1, n - 2);
      RunChars(b, d + 1, j - 2);
      assert AmountCase(b, d, j, 1);
    } else {
      assert b[j - 3] == y[n - 3] && b[j - 2] == y[n - 2] && b[j - 1] == y[n - 1];
      SliceOfSlice(b, d, j, 1, n - 3);
      RunChars(b, d + 1, j - 3);
      assert AmountCase(b, d, j, 2);
    }
  }

  /** The greedy search ends no earlier than any accepted amount starting at d. */
  lemma AmountLongest(b: string, d: nat, j: nat)
    requires d < j <= |b| && IsDigit(b[d]) && IsAmount(b[d..j])
    ensures j <= AmountEnd(b, d)
  {
    AmountCases(b, d, j);
    if AmountCase(b, d, j, 0) {
      RunEndReaches(b, d + 1, j);
    } else if AmountCase(b, d, j, 1) {
      RunEndExact(b, d + 1, j - 2);
    } else {
      RunEndExact(b, d + 1, j - 3);
    }
  }

  lemma MatchAtSound(b: string, i: nat)
    requires i <= |b| && MatchAt(b, i).Some?
    ensures IsPriceText(b[i..MatchAt(b, i).value])
  {
    var k := CurrencyLen(b, i);
    var d := i + k;
    var e := MatchAt(b, i).value;
    var x := b[i..e];
    CurrencySound(b, i);
    SliceOfSlice(b, i, e, 0, k);
    SliceOfSlice(b, i, e, k, e - i);
    assert x[..k] == b[i..i + k];
    assert x[k..] == b[d..e];
    if d < |b| && IsDigit(b[d]) {
      AmountSound(b, d);
    } else {
      AmountSound(b, d + 1);
      SliceOfSlice(b, d, e, 1, e - d);
      assert x[k..][1..] == b[d + 1..e];
    }
    assert HasCurrencyTail(x, k);
  }

  /** After the symbol, the search's amount ends no earlier than any accepted `\s?` amount. */
  lemma SpacedAmountLongest(b: string, d: nat, j: nat)
    requires d <= j <= |b| && IsSpacedAmount(b[d..j])
    ensures d < |b|
    ensures IsDigit(b[d]) ==> j <= AmountEnd(b, d)
    ensures !IsDigit(b[d]) ==> d + 1 < |b| && IsSpace(b[d]) && IsDigit(b[d + 1]) && j <= AmountEnd(b, d + 1)
  {
    var y := b[d..j];
    assert b[d] == y[0];
    if IsAmount(y) {
      AmountLongest(b, d, j);
    } else {
      assert b[d + 1] == y[1];
      SliceOfSlice(b, d, j, 1, j - d);
      AmountLongest(b, d + 1, j);
    }
  }

  /** Where the pattern is accepted at i, the search finds a match there that
      is at least as long. */
  lemma MatchAtComplete(b: string, i: nat, j: nat)
    requires i <= j <= |b| && IsPriceText(b[i..j])
    ensures MatchAt(b, i).Some? && j <= MatchAt(b, i).value
  {
    var x := b[i..j];
    var k: nat := if HasCurrencyTail(x, 1) then 1 else if HasCurrencyTail(x, 2) then 2 else 3;
    CurrencyDetermined(b, i, j, k);
    SliceOfSlice(b, i, j, k, j - i);
    SpacedAmountLongest(b, i + k, j);
  }

  lemma {:induction false} LocateNone(b: string, i: nat)
    requires i <= |b| && Locate(b, i).None?
    ensures NoPriceTextFrom(b, i, |b| + 1)
    decreases |b| - i
  {
    if i == |b| {
      assert !IsPriceText(b[i..i]);
    } else {
      LocateNone(b, i + 1);
      NoMatchHere(b, i);
      NoPriceTextExtend(b, i, |b| + 1);
    }
  }

  lemma NoMatchHere(b: string, i: nat)
    requires i <= |b| && MatchAt(b, i).None?
    ensures forall j :: i <= j <= |b| ==> !IsPriceText(b[i..j])
  {
    forall j | i <= j <= |b| ensures !IsPriceText(b[i..j]) {
      if IsPriceText(b[i..j]) {
        MatchAtComplete(b, i, j);
      }
    }
  }

  /** A start position without a match extends a stretch without matches. */
  lemma NoPriceTextExtend(b: string, i: nat, to: nat)
    requires i < to && NoPriceTextFrom(b, i + 1, to)
    requires forall j :: i <= j <= |b| ==> !IsPriceText(b[i..j])
    ensures NoPriceTextFrom(b, i, to)
  {
  }

  lemma {:induction false} LocateSome(b: string, i: nat)
    requires i <= |b| && Locate(b, i).Some?
    ensures MatchAt(b, Locate(b, i).value.0) == Some(Locate(b, i).value.1)
    ensures NoPriceTextFrom(b, i, Locate(b, i).value.0)
    decreases |b| - i
  {
    if MatchAt(b, i).None? {
      LocateSome(b, i + 1);
      NoMatchHere(b, i);
      NoPriceTextExtend(b, i, Locate(b, i).value.0);
    }
  }

  /** textPriceFallback returns "" exactly when no substring of the body is a
      currency-prefixed amount; otherwise it returns the leftmost such
      substring, and the longest one at that position. */
  lemma TextPriceFallbackSpec(body: string)
    ensures TextPriceFallback(body) == "" <==> NoPriceTextFrom(body, 0, |body| + 1)
    ensures Locate(body, 0).Some? ==>
              var (s, e) := Locate(body, 0).value;
              TextPriceFallback(body) == body[s..e]
              && IsPriceText(body[s..e])
              && NoPriceTextFrom(body, 0, s)
              && forall j :: e < j <= |body| ==> !IsPriceText(body[s..j])
  {
    if Locate(body, 0).None? {
      LocateNone(body, 0);
    } else {
      LocateSome(body, 0);
      var (s, e) := Locate(body, 0).value;
      MatchAtSound(body, s);
      forall j | e < j <= |body| ensures !IsPriceText(body[s..j]) {
        if IsPriceText(body[s..j]) {
          MatchAtComplete(body, s, j);
        }
      }
      assert |body[s..e]| > 0;
    }
  }

  lemma TailHasDigit(x: string, k: nat)
    requires HasCurrencyTail(x, k)
    ensures HasDigit(x)
  {
    var y := x[k..];
    if IsAmount(y) {
      assert x[k] == y[0];
    } else {
      assert x[k + 1] == y[1];
    }
  }

  /** Every accepted string holds a digit, so what the fallback finds parses. */
  lemma PriceTextHasDigit(x: string)
    requires IsPriceText(x)
    ensures HasDigit(x)
  {
    if HasCurrencyTail(x, 1) {
      TailHasDigit(x, 1);
    } else if HasCurrencyTail(x, 2) {
      TailHasDigit(x, 2);
    } else {
      TailHasDigit(x, 3);
    }
  }

  lemma FallbackHasDigit(body: string)
    requires TextPriceFallback(body) != ""
    ensures HasDigit(TextPriceFallback(body))
  {
    TextPriceFallbackSpec(body);
    var (s, e) := Locate(body, 0).value;
    PriceTextHasDigit(body[s..e]);
  }
}
