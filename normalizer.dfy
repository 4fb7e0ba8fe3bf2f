/** `normalizePriceResult` of check-sales.js: cleaning of the "now" and "was"
    fragments (`norm`), the text-to-number step (`priceToNumber`) and the
    on-sale heuristic. A price is a natural number of hundredths: the parser
    keeps at most two fractional digits, so `"19.9"` is 1990. */
module Normalizer {
  import opened Wrappers
  import opened JsText

  // ---------------------------------------------------------------------
  // norm: a missing text becomes empty, white space runs shrink to one
  // space, and the ends are trimmed
  // ---------------------------------------------------------------------

  /** The input with its leading white space removed (`trimStart`). */
  function DropSpaces(s: string): (r: string)
    ensures |r| <= |s| && r == s[|s| - |r|..]
    ensures r == [] || !IsSpace(r[0])
    ensures forall k :: 0 <= k < |s| - |r| ==> IsSpace(s[k])
  {
    if s != [] && IsSpace(s[0]) then DropSpaces(s[1..]) else s
  }

  /** Every maximal run of white space becomes one space. */
  function Collapse(s: string): string
    decreases |s|
  {
    if s == [] then []
    else if IsSpace(s[0]) then " " + Collapse(DropSpaces(s[1..]))
    else [s[0]] + Collapse(s[1..])
  }

  function TrimEnd(s: string): string
  {
    if s != [] && IsSpace(s[|s| - 1]) then TrimEnd(s[..|s| - 1]) else s
  }

  /** `String.prototype.trim`. */
  function Trim(s: string): string {
    TrimEnd(DropSpaces(s))
  }

  /** `norm`: `null`/`undefined` (and `""`) give `""`. */
  function Norm(s: Option<string>): string {
    match s
    case None => ""
    case Some(t) => Trim(Collapse(t))
  }

  // Reference definition: the words of a string joined by single spaces.

  predicate IsWord(w: string) {
    |w| > 0 && forall k :: 0 <= k < |w| ==> !IsSpace(w[k])
  }

  /** Length of the longest prefix without white space. */
  function WordLen(s: string): (n: nat)
    ensures n <= |s|
    ensures forall k :: 0 <= k < n ==> !IsSpace(s[k])
    ensures n == |s| || IsSpace(s[n])
  {
    if s == [] || IsSpace(s[0]) then 0 else 1 + WordLen(s[1..])
  }

  /** The maximal runs of non-white-space characters, in order. */
  function Words(s: string): (ws: seq<string>)
    ensures forall i :: 0 <= i < |ws| ==> IsWord(ws[i])
    decreases |s|
  {
    var t := DropSpaces(s);
    if t == [] then []
    else
      var n := WordLen(t);
      var w := t[..n];
      assert IsWord(w) by {
        assert n > 0;
        forall k | 0 <= k < n ensures !IsSpace(w[k]) {
          assert w[k] == t[k];
        }
      }
      var rest := Words(t[n..]);
      AllWordsCons(w, rest);
      [w] + rest
  }

  lemma AllWordsCons(w: string, ws: seq<string>)
    requires IsWord(w) && forall i :: 0 <= i < |ws| ==> IsWord(ws[i])
    ensures forall i :: 0 <= i < |[w] + ws| ==> IsWord(([w] + ws)[i])
  {
    forall i | 0 <= i < |[w] + ws| ensures IsWord(([w] + ws)[i]) {
      if i > 0 {
        assert ([w] + ws)[i] == ws[i - 1];
      }
    }
  }

  function Join(ws: seq<string>): string {
    if |ws| == 0 then ""
    else if |ws| == 1 then ws[0]
    else ws[0] + " " + Join(ws[1..])
  }

  /** The layout `norm` promises: no white space at either end, and each
      white-space character is a single space between two other characters. */
  predicate IsClean(r: string) {
    (r == [] || (!IsSpace(r[0]) && !IsSpace(r[|r| - 1])))
    && forall i :: 0 <= i < |r| && IsSpace(r[i]) ==>
         r[i] == ' ' && 0 < i < |r| - 1 && !IsSpace(r[i - 1]) && !IsSpace(r[i + 1])
  }

  lemma {:induction false} JoinEnds(ws: seq<string>)
    requires ws != [] && forall i :: 0 <= i < |ws| ==> IsWord(ws[i])
    ensures IsWord(ws[0]) && IsWord(ws[|ws| - 1])
    ensures |Join(ws)| > 0
    ensures Join(ws)[0] == ws[0][0]
    ensures Join(ws)[|Join(ws)| - 1] == ws[|ws| - 1][|ws[|ws| - 1]| - 1]
  {
    if |ws| > 1 {
      JoinEnds(ws[1..]);
      assert ws[1..][|ws| - 2] == ws[|ws| - 1];
    }
  }

  lemma JoinCons(w: string, ws: seq<string>)
    requires ws != []
    ensures Join([w] + ws) == w + (" " + Join(ws))
  {
    assert ([w] + ws)[1..] == ws;
    Assoc(w, " ", Join(ws));
  }

  lemma Assoc(a: string, b: string, c: string)
    ensures (a + b) + c == a + (b + c)
  {
  }

  lemma {:induction false} JoinIsClean(ws: seq<string>)
    requires forall i :: 0 <= i < |ws| ==> IsWord(ws[i])
    ensures IsClean(Join(ws))
  {
    if |ws| > 1 {
      var w, j := ws[0], Join(ws[1..]);
      JoinIsClean(ws[1..]);
      JoinEnds(ws[1..]);
      assert IsWord(w);
      var r := Join(ws);
      assert r == w + " " + j;
      forall i | 0 <= i < |r| && IsSpace(r[i])
        ensures r[i] == ' ' && 0 < i < |r| - 1 && !IsSpace(r[i - 1]) && !IsSpace(r[i + 1])
      {
        if i < |w| {
          assert false;
        } else if i == |w| {
          assert r[i - 1] == w[|w| - 1];
          assert r[i + 1] == j[0];
        } else {
          assert r[i] == j[i - |w| - 1];
          if i > |w| + 1 {
            assert r[i - 1] == j[i - |w| - 2];
          }
          assert r[i + 1] == j[i - |w|];
        }
      }
    } else if |ws| == 1 {
      JoinEnds(ws);
    }
  }

  lemma DropSpacesOfWordStart(t: string)
    requires t == [] || !IsSpace(t[0])
    ensures DropSpaces(t) == t
  {
  }

  lemma WordsSkip(s: string)
    ensures Words(s) == Words(DropSpaces(s))
  {
    DropSpacesOfWordStart(DropSpaces(s));
  }

  /** One step of Words on a string that starts at a word. */
  lemma WordsStep(t: string)
    requires t != [] && !IsSpace(t[0])
    ensures 0 < WordLen(t)
    ensures Words(t) == [t[..WordLen(t)]] + Words(t[WordLen(t)..])
  {
    DropSpacesOfWordStart(t);
  }

  lemma WordsEmpty(t: string)
    requires t == [] || !IsSpace(t[0])
    ensures Words(t) == [] <==> t == []
  {
    DropSpacesOfWordStart(t);
  }

  lemma CollapseSpace(s: string)
    requires s != [] && IsSpace(s[0])
    ensures DropSpaces(s) == DropSpaces(s[1..])
    ensures Collapse(s) == " " + Collapse(DropSpaces(s))
  {
  }

  /** Collapsing a string that starts at a word: the prefix word is kept. */
  lemma {:induction false} CollapseWord(t: string, n: nat)
    requires n <= |t| && forall k :: 0 <= k < n ==> !IsSpace(t[k])
    ensures Collapse(t) == t[..n] + Collapse(t[n..])
    decreases n
  {
    if n > 0 {
      var u := t[1..];
      assert forall k :: 0 <= k < n - 1 ==> u[k] == t[k + 1];
      CollapseWord(u, n - 1);
      assert u[..n - 1] == t[1..n];
      assert u[n - 1..] == t[n..];
      CollapseNonSpace(t);
      assert t[..n] == [t[0]] + t[1..n];
      Assoc([t[0]], t[1..n], Collapse(t[n..]));
    }
  }

  lemma CollapseNonSpace(t: string)
    requires t != [] && !IsSpace(t[0])
    ensures Collapse(t) == [t[0]] + Collapse(t[1..])
  {
  }

  /** What Collapse leaves after the words: one space if the input ends in white space. */
  function Tail(t: string): string {
    if t != [] && IsSpace(t[|t| - 1]) then " " else ""
  }

  lemma TailOfDrop(t: string, n: nat)
    requires n < |t|
    ensures Tail(t[n..]) == Tail(t)
  {
    assert t[n..][|t| - n - 1] == t[|t| - 1];
  }

  lemma TailOfDropSpaces(s: string)
    requires DropSpaces(s) != []
    ensures Tail(DropSpaces(s)) == Tail(s)
  {
    var r := DropSpaces(s);
    assert r[|r| - 1] == s[|s| - 1];
  }

  /** The inductive step of CollapseFromWord, for a word followed by white space. */
  lemma CollapseWordThenSpace(t: string, n: nat, t2: string)
    requires 0 < n < |t| && IsSpace(t[n])
    requires Collapse(t) == t[..n] + Collapse(t[n..])
    requires Words(t) == [t[..n]] + Words(t[n..])
    requires t2 == DropSpaces(t[n..]) && (t2 == [] || !IsSpace(t2[0]))
    requires Collapse(t2) == Join(Words(t2)) + Tail(t2)
    ensures Collapse(t) == Join(Words(t)) + Tail(t)
  {
    var w, rest := t[..n], t[n..];
    CollapseSpace(rest);
    WordsSkip(rest);
    assert Collapse(t) == w + (" " + Collapse(t2));
    assert Words(t) == [w] + Words(t2);
    if t2 == [] {
      LastWordThenSpace(t, n);
    } else {
      var j, e := Join(Words(t2)), Tail(t);
      WordsEmpty(t2);
      JoinCons(w, Words(t2));
      TailOfDropSpaces(rest);
      TailOfDrop(t, n);
      Assoc(" ", j, e);
      Assoc(w, " " + j, e);
      calc {
        Collapse(t);
        w + (" " + Collapse(t2));
        w + (" " + (j + e));
        w + ((" " + j) + e);
        (w + (" " + j)) + e;
        Join(Words(t)) + e;
      }
    }
  }

  /** A word followed only by white space collapses to the word and one space. */
  lemma LastWordThenSpace(t: string, n: nat)
    requires 0 < n < |t| && DropSpaces(t[n..]) == []
    requires Collapse(t) == t[..n] + (" " + Collapse(DropSpaces(t[n..])))
    requires Words(t) == [t[..n]] + Words(DropSpaces(t[n..]))
    ensures Collapse(t) == Join(Words(t)) + Tail(t)
  {
    var rest := t[n..];
    assert IsSpace(rest[|rest| - 1]);
    assert t[|t| - 1] == rest[|rest| - 1];
    assert Tail(t) == " ";
    assert Words(t) == [t[..n]];
    assert Join(Words(t)) == t[..n];
    var c := Collapse(DropSpaces(t[n..]));
    assert c == [];
    assert " " + c == " ";
  }

  /** The base case of CollapseFromWord: a single word. */
  lemma CollapseOneWord(t: string)
    requires t != [] && !IsSpace(t[0]) && WordLen(t) == |t|
    requires Collapse(t) == t[..|t|] + Collapse(t[|t|..])
    requires Words(t) == [t[..|t|]] + Words(t[|t|..])
    ensures Collapse(t) == Join(Words(t)) + Tail(t)
  {
    assert t[|t|..] == [];
    assert t[..|t|] == t;
    assert Words(t) == [t];
    assert Tail(t) == "";
  }

  lemma {:induction false} CollapseFromWord(t: string)
    requires t == [] || !IsSpace(t[0])
    ensures Collapse(t) == Join(Words(t)) + Tail(t)
    decreases |t|
  {
    if t != [] {
      var n := WordLen(t);
      WordsStep(t);
      CollapseWord(t, n);
      if n == |t| {
        CollapseOneWord(t);
      } else {
        var t2 := DropSpaces(t[n..]);
        CollapseFromWord(t2);
        CollapseWordThenSpace(t, n, t2);
      }
    }
  }

  lemma StripEnds(j: string, suf: string)
    requires j == [] || (!IsSpace(j[0]) && !IsSpace(j[|j| - 1]))
    requires suf == "" || (suf == " " && j != [])
    ensures DropSpaces(j + suf) == j + suf
    ensures DropSpaces(" " + (j + suf)) == j + suf
    ensures TrimEnd(j + suf) == j
  {
    assert (" " + (j + suf))[1..] == j + suf;
    if suf == " " {
      assert (j + suf)[..|j|] == j;
    } else {
      assert j + suf == j;
    }
  }

  /** The joined words of a string that starts at a word are empty only for
      the empty string, and neither start nor end with white space. */
  lemma JoinedWordsEnds(t: string)
    requires t == [] || !IsSpace(t[0])
    ensures var j := Join(Words(t));
      (t != [] ==> j != []) && (j == [] || (!IsSpace(j[0]) && !IsSpace(j[|j| - 1])))
  {
    WordsEmpty(t);
    var ws := Words(t);
    if ws != [] {
      JoinEnds(ws);
      var first, last := ws[0], ws[|ws| - 1];
      assert !IsSpace(first[0]);
      assert !IsSpace(last[|last| - 1]);
    }
  }

  /** norm equals the reference definition: the words of the input joined by
      single spaces. */
  lemma NormIsJoinedWords(s: string)
    ensures Norm(Some(s)) == Join(Words(s))
  {
    var t := DropSpaces(s);
    WordsSkip(s);
    NormFromWord(t);
    if s != [] && IsSpace(s[0]) {
      CollapseSpace(s);
      TrimLeadingSpace(Collapse(t));
    } else {
      DropSpacesOfWordStart(s);
    }
  }

  /** The same for a string that starts at a word. */
  lemma NormFromWord(t: string)
    requires t == [] || !IsSpace(t[0])
    ensures Trim(Collapse(t)) == Join(Words(t))
  {
    CollapseFromWord(t);
    JoinedWordsEnds(t);
    StripEnds(Join(Words(t)), Tail(t));
  }

  lemma TrimLeadingSpace(x: string)
    ensures Trim(" " + x) == Trim(x)
  {
    assert (" " + x)[1..] == x;
  }

  /** Candidate property of norm: the output is clean, and null maps to "". */
  lemma NormIsClean(s: Option<string>)
    ensures IsClean(Norm(s))
    ensures s == None || s == Some("") ==> Norm(s) == ""
  {
    if s.Some? {
      NormIsJoinedWords(s.value);
      JoinIsClean(Words(s.value));
      if s.value == "" {
        assert Words("") == [];
      }
    }
  }

  lemma WordsOfWord(w: string)
    requires IsWord(w)
    ensures Words(w) == [w]
  {
    WordsStep(w);
    var n := WordLen(w);
    assert n == |w|;
    var rest := w[n..];
    assert rest == [];
    assert Words(rest) == [];
    assert w[..n] == w;
  }

  /** Words of a word, a space and a string that starts at a word. */
  lemma WordsOfWordSpace(w: string, j: string)
    requires IsWord(w) && j != [] && !IsSpace(j[0])
    ensures Words(w + (" " + j)) == [w] + Words(j)
  {
    var x := w + (" " + j);
    assert x[|w|] == ' ';
    WordsStep(x);
    var n := WordLen(x);
    assert n == |w|;
    assert x[..n] == w;
    assert x[n..] == " " + j;
    WordsSkip(" " + j);
    CollapseSpace(" " + j);
    assert (" " + j)[1..] == j;
    DropSpacesOfWordStart(j);
  }

  lemma {:induction false} WordsOfJoin(ws: seq<string>)
    requires forall i :: 0 <= i < |ws| ==> IsWord(ws[i])
    ensures Words(Join(ws)) == ws
  {
    if |ws| == 1 {
      WordsOfWord(ws[0]);
    } else if |ws| > 1 {
      JoinCons(ws[0], ws[1..]);
      assert ws == [ws[0]] + ws[1..];
      JoinEnds(ws[1..]);
      WordsOfWordSpace(ws[0], Join(ws[1..]));
      WordsOfJoin(ws[1..]);
    }
  }

  /** norm keeps the words of its input, so applying it twice changes nothing. */
  lemma NormKeepsWords(s: string)
    ensures Words(Norm(Some(s))) == Words(s)
    ensures Norm(Some(Norm(Some(s)))) == Norm(Some(s))
  {
    NormIsJoinedWords(s);
    WordsOfJoin(Words(s));
    NormIsJoinedWords(Norm(Some(s)));
  }

  lemma {:induction false} DropSpacesKeepsChars(s: string, c: char)
    requires !IsSpace(c)
    ensures c in DropSpaces(s) <==> c in s
  {
    if s != [] && IsSpace(s[0]) {
      DropSpacesKeepsChars(s[1..], c);
      InRest(s, c);
    }
  }

  lemma InRest(s: string, c: char)
    requires s != [] && c != s[0]
    ensures c in s <==> c in s[1..]
  {
    assert s == [s[0]] + s[1..];
  }

  lemma {:induction false} TrimEndKeepsChars(s: string, c: char)
    requires !IsSpace(c)
    ensures c in TrimEnd(s) <==> c in s
    decreases |s|
  {
    if s != [] && IsSpace(s[|s| - 1]) {
      TrimEndKeepsChars(s[..|s| - 1], c);
      assert s == s[..|s| - 1] + [s[|s| - 1]];
    }
  }

  lemma {:induction false} CollapseKeepsChars(s: string, c: char)
    requires !IsSpace(c)
    ensures c in Collapse(s) <==> c in s
    decreases |s|
  {
    if s != [] {
      assert s == [s[0]] + s[1..];
      if IsSpace(s[0]) {
        CollapseKeepsChars(DropSpaces(s[1..]), c);
        DropSpacesKeepsChars(s[1..], c);
      } else {
        CollapseKeepsChars(s[1..], c);
      }
    }
  }

  /** norm neither adds nor loses any character that is not white space. */
  lemma NormKeepsChars(s: string, c: char)
    requires !IsSpace(c)
    ensures c in Norm(Some(s)) <==> c in s
  {
    CollapseKeepsChars(s, c);
    DropSpacesKeepsChars(Collapse(s), c);
    TrimEndKeepsChars(DropSpaces(Collapse(s)), c);
  }

  lemma NormKeepsDigits(s: string)
    ensures HasDigit(Norm(Some(s))) <==> HasDigit(s)
  {
    var r := Norm(Some(s));
    if HasDigit(s) {
      var k :| 0 <= k < |s| && IsDigit(s[k]);
      DigitNotSpace(s[k]);
      NormKeepsChars(s, s[k]);
      var k' :| 0 <= k' < |r| && r[k'] == s[k];
    }
    if HasDigit(r) {
      var k :| 0 <= k < |r| && IsDigit(r[k]);
      DigitNotSpace(r[k]);
      NormKeepsChars(s, r[k]);
      var k' :| 0 <= k' < |s| && s[k'] == r[k];
    }
  }

  lemma NormOfWord(w: string)
    requires IsWord(w)
    ensures Norm(Some(w)) == w
  {
    NormIsJoinedWords(w);
    WordsOfWord(w);
  }

  // ---------------------------------------------------------------------
  // priceToNumber: s => !s ? null : match of /(\d+(\.\d{1,2})?)/ after
  // s.replace(/[, ]/g, ""), read as a number (here: in hundredths)
  // ---------------------------------------------------------------------

  /** The text with every comma and every space removed. */
  function StripSeparators(s: string): string {
    if s == [] then []
    else (if s[0] == ',' || s[0] == ' ' then [] else [s[0]]) + StripSeparators(s[1..])
  }

  /** Length of the longest prefix of digits (the greedy `\d+`). */
  function DigitRunLen(t: string): (n: nat)
    ensures n <= |t|
    ensures forall k :: 0 <= k < n ==> IsDigit(t[k])
    ensures n == |t| || !IsDigit(t[n])
  {
    if t == [] || !IsDigit(t[0]) then 0 else 1 + DigitRunLen(t[1..])
  }

  /** The value of a string of decimal digits. */
  function DigitsValue(d: string): nat
    requires AllDigits(d)
  {
    if d == [] then 0 else 10 * DigitsValue(d[..|d| - 1]) + DigitValue(d[|d| - 1])
  }

  /** The optional `(\.\d{1,2})` after the integer digits, in hundredths:
      one digit is tenths, a second digit is hundredths, a third is ignored. */
  function Cents(f: string): (c: nat)
    ensures c < 100
  {
    if |f| >= 2 && f[0] == '.' && IsDigit(f[1]) then
      10 * DigitValue(f[1]) + (if |f| >= 3 && IsDigit(f[2]) then DigitValue(f[2]) else 0)
    else 0
  }

  /** The number whose leftmost digit is the first character of t. */
  function NumberAt(t: string): nat
    requires t != [] && IsDigit(t[0])
  {
    var n := DigitRunLen(t);
    100 * DigitsValue(t[..n]) + Cents(t[n..])
  }

  /** The leftmost match of `\d+(\.\d{1,2})?`, if any. */
  function FirstNumber(t: string): Option<nat> {
    if t == [] then None
    else if IsDigit(t[0]) then Some(NumberAt(t))
    else FirstNumber(t[1..])
  }

  /** `priceToNumber`, in hundredths. */
  function PriceToNumber(s: string): Option<nat> {
    if s == "" then None else FirstNumber(StripSeparators(s))
  }

  lemma {:induction false} StripAppend(a: string, b: string)
    ensures StripSeparators(a + b) == StripSeparators(a) + StripSeparators(b)
  {
    if a == [] {
      assert a + b == b;
    } else {
      assert (a + b)[1..] == a[1..] + b;
      StripAppend(a[1..], b);
      var h := if a[0] == ',' || a[0] == ' ' then [] else [a[0]];
      Assoc(h, StripSeparators(a[1..]), StripSeparators(b));
    }
  }

  lemma {:induction false} StripKeepsDigits(s: string)
    ensures HasDigit(StripSeparators(s)) <==> HasDigit(s)
  {
    if s != [] {
      StripKeepsDigits(s[1..]);
      var h := if s[0] == ',' || s[0] == ' ' then [] else [s[0]];
      HasDigitAppend(h, StripSeparators(s[1..]));
      HasDigitAppend([s[0]], s[1..]);
      assert s == [s[0]] + s[1..];
      assert HasDigit([s[0]]) <==> IsDigit(s[0]);
    }
  }

  lemma HasDigitAppend(a: string, b: string)
    ensures HasDigit(a + b) <==> HasDigit(a) || HasDigit(b)
  {
    if HasDigit(a + b) {
      var k :| 0 <= k < |a + b| && IsDigit((a + b)[k]);
      if k >= |a| {
        assert b[k - |a|] == (a + b)[k];
      }
    }
    if HasDigit(b) {
      var k :| 0 <= k < |b| && IsDigit(b[k]);
      assert (a + b)[|a| + k] == b[k];
    }
    if HasDigit(a) {
      var k :| 0 <= k < |a| && IsDigit(a[k]);
      assert (a + b)[k] == a[k];
    }
  }

  lemma {:induction false} FirstNumberAbsent(t: string)
    ensures FirstNumber(t).None? <==> !HasDigit(t)
  {
    if t != [] && !IsDigit(t[0]) {
      FirstNumberAbsent(t[1..]);
      if HasDigit(t) {
        var k :| 0 <= k < |t| && IsDigit(t[k]);
        assert IsDigit(t[1..][k - 1]);
      }
      if HasDigit(t[1..]) {
        var k :| 0 <= k < |t[1..]| && IsDigit(t[1..][k]);
        assert IsDigit(t[k + 1]);
      }
    } else if t != [] {
      assert IsDigit(t[0]);
    }
  }

  /** priceToNumber finds nothing exactly for empty text or text without a digit. */
  lemma PriceToNumberAbsent(s: string)
    ensures PriceToNumber(s).None? <==> s == "" || !HasDigit(s)
  {
    if s != "" {
      FirstNumberAbsent(StripSeparators(s));
      StripKeepsDigits(s);
    }
  }

  lemma {:induction false} FirstNumberSkips(p: string, x: string)
    requires !HasDigit(p)
    ensures FirstNumber(p + x) == FirstNumber(x)
  {
    if p == [] {
      assert p + x == x;
    } else {
      assert (p + x)[0] == p[0];
      assert !IsDigit(p[0]);
      assert (p + x)[1..] == p[1..] + x;
      assert !HasDigit(p[1..]);
      FirstNumberSkips(p[1..], x);
    }
  }

  /** The decimal digits of n, most significant first, as JavaScript prints an integer. */
  function NatDigits(n: nat): (d: string)
    ensures d != [] && AllDigits(d)
  {
    if n < 10 then [DigitChar(n)] else NatDigits(n / 10) + [DigitChar(n % 10)]
  }

  lemma {:induction false} NatDigitsValue(n: nat)
    ensures DigitsValue(NatDigits(n)) == n
  {
    if n >= 10 {
      var d := NatDigits(n);
      assert d[..|d| - 1] == NatDigits(n / 10);
      NatDigitsValue(n / 10);
    }
  }

  lemma {:induction false} DigitsThenRun(d: string, rest: string)
    requires AllDigits(d)
    requires rest == [] || !IsDigit(rest[0])
    ensures DigitRunLen(d + rest) == |d|
  {
    if d != [] {
      assert (d + rest)[1..] == d[1..] + rest;
      DigitsThenRun(d[1..], rest);
    }
  }

  /** A digit string followed by anything but a digit is read as that integer
      plus the cents that follow it. */
  lemma NumberAfterDigits(d: string, rest: string)
    requires d != [] && AllDigits(d)
    requires rest == [] || !IsDigit(rest[0])
    ensures NumberAt(d + rest) == 100 * DigitsValue(d) + Cents(rest)
  {
    DigitsThenRun(d, rest);
    assert (d + rest)[..|d|] == d;
    assert (d + rest)[|d|..] == rest;
  }

  /** The text of a price with exactly two decimals ("19.90"). */
  function TwoDecimals(v: nat): string {
    NatDigits(v / 100) + ['.', DigitChar(v % 100 / 10), DigitChar(v % 10)]
  }

  /** The text JavaScript's `String` prints for the number v/100 ("19.9", "19", "19.05"). */
  function JsDecimal(v: nat): string {
    NatDigits(v / 100) + JsFraction(v)
  }

  lemma NoSeparators(d: string)
    requires forall k :: 0 <= k < |d| ==> d[k] != ',' && d[k] != ' '
    ensures StripSeparators(d) == d
    decreases |d|
  {
    if d != [] {
      NoSeparators(d[1..]);
      assert d == [d[0]] + d[1..];
    }
  }

  lemma DigitsNoSeparators(d: string)
    requires AllDigits(d)
    ensures StripSeparators(d) == d
  {
    NoSeparators(d);
  }

  /** Reading a number that starts after text without digits. */
  lemma ReadAfterPrefix(sp: string, d: string, g: string)
    requires !HasDigit(sp)
    requires d != [] && AllDigits(d)
    requires g == [] || !IsDigit(g[0])
    ensures FirstNumber(sp + (d + g)) == Some(100 * DigitsValue(d) + Cents(g))
  {
    FirstNumberSkips(sp, d + g);
    NumberAfterDigits(d, g);
    FirstNumberAtDigit(d, g);
  }

  lemma FirstNumberAtDigit(d: string, g: string)
    requires d != [] && IsDigit(d[0])
    ensures FirstNumber(d + g) == Some(NumberAt(d + g))
  {
    assert (d + g)[0] == d[0];
  }

  /** Stripping separators from a price text: the digits and the fraction stay. */
  lemma StripPriceText(p: string, d: string, f: string, rest: string)
    requires AllDigits(d)
    requires StripSeparators(f) == f
    ensures StripSeparators(p + (d + f) + rest)
         == StripSeparators(p) + (d + (f + StripSeparators(rest)))
  {
    StripAppend(p + (d + f), rest);
    StripAppend(p, d + f);
    StripAppend(d, f);
    DigitsNoSeparators(d);
    Assoc(StripSeparators(p), d + f, StripSeparators(rest));
    Assoc(d, f, StripSeparators(rest));
  }

  lemma StripFraction(f: string)
    requires |f| <= 3 && (f == [] || (f[0] == '.' && AllDigits(f[1..])))
    ensures StripSeparators(f) == f
  {
    NoSeparators(f);
  }

  /** The leftmost number wins: a price written with two decimals after text
      without digits is read back exactly, whatever text follows it. */
  lemma PriceRoundTrip(p: string, v: nat, rest: string)
    requires !HasDigit(p)
    ensures PriceToNumber(p + TwoDecimals(v) + rest) == Some(v)
  {
    var d := NatDigits(v / 100);
    var f := ['.', DigitChar(v % 100 / 10), DigitChar(v % 10)];
    var g := f + StripSeparators(rest);
    assert TwoDecimals(v) == d + f;
    StripFraction(f);
    StripPriceText(p, d, f, rest);
    StripKeepsDigits(p);
    assert g[0] == '.';
    ReadAfterPrefix(StripSeparators(p), d, g);
    NatDigitsValue(v / 100);
    FractionCents(v, StripSeparators(rest));
    var x := p + TwoDecimals(v) + rest;
    assert x != "" by { assert |x| >= |d| > 0; }
    assert FirstNumber(StripSeparators(x)) == Some(100 * (v / 100) + v % 100);
  }

  /** The two digits after the dot are read back as the hundredths. */
  lemma FractionCents(v: nat, tail: string)
    ensures Cents(['.', DigitChar(v % 100 / 10), DigitChar(v % 10)] + tail) == v % 100
  {
    var f := ['.', DigitChar(v % 100 / 10), DigitChar(v % 10)] + tail;
    assert f[0] == '.' && f[1] == DigitChar(v % 100 / 10) && f[2] == DigitChar(v % 10);
    CentsSplit(v);
  }

  lemma CentsSplit(v: nat)
    ensures v % 100 == 10 * (v % 100 / 10) + v % 10
  {
    var c := v % 100;
    assert v == 100 * (v / 100) + c;
    assert v == 10 * (10 * (v / 100) + c / 10) + c % 10;
  }

  /** The fraction JavaScript prints after the integer part of v/100. */
  function JsFraction(v: nat): string {
    if v % 100 == 0 then ""
    else if v % 10 == 0 then ['.', DigitChar(v % 100 / 10)]
    else ['.', DigitChar(v % 100 / 10), DigitChar(v % 10)]
  }

  lemma JsFractionCents(v: nat)
    ensures Cents(JsFraction(v)) == v % 100
    ensures StripSeparators(JsFraction(v)) == JsFraction(v)
    ensures JsFraction(v) == [] || !IsDigit(JsFraction(v)[0])
  {
    CentsSplit(v);
    StripFraction(JsFraction(v));
  }

  /** priceToNumber reads back the text JavaScript prints for a price. */
  lemma JsDecimalRoundTrip(v: nat)
    ensures PriceToNumber(JsDecimal(v)) == Some(v)
  {
    var d := NatDigits(v / 100);
    var f := JsFraction(v);
    JsFractionCents(v);
    StripAppend(d, f);
    DigitsNoSeparators(d);
    assert StripSeparators(JsDecimal(v)) == d + f;
    assert (d + f)[0] == d[0];
    NumberAfterDigits(d, f);
    NatDigitsValue(v / 100);
  }

  // ---------------------------------------------------------------------
  // The on-sale heuristic and normalizePriceResult
  // ---------------------------------------------------------------------

  /** JavaScript truthiness of a parsed number: present and not 0. */
  predicate Truthy(n: Option<nat>) {
    n.Some? && n.value != 0
  }

  /** The badge is present, non-empty, and contains "sale" once lower-cased. */
  predicate BadgeSaysSale(badge: Option<string>) {
    badge.Some? && badge.value != "" && Contains(ToLower(badge.value), "sale")
  }

  /** The argument of normalizePriceResult; a missing field is `undefined`. */
  datatype PriceInput = PriceInput(now: Option<string>, was: Option<string>, saleBadge: Option<string>)

  datatype NormalizedPrice = NormalizedPrice(
    nowTxt: string, wasTxt: string, nowNum: Option<nat>, wasNum: Option<nat>, onSaleMarkup: bool)

  /** The truthiness of the `onSaleMarkup` expression. */
  predicate OnSaleMarkup(saleBadge: Option<string>, nowTxt: string, wasTxt: string, nowNum: Option<nat>, wasNum: Option<nat>) {
    BadgeSaysSale(saleBadge)
    || (wasTxt != "" && nowTxt != "" && Truthy(wasNum) && Truthy(nowNum) && nowNum.value < wasNum.value)
  }

  function NormalizePriceResult(input: PriceInput): (r: NormalizedPrice)
    ensures IsClean(r.nowTxt) && IsClean(r.wasTxt)
    ensures r.nowNum.None? <==> input.now.None? || !HasDigit(input.now.value)
    ensures r.wasNum.None? <==> input.was.None? || !HasDigit(input.was.value)
    ensures BadgeSaysSale(input.saleBadge) ==> r.onSaleMarkup
    ensures !BadgeSaysSale(input.saleBadge) ==>
              (r.onSaleMarkup <==> r.nowNum.Some? && r.wasNum.Some? && 0 < r.nowNum.value < r.wasNum.value)
  {
    var nowTxt := Norm(input.now);
    var wasTxt := Norm(input.was);
    var nowNum := PriceToNumber(nowTxt);
    var wasNum := PriceToNumber(wasTxt);
    NormIsClean(input.now);
    NormIsClean(input.was);
    NumAbsent(input.now);
    NumAbsent(input.was);
    NormalizedPrice(nowTxt, wasTxt, nowNum, wasNum, OnSaleMarkup(input.saleBadge, nowTxt, wasTxt, nowNum, wasNum))
  }

  /** A fragment yields no number exactly when it is missing or has no digit. */
  lemma NumAbsent(s: Option<string>)
    ensures PriceToNumber(Norm(s)).None? <==> s.None? || !HasDigit(s.value)
  {
    PriceToNumberAbsent(Norm(s));
    if s.Some? {
      NormKeepsDigits(s.value);
    }
  }
}
