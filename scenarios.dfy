/** Concrete cases of the behaviour check-sales.js is written for: prices read
    from typical fragments, the on-sale flag, drop detection across two runs,
    and a run in which one product fails. */
module Scenarios {
  import opened Wrappers
  import opened JsText
  import opened Normalizer
  import opened Catalog
  import opened Orchestrator

  // ---------------------------------------------------------------------
  // priceToNumber
  // ---------------------------------------------------------------------

  lemma Digits10()
    ensures NatDigits(10) == "10" && NatDigits(20) == "20" && NatDigits(25) == "25" && NatDigits(19) == "19"
  {
    assert NatDigits(1) == "1" && NatDigits(2) == "2";
  }

  /** A third decimal is ignored: "19.999" reads as 19.99. */
  lemma ThirdDecimalIgnored()
    ensures PriceToNumber("19.999") == Some(1999)
  {
    Digits10();
    assert TwoDecimals(1999) == "19.99";
    assert "" + TwoDecimals(1999) + "9" == "19.999";
    assert !HasDigit("");
    PriceRoundTrip("", 1999, "9");
  }

  /** One decimal is tenths: "19.9" reads as 19.90. */
  lemma OneDecimalIsTenths()
    ensures PriceToNumber("19.9") == Some(1990)
  {
    Digits10();
    assert JsDecimal(1990) == "19.9";
    JsDecimalRoundTrip(1990);
  }

  /** Text without digits gives no number. */
  lemma NoDigitsNoNumber()
    ensures PriceToNumber("Contact us") == None
  {
    var s := "Contact us";
    assert !HasDigit(s) by {
      forall k | 0 <= k < |s| ensures !IsDigit(s[k]) {
        assert s[k] in s;
      }
    }
    PriceToNumberAbsent(s);
  }

  lemma StripExample()
    ensures StripSeparators("$1,299.99") == StripSeparators("$1299.99")
  {
    StripAppend("$1", ",299.99");
    StripAppend("$1", "299.99");
    assert StripSeparators(",299.99") == StripSeparators("299.99");
    assert "$1,299.99" == "$1" + ",299.99";
    assert "$1299.99" == "$1" + "299.99";
  }

  lemma Digits1299()
    ensures "$" + TwoDecimals(129999) == "$1299.99"
  {
    assert NatDigits(1299) == "1299" by {
      assert NatDigits(12) == "12" by { assert NatDigits(1) == "1"; }
      assert NatDigits(129) == "129";
    }
  }

  /** Thousands separators and the currency symbol are skipped. */
  lemma SeparatorsSkipped()
    ensures PriceToNumber("$1,299.99") == Some(129999)
  {
    StripExample();
    Digits1299();
    assert !HasDigit("$");
    PriceRoundTrip("$", 129999, "");
    assert "$" + TwoDecimals(129999) + "" == "$1299.99";
  }

  /** "$" followed by v in hundredths written with two decimals. */
  lemma DollarPrice(v: nat)
    ensures PriceToNumber("$" + TwoDecimals(v)) == Some(v)
    ensures Norm(Some("$" + TwoDecimals(v))) == "$" + TwoDecimals(v)
  {
    assert !HasDigit("$");
    PriceRoundTrip("$", v, "");
    assert "$" + TwoDecimals(v) + "" == "$" + TwoDecimals(v);
    var x := "$" + TwoDecimals(v);
    assert IsWord(x) by {
      forall k | 0 <= k < |x| ensures !IsSpace(x[k]) {
        if k > 0 {
          DigitNotSpace(NatDigits(v / 100)[0]);
          assert x[k] in TwoDecimals(v);
          assert forall c :: c in TwoDecimals(v) ==> IsDigit(c) || c == '.';
        }
      }
    }
    NormOfWord(x);
  }

  // ---------------------------------------------------------------------
  // normalizePriceResult
  // ---------------------------------------------------------------------

  lemma Amounts()
    ensures "$" + TwoDecimals(1000) == "$10.00" && "$" + TwoDecimals(2000) == "$20.00"
    ensures "$" + TwoDecimals(0) == "$0.00" && "$" + TwoDecimals(500) == "$5.00"
    ensures "$" + TwoDecimals(2500) == "$25.00"
  {
    Digits10();
  }

  /** Two dollar fragments without a badge: both are read, and the product is
      on sale exactly when the first is a non-zero amount below the second. */
  lemma DollarFragments(now: nat, was: nat)
    ensures var r := NormalizePriceResult(PriceInput(Some("$" + TwoDecimals(now)), Some("$" + TwoDecimals(was)), Some("")));
      r.nowTxt == "$" + TwoDecimals(now) && r.nowNum == Some(now) && r.wasNum == Some(was)
      && (r.onSaleMarkup <==> 0 < now < was)
  {
    DollarPrice(now);
    DollarPrice(was);
    assert !BadgeSaysSale(Some(""));
  }

  /** A "now" price below the "was" price marks the product as on sale. */
  lemma MarkdownIsSale()
    ensures NormalizePriceResult(PriceInput(Some("$10.00"), Some("$20.00"), Some(""))).onSaleMarkup
  {
    Amounts();
    DollarFragments(1000, 2000);
  }

  /** A "now" price above the "was" price does not. */
  lemma MarkupIsNotSale()
    ensures !NormalizePriceResult(PriceInput(Some("$20.00"), Some("$10.00"), Some(""))).onSaleMarkup
  {
    Amounts();
    DollarFragments(2000, 1000);
  }

  /** A zero "now" price never compares, however low it is. */
  lemma ZeroNeverCompares()
    ensures !NormalizePriceResult(PriceInput(Some("$0.00"), Some("$5.00"), Some(""))).onSaleMarkup
  {
    Amounts();
    DollarFragments(0, 500);
  }

  /** A badge mentioning "sale" in any letter case marks the product as on sale. */
  lemma SaleBadge()
    ensures NormalizePriceResult(PriceInput(Some("$20.00"), None, Some("SALE"))).onSaleMarkup
  {
    assert ToLower("SALE") == "sale";
    assert "sale" <= ToLower("SALE")[0..];
  }

  // ---------------------------------------------------------------------
  // handler
  // ---------------------------------------------------------------------

  const Bear := Rule("bear", "Bear", "https://shop.example/bear", false)

  function PageAt(now: string): Page {
    Page(now, "", "", "")
  }

  function Calm(page: Page): Attempt {
    Attempt(Loaded(page), None, None)
  }

  /** One iteration over a page showing a dollar amount, against a configured
      store: it succeeds, reports a drop exactly when the stored price is
      higher, and stores the amount. */
  lemma DollarStep(v: nat, st: Store)
    requires st.configured
    ensures var (e, st') := Step(Bear, Calm(PageAt("$" + TwoDecimals(v))), st);
      var prior := Lookup(st, StoreKey("bear"));
      e.Success? && e.now == "$" + TwoDecimals(v)
      && (e.dropDetected <==> prior.Some? && v < prior.value)
      && Lookup(st', StoreKey("bear")) == Some(v)
  {
    var a := Calm(PageAt("$" + TwoDecimals(v)));
    DollarPrice(v);
    assert Parse(Bear, a.fetch.page).nowNum == Some(v);
    StepEntry(Bear, a, st);
    StepSuccess(Bear, a, st);
    StepStore(Bear, a, st);
  }

  /** A price below the stored one is reported as a drop and stored; the same
      page on the next run reports nothing. */
  lemma DropThenSteady()
    ensures var st0 := Store(true, map[StoreKey("bear") := 2500]);
      var (e1, st1) := Step(Bear, Calm(PageAt("$20.00")), st0);
      var (e2, _) := Step(Bear, Calm(PageAt("$20.00")), st1);
      e1.Success? && e1.dropDetected && e1.now == "$20.00"
      && Lookup(st1, StoreKey("bear")) == Some(2000)
      && e2.Success? && !e2.dropDetected
  {
    Amounts();
    var st0 := Store(true, map[StoreKey("bear") := 2500]);
    assert Lookup(st0, StoreKey("bear")) == Some(2500);
    DollarStep(2000, st0);
    DollarStep(2000, Step(Bear, Calm(PageAt("$20.00")), st0).1);
  }

  /** The first run has nothing to compare with. */
  lemma FirstRunNoDrop()
    ensures var (e, st) := Step(Bear, Calm(PageAt("$25.00")), Store(true, map[]));
      e.Success? && !e.dropDetected && Lookup(st, StoreKey("bear")) == Some(2500)
  {
    Amounts();
    DollarStep(2500, Store(true, map[]));
  }

  /** A page without a price is a success with the placeholder text and writes nothing. */
  lemma PriceNotFound()
    ensures var st0 := Store(true, map[]);
      var (e, st) := Step(Bear, Calm(PageAt("")), st0);
      e.Success? && e.now == "(price not found)" && !e.dropDetected && st == st0
  {
  }

  const Ring := Rule("ring", "Ring", "https://shop.example/ring", false)

  /** One failing product: its entry carries the message, and the entry of
      the product after it is a success all the same. */
  lemma OneFailure()
    ensures var attempts := [Attempt(Failed(Thrown("", "Error: timeout")), None, None), Calm(PageAt("$10.00"))];
      var results := Run([Ring, Bear], attempts, Store(false, map[])).0;
      |results| == 2
      && results[0] == Failure("ring", "Ring", "https://shop.example/ring", "Error: timeout")
      && results[1].Success? && results[1].key == "bear" && results[1].now == "$10.00"
  {
    var catalog := [Ring, Bear];
    var attempts := [Attempt(Failed(Thrown("", "Error: timeout")), None, None), Calm(PageAt("$10.00"))];
    var st0 := Store(false, map[]);
    assert DistinctKeys(catalog);
    RunIsolation(catalog, attempts, st0, 0);
    RunIsolation(catalog, attempts, st0, 1);
    Amounts();
    DollarPrice(1000);
    StepEntry(Bear, attempts[1], st0);
    StepSuccess(Bear, attempts[1], st0);
  }
}
