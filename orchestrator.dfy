/** `handler` of check-sales.js: the run over the catalog, one result per
    product in catalog order, with per-item error capture and drop detection
    against the optional key-value store (`kvGet`/`kvSet`). The network and
    the store's REST calls are inputs: each product comes with an Attempt that
    says what fetching and parsing its page gave, and whether the store calls
    for it fail. */
module Orchestrator {
  import opened Wrappers
  import opened Normalizer
  import opened Catalog

  // ---------------------------------------------------------------------
  // Exceptions and the history store
  // ---------------------------------------------------------------------

  /** A thrown JavaScript value: its `message` and what `String(e)` gives. */
  datatype Thrown = Thrown(message: string, shown: string)

  /** The error's message, or its string form when the message is empty. */
  function ErrorText(e: Thrown): string {
    if e.message != "" then e.message else e.shown
  }

  /** The result of a call that may throw. */
  datatype Outcome<T> = Returned(value: T) | Threw(error: Thrown)

  /** The store: whether its URL and token are set, and its entries (a price
      in hundredths; the decimal-string encoding of the REST protocol is left out). */
  datatype Store = Store(configured: bool, entries: map<string, nat>)

  function Lookup(st: Store, k: string): Option<nat> {
    if k in st.entries then Some(st.entries[k]) else None
  }

  /** `price:<key>`. */
  function StoreKey(key: string): string {
    "price:" + key
  }

  /** `kvGet`: no store means no value; otherwise the REST call may throw. */
  function KvGet(st: Store, fault: Option<Thrown>, k: string): Outcome<Option<nat>> {
    if !st.configured then Returned(None)
    else if fault.Some? then Threw(fault.value)
    else Returned(Lookup(st, k))
  }

  /** `kvSet`: no store means no write; a call that throws writes nothing. */
  function KvSet(st: Store, fault: Option<Thrown>, k: string, v: nat): Outcome<Store> {
    if !st.configured then Returned(st)
    else if fault.Some? then Threw(fault.value)
    else Returned(st.(entries := st.entries[k := v]))
  }

  /** What fetching and parsing one product's page did: `cheerio.load` of the
      HTML gave a page, or `fetchHtml`/`parse` threw. */
  datatype Fetch = Loaded(page: Page) | Failed(error: Thrown)

  /** Everything the outside world decides for one product in one run. */
  datatype Attempt = Attempt(fetch: Fetch, getFault: Option<Thrown>, setFault: Option<Thrown>)

  datatype RunResult =
    | Success(key: string, name: string, url: string, now: string, was: string,
              onSaleMarkup: bool, dropDetected: bool)
    | Failure(key: string, name: string, url: string, error: string)

  // ---------------------------------------------------------------------
  // The specification of one iteration and of the whole run
  // ---------------------------------------------------------------------

  function SuccessEntry(p: Rule, parsed: NormalizedPrice, drop: bool): RunResult {
    Success(p.key, p.name, p.url,
            if parsed.nowTxt == "" then "(price not found)" else parsed.nowTxt,
            parsed.wasTxt, parsed.onSaleMarkup, drop)
  }

  function FailureEntry(p: Rule, e: Thrown): RunResult {
    Failure(p.key, p.name, p.url, ErrorText(e))
  }

  /** Recording a price read for a product: `kvGet` of the earlier price,
      the drop comparison, then `kvSet` of the new one. Gives whether a drop
      was found, or the error thrown, and the store after it. */
  function Record(key: string, price: nat, getFault: Option<Thrown>, setFault: Option<Thrown>, st: Store)
    : (Outcome<bool>, Store)
  {
    match KvGet(st, getFault, StoreKey(key))
    case Threw(e) => (Threw(e), st)
    case Returned(prev) =>
      var drop := prev.Some? && price < prev.value;
      match KvSet(st, setFault, StoreKey(key), price)
      case Threw(e) => (Threw(e), st)
      case Returned(st') => (Returned(drop), st')
  }

  /** The rest of the iteration once the page has been parsed. */
  function Settle(p: Rule, parsed: NormalizedPrice, a: Attempt, st: Store): (RunResult, Store) {
    if parsed.nowNum.None? then (SuccessEntry(p, parsed, false), st)
    else
      var (out, st') := Record(p.key, parsed.nowNum.value, a.getFault, a.setFault, st);
      match out
      case Threw(e) => (FailureEntry(p, e), st')
      case Returned(drop) => (SuccessEntry(p, parsed, drop), st')
  }

  /** One iteration of the loop's body: the entry it pushes and the store after it. */
  function Step(p: Rule, a: Attempt, st: Store): (RunResult, Store) {
    match a.fetch
    case Failed(e) => (FailureEntry(p, e), st)
    case Loaded(page) => Settle(p, Parse(p, page), a, st)
  }

  /** The results and the final store of a run over the catalog. */
  function Run(catalog: seq<Rule>, attempts: seq<Attempt>, st0: Store): (r: (seq<RunResult>, Store))
    requires |attempts| == |catalog|
    ensures |r.0| == |catalog|
    decreases |catalog|
  {
    if catalog == [] then ([], st0)
    else
      var n := |catalog| - 1;
      var before := Run(catalog[..n], attempts[..n], st0);
      var last := Step(catalog[n], attempts[n], before.1);
      (before.0 + [last.0], last.1)
  }

  /** The store as it is when the run reaches product i. */
  function StoreBefore(catalog: seq<Rule>, attempts: seq<Attempt>, st0: Store, i: nat): Store
    requires |attempts| == |catalog| && i <= |catalog|
  {
    Run(catalog[..i], attempts[..i], st0).1
  }

  // ---------------------------------------------------------------------
  // The handler
  // ---------------------------------------------------------------------

  /** `handler`: processes the products one after another and collects their
      entries; returns the entries and the store as the run leaves it. */
  method Handler(catalog: seq<Rule>, attempts: seq<Attempt>, store0: Store)
    returns (results: seq<RunResult>, store: Store)
    requires |attempts| == |catalog|
    ensures (results, store) == Run(catalog, attempts, store0)
  {
    results := [];
    store := store0;
    for i := 0 to |catalog|
      invariant (results, store) == Run(catalog[..i], attempts[..i], store0)
    {
      RunExtend(catalog, attempts, store0, i);
      var entry;
      entry, store := Visit(catalog[i], attempts[i], store);
      results := results + [entry];
    }
    assert catalog[..|catalog|] == catalog;
    assert attempts[..|attempts|] == attempts;
  }

  /** The body of the loop in `handler`, its `try` block and its `catch`:
      the entry pushed for one product and the store after it. */
  method Visit(p: Rule, a: Attempt, store0: Store) returns (entry: RunResult, store: Store)
    ensures (entry, store) == Step(p, a, store0)
  {
    match a.fetch {
      case Failed(e) =>
        entry, store := FailureEntry(p, e), store0;
      case Loaded(page) =>
        var parsed := ParsePage(p, page);
        entry, store := Remember(p, parsed, a, store0);
    }
  }

  /** The part of the `try` block after parsing: drop detection against the
      stored price, the write of the new one, and the entry to push. */
  method Remember(p: Rule, parsed: NormalizedPrice, a: Attempt, store0: Store)
    returns (entry: RunResult, store: Store)
    ensures (entry, store) == Settle(p, parsed, a, store0)
  {
    store := store0;
    entry := SuccessEntry(p, parsed, false);
    if parsed.nowNum.Some? {
      var now := parsed.nowNum.value;
      var got := KvGet(store, a.getFault, StoreKey(p.key));
      if got.Threw? {
        entry := FailureEntry(p, got.error);
      } else {
        var prevNum := got.value;
        var dropDetected := prevNum.Some? && now < prevNum.value;
        var written := KvSet(store, a.setFault, StoreKey(p.key), now);
        if written.Threw? {
          entry := FailureEntry(p, written.error);
        } else {
          store := written.value;
          entry := SuccessEntry(p, parsed, dropDetected);
        }
      }
    }
  }

  /** The run over one more product is the run so far followed by that product's iteration. */
  lemma RunExtend(catalog: seq<Rule>, attempts: seq<Attempt>, st0: Store, i: nat)
    requires |attempts| == |catalog| && i < |catalog|
    ensures Run(catalog[..i + 1], attempts[..i + 1], st0).0
              == Run(catalog[..i], attempts[..i], st0).0
                 + [Step(catalog[i], attempts[i], StoreBefore(catalog, attempts, st0, i)).0]
    ensures StoreBefore(catalog, attempts, st0, i + 1)
              == Step(catalog[i], attempts[i], StoreBefore(catalog, attempts, st0, i)).1
  {
    assert catalog[..i + 1][..i] == catalog[..i];
    assert attempts[..i + 1][..i] == attempts[..i];
    assert catalog[..i + 1][i] == catalog[i] && attempts[..i + 1][i] == attempts[i];
  }

  // ---------------------------------------------------------------------
  // One iteration
  // ---------------------------------------------------------------------

  /** Once the page is parsed, the iteration throws exactly when a price was
      read and the configured store's get or set throws. */
  predicate SettleThrows(parsed: NormalizedPrice, a: Attempt, st: Store) {
    parsed.nowNum.Some? && st.configured && (a.getFault.Some? || a.setFault.Some?)
  }

  /** The iteration throws when the fetch or parse throws, or when settling the parsed page throws. */
  predicate Throws(p: Rule, a: Attempt, st: Store) {
    a.fetch.Failed? || SettleThrows(Parse(p, a.fetch.page), a, st)
  }

  /** The value the iteration stores for its product, if any. */
  function Written(parsed: NormalizedPrice, a: Attempt, st: Store): Option<nat> {
    if parsed.nowNum.Some? && !SettleThrows(parsed, a, st) && st.configured then parsed.nowNum else None
  }

  lemma SettleEntry(p: Rule, parsed: NormalizedPrice, a: Attempt, st: Store)
    ensures var e := Settle(p, parsed, a, st).0;
      e.key == p.key && e.name == p.name && e.url == p.url
      && (e.Failure? <==> SettleThrows(parsed, a, st))
      && (e.Failure? ==> e.error == ErrorText(if a.getFault.Some? then a.getFault.value else a.setFault.value))
      && (e.Success? ==>
            e.now == (if parsed.nowTxt == "" then "(price not found)" else parsed.nowTxt)
            && e.was == parsed.wasTxt && e.onSaleMarkup == parsed.onSaleMarkup
            && (e.dropDetected <==>
                  st.configured && parsed.nowNum.Some? && Lookup(st, StoreKey(p.key)).Some?
                  && parsed.nowNum.value < Lookup(st, StoreKey(p.key)).value))
  {
  }

  lemma SettleStore(p: Rule, parsed: NormalizedPrice, a: Attempt, st: Store)
    ensures var st' := Settle(p, parsed, a, st).1;
      st'.configured == st.configured
      && (forall k :: k != StoreKey(p.key) ==> Lookup(st', k) == Lookup(st, k))
      && Lookup(st', StoreKey(p.key))
           == if Written(parsed, a, st).Some? then Written(parsed, a, st) else Lookup(st, StoreKey(p.key))
  {
  }

  lemma SettleLocal(p: Rule, parsed: NormalizedPrice, a: Attempt, st1: Store, st2: Store)
    requires st1.configured == st2.configured
    requires Lookup(st1, StoreKey(p.key)) == Lookup(st2, StoreKey(p.key))
    ensures Settle(p, parsed, a, st1).0 == Settle(p, parsed, a, st2).0
    ensures Lookup(Settle(p, parsed, a, st1).1, StoreKey(p.key)) == Lookup(Settle(p, parsed, a, st2).1, StoreKey(p.key))
  {
  }

  /** Every entry names its product; it is an error entry exactly when the
      iteration throws, and then it carries the message of the first error. */
  lemma StepEntry(p: Rule, a: Attempt, st: Store)
    ensures var e := Step(p, a, st).0;
      e.key == p.key && e.name == p.name && e.url == p.url
      && (e.Failure? <==> Throws(p, a, st))
      && (a.fetch.Failed? ==> e.error == ErrorText(a.fetch.error))
      && (e.Failure? && a.fetch.Loaded? ==>
            e.error == ErrorText(if a.getFault.Some? then a.getFault.value else a.setFault.value))
  {
    if a.fetch.Loaded? {
      SettleEntry(p, Parse(p, a.fetch.page), a, st);
    }
  }

  /** A success entry shows the cleaned texts, with a placeholder for a
      missing "now" text, and the on-sale flag of the normalizer; it reports a
      drop exactly when a price was read, the store holds an earlier price for
      the product, and the new price is below it. */
  lemma StepSuccess(p: Rule, a: Attempt, st: Store)
    requires Step(p, a, st).0.Success?
    ensures var e, parsed := Step(p, a, st).0, Parse(p, a.fetch.page);
      var prior := Lookup(st, StoreKey(p.key));
      e.now == (if parsed.nowTxt == "" then "(price not found)" else parsed.nowTxt)
      && e.was == parsed.wasTxt
      && e.onSaleMarkup == parsed.onSaleMarkup
      && (e.dropDetected <==>
            st.configured && parsed.nowNum.Some? && prior.Some? && parsed.nowNum.value < prior.value)
  {
    SettleEntry(p, Parse(p, a.fetch.page), a, st);
  }

  /** The iteration writes the new price under `price:<key>` exactly when it
      succeeds with a price and the store is configured; nothing else changes. */
  lemma StepStore(p: Rule, a: Attempt, st: Store)
    ensures var (e, st') := Step(p, a, st);
      var nowNum := if a.fetch.Loaded? then Parse(p, a.fetch.page).nowNum else None;
      st'.configured == st.configured
      && (forall k :: k != StoreKey(p.key) ==> Lookup(st', k) == Lookup(st, k))
      && Lookup(st', StoreKey(p.key))
           == if e.Success? && nowNum.Some? && st.configured then nowNum else Lookup(st, StoreKey(p.key))
  {
    if a.fetch.Loaded? {
      SettleEntry(p, Parse(p, a.fetch.page), a, st);
      SettleStore(p, Parse(p, a.fetch.page), a, st);
    }
  }

  /** An iteration sees the store only through its configuration and its own key. */
  lemma StepLocal(p: Rule, a: Attempt, st1: Store, st2: Store)
    requires st1.configured == st2.configured
    requires Lookup(st1, StoreKey(p.key)) == Lookup(st2, StoreKey(p.key))
    ensures Step(p, a, st1).0 == Step(p, a, st2).0
    ensures Lookup(Step(p, a, st1).1, StoreKey(p.key)) == Lookup(Step(p, a, st2).1, StoreKey(p.key))
  {
    if a.fetch.Loaded? {
      SettleLocal(p, Parse(p, a.fetch.page), a, st1, st2);
    }
  }

  /** After an iteration, seeing the same page again reports no drop. */
  lemma StepRepeatNoDrop(p: Rule, a: Attempt, st0: Store, st: Store)
    requires st.configured == st0.configured
    requires Lookup(st, StoreKey(p.key)) == Lookup(Step(p, a, st0).1, StoreKey(p.key))
    ensures !(Step(p, a, st).0.Success? && Step(p, a, st).0.dropDetected)
  {
    StepStore(p, a, st0);
    if Step(p, a, st).0.Success? {
      StepSuccess(p, a, st);
      StepEntry(p, a, st0);
      StepEntry(p, a, st);
    }
  }

  // ---------------------------------------------------------------------
  // The whole run
  // ---------------------------------------------------------------------

  /** Product i's entry is the iteration for product i, run on the store the
      earlier products left. */
  lemma RunAt(catalog: seq<Rule>, attempts: seq<Attempt>, st0: Store, i: nat)
    requires |attempts| == |catalog| && i < |catalog|
    ensures Run(catalog, attempts, st0).0[i]
              == Step(catalog[i], attempts[i], StoreBefore(catalog, attempts, st0, i)).0
  {
    PrefixAt(catalog, attempts, st0, i, |catalog|);
    assert catalog[..|catalog|] == catalog && attempts[..|attempts|] == attempts;
  }

  /** The same, for the run over the first n products. */
  lemma {:induction false} PrefixAt(catalog: seq<Rule>, attempts: seq<Attempt>, st0: Store, i: nat, n: nat)
    requires |attempts| == |catalog| && i < n <= |catalog|
    ensures Run(catalog[..n], attempts[..n], st0).0[i]
              == Step(catalog[i], attempts[i], StoreBefore(catalog, attempts, st0, i)).0
    decreases n
  {
    RunExtend(catalog, attempts, st0, n - 1);
    if i < n - 1 {
      PrefixAt(catalog, attempts, st0, i, n - 1);
    }
  }

  /** The run keeps the store's configuration, and a key no product uses keeps its value. */
  lemma {:induction false} RunFrame(catalog: seq<Rule>, attempts: seq<Attempt>, st0: Store, k: string)
    requires |attempts| == |catalog|
    requires forall j :: 0 <= j < |catalog| ==> StoreKey(catalog[j].key) != k
    ensures Run(catalog, attempts, st0).1.configured == st0.configured
    ensures Lookup(Run(catalog, attempts, st0).1, k) == Lookup(st0, k)
    decreases |catalog|
  {
    if catalog != [] {
      var n := |catalog| - 1;
      RunFrame(catalog[..n], attempts[..n], st0, k);
      StepStore(catalog[n], attempts[n], Run(catalog[..n], attempts[..n], st0).1);
    }
  }

  lemma StoreKeyInjective(a: string, b: string)
    requires StoreKey(a) == StoreKey(b)
    ensures a == b
  {
    assert a == StoreKey(a)[6..] && b == StoreKey(b)[6..];
  }

  /** With unique keys, the store a product meets is the initial store, as far as that product can see. */
  lemma StoreBeforeIsInitial(catalog: seq<Rule>, attempts: seq<Attempt>, st0: Store, i: nat)
    requires |attempts| == |catalog| && i < |catalog| && DistinctKeys(catalog)
    ensures StoreBefore(catalog, attempts, st0, i).configured == st0.configured
    ensures Lookup(StoreBefore(catalog, attempts, st0, i), StoreKey(catalog[i].key))
              == Lookup(st0, StoreKey(catalog[i].key))
  {
    forall j | 0 <= j < i ensures StoreKey(catalog[..i][j].key) != StoreKey(catalog[i].key) {
      if StoreKey(catalog[j].key) == StoreKey(catalog[i].key) {
        StoreKeyInjective(catalog[j].key, catalog[i].key);
      }
    }
    RunFrame(catalog[..i], attempts[..i], st0, StoreKey(catalog[i].key));
  }

  /** Isolation: with unique keys, every product's entry is what it would be
      if it were processed alone against the initial store, so a failing
      product leaves every other entry as it was. */
  lemma RunIsolation(catalog: seq<Rule>, attempts: seq<Attempt>, st0: Store, i: nat)
    requires |attempts| == |catalog| && i < |catalog| && DistinctKeys(catalog)
    ensures Run(catalog, attempts, st0).0[i] == Step(catalog[i], attempts[i], st0).0
  {
    RunAt(catalog, attempts, st0, i);
    StoreBeforeIsInitial(catalog, attempts, st0, i);
    StepLocal(catalog[i], attempts[i], StoreBefore(catalog, attempts, st0, i), st0);
  }

  /** Changing what happens to other products does not change product i's entry. */
  lemma OthersUnaffected(catalog: seq<Rule>, attempts: seq<Attempt>, attempts': seq<Attempt>, st0: Store, i: nat)
    requires |attempts| == |catalog| && |attempts'| == |catalog| && i < |catalog| && DistinctKeys(catalog)
    requires attempts[i] == attempts'[i]
    ensures Run(catalog, attempts, st0).0[i] == Run(catalog, attempts', st0).0[i]
  {
    RunIsolation(catalog, attempts, st0, i);
    RunIsolation(catalog, attempts', st0, i);
  }

  /** The results: one per product, in catalog order, naming that product; an
      error entry exactly for the products whose iteration throws. */
  lemma RunResults(catalog: seq<Rule>, attempts: seq<Attempt>, st0: Store)
    requires |attempts| == |catalog| && DistinctKeys(catalog)
    ensures var results := Run(catalog, attempts, st0).0;
      |results| == |catalog|
      && forall i :: 0 <= i < |catalog| ==>
           results[i].key == catalog[i].key && results[i].name == catalog[i].name
           && results[i].url == catalog[i].url
           && (results[i].Failure? <==> Throws(catalog[i], attempts[i], st0))
  {
    forall i | 0 <= i < |catalog|
      ensures var e := Run(catalog, attempts, st0).0[i];
        e.key == catalog[i].key && e.name == catalog[i].name && e.url == catalog[i].url
        && (e.Failure? <==> Throws(catalog[i], attempts[i], st0))
    {
      RunIsolation(catalog, attempts, st0, i);
      StepEntry(catalog[i], attempts[i], st0);
    }
  }

  /** Once product i has been processed, its key holds what its own iteration wrote. */
  lemma {:induction false} RunKeyAfter(catalog: seq<Rule>, attempts: seq<Attempt>, st0: Store, i: nat, n: nat)
    requires |attempts| == |catalog| && i < n <= |catalog| && DistinctKeys(catalog)
    ensures Lookup(StoreBefore(catalog, attempts, st0, n), StoreKey(catalog[i].key))
              == Lookup(Step(catalog[i], attempts[i], st0).1, StoreKey(catalog[i].key))
    decreases n
  {
    var k := StoreKey(catalog[i].key);
    var m := n - 1;
    RunExtend(catalog, attempts, st0, m);
    if m == i {
      StoreBeforeIsInitial(catalog, attempts, st0, i);
      StepLocal(catalog[i], attempts[i], StoreBefore(catalog, attempts, st0, i), st0);
    } else {
      RunKeyAfter(catalog, attempts, st0, i, m);
      if StoreKey(catalog[m].key) == k {
        StoreKeyInjective(catalog[m].key, catalog[i].key);
      }
      StepStore(catalog[m], attempts[m], StoreBefore(catalog, attempts, st0, m));
    }
  }

  /** The store after the run: each product's key holds what its own iteration
      wrote (with unique keys), every other key is as before. */
  lemma RunStore(catalog: seq<Rule>, attempts: seq<Attempt>, st0: Store)
    requires |attempts| == |catalog| && DistinctKeys(catalog)
    ensures var st := Run(catalog, attempts, st0).1;
      st.configured == st0.configured
      && (forall i :: 0 <= i < |catalog| ==>
            Lookup(st, StoreKey(catalog[i].key)) == Lookup(Step(catalog[i], attempts[i], st0).1, StoreKey(catalog[i].key)))
      && (forall k :: (forall j :: 0 <= j < |catalog| ==> StoreKey(catalog[j].key) != k) ==>
            Lookup(st, k) == Lookup(st0, k))
  {
    assert catalog[..|catalog|] == catalog && attempts[..|attempts|] == attempts;
    forall i | 0 <= i < |catalog|
      ensures Lookup(Run(catalog, attempts, st0).1, StoreKey(catalog[i].key))
                == Lookup(Step(catalog[i], attempts[i], st0).1, StoreKey(catalog[i].key))
    {
      RunKeyAfter(catalog, attempts, st0, i, |catalog|);
    }
    forall k | forall j :: 0 <= j < |catalog| ==> StoreKey(catalog[j].key) != k
      ensures Lookup(Run(catalog, attempts, st0).1, k) == Lookup(st0, k)
    {
      RunFrame(catalog, attempts, st0, k);
    }
    RunFrame(catalog, attempts, st0, "");
  }

  /** Without a configured store, the run never writes to it. */
  lemma {:induction false} RunUnconfiguredStore(catalog: seq<Rule>, attempts: seq<Attempt>, st0: Store)
    requires |attempts| == |catalog| && !st0.configured
    ensures Run(catalog, attempts, st0).1 == st0
    decreases |catalog|
  {
    if catalog != [] {
      var n := |catalog| - 1;
      RunUnconfiguredStore(catalog[..n], attempts[..n], st0);
    }
  }

  /** Without a configured store, no drop is ever reported and the store is never written. */
  lemma RunUnconfigured(catalog: seq<Rule>, attempts: seq<Attempt>, st0: Store)
    requires |attempts| == |catalog| && !st0.configured
    ensures Run(catalog, attempts, st0).1 == st0
    ensures forall i :: 0 <= i < |catalog| && Run(catalog, attempts, st0).0[i].Success? ==>
              !Run(catalog, attempts, st0).0[i].dropDetected
  {
    RunUnconfiguredStore(catalog, attempts, st0);
    forall i | 0 <= i < |catalog| && Run(catalog, attempts, st0).0[i].Success?
      ensures !Run(catalog, attempts, st0).0[i].dropDetected
    {
      RunAt(catalog, attempts, st0, i);
      RunUnconfiguredStore(catalog[..i], attempts[..i], st0);
      StepSuccess(catalog[i], attempts[i], st0);
    }
  }

  /** Running again over the same pages, on the store the first run left,
      reports no drop for any product. */
  lemma SecondRunNoDrop(catalog: seq<Rule>, attempts: seq<Attempt>, st0: Store)
    requires |attempts| == |catalog| && DistinctKeys(catalog)
    ensures var st1 := Run(catalog, attempts, st0).1;
      var results := Run(catalog, attempts, st1).0;
      forall i :: 0 <= i < |catalog| && results[i].Success? ==> !results[i].dropDetected
  {
    var st1 := Run(catalog, attempts, st0).1;
    RunStore(catalog, attempts, st0);
    forall i | 0 <= i < |catalog|
      ensures !(Run(catalog, attempts, st1).0[i].Success? && Run(catalog, attempts, st1).0[i].dropDetected)
    {
      RunIsolation(catalog, attempts, st1, i);
      StepRepeatNoDrop(catalog[i], attempts[i], st0, st1);
    }
  }
}
