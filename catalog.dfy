/** The extraction rules of check-sales.js (the `PRODUCTS` array). Each rule's
    `parse` runs CSS selectors over the fetched page; here the selector
    results arrive as a Page value, so a rule is its identity plus whether it
    falls back to scanning the body text (the Amazon rule does). */
module Catalog {
  import opened Wrappers
  import opened JsText
  import opened Normalizer
  import opened Fallback

  /** What a rule's selectors read from one fetched page: the "now", "was" and
      sale-badge texts, and the text of the whole body. */
  datatype Page = Page(nowText: string, wasText: string, badgeText: string, bodyText: string)

  datatype Rule = Rule(key: string, name: string, url: string, bodyFallback: bool)

  /** The Amazon rule's "now" text: the selector's text, or the body-text
      fallback when the selector found nothing. */
  function AmazonNow(selected: string, body: string): (now: string)
    ensures now == "" <==> selected == "" && NoPriceTextFrom(body, 0, |body| + 1)
    ensures selected != "" ==> now == selected
    ensures now != selected ==> IsPriceText(now)
  {
    TextPriceFallbackSpec(body);
    if selected == "" then TextPriceFallback(body) else selected
  }

  /** `p.parse($)`: read the fragments and normalize them. */
  function Parse(rule: Rule, page: Page): NormalizedPrice {
    var now := if rule.bodyFallback then AmazonNow(page.nowText, page.bodyText) else page.nowText;
    NormalizePriceResult(PriceInput(Some(now), Some(page.wasText), Some(page.badgeText)))
  }

  /** A rule's `parse` as the handler runs it: the selector's "now" text,
      which the Amazon rule replaces by the body-text fallback when it is
      empty, then normalized with the "was" text and the badge. */
  method ParsePage(rule: Rule, page: Page) returns (r: NormalizedPrice)
    ensures r == Parse(rule, page)
  {
    var now := page.nowText;
    if rule.bodyFallback && now == "" {
      now := TextPriceFallback(page.bodyText);
    }
    r := NormalizePriceResult(PriceInput(Some(now), Some(page.wasText), Some(page.badgeText)));
  }

  /** The body-text fallback changes nothing when the selector found a price text. */
  lemma FallbackOnlyWhenEmpty(rule: Rule, page: Page)
    requires page.nowText != ""
    ensures Parse(rule, page) == Parse(rule.(bodyFallback := false), page)
  {
  }

  /** When the selector finds nothing but the body shows a currency amount,
      the Amazon rule still yields a number. */
  lemma FallbackFindsPrice(rule: Rule, page: Page)
    requires rule.bodyFallback && page.nowText == ""
    requires !NoPriceTextFrom(page.bodyText, 0, |page.bodyText| + 1)
    ensures Parse(rule, page).nowNum.Some?
  {
    var now := AmazonNow(page.nowText, page.bodyText);
    PriceTextHasDigit(now);
  }

  /** The tracked products, in catalog order. */
  const Products: seq<Rule> := [
    Rule("peteralexander_winnie_pj",
         "Winnie The Pooh Shortie PJ Set — Peter Alexander",
         "https://www.peteralexander.co.nz/shop/en/peteralexandernz/womens/womens-style/womens-pyjama-sets/winnie-the-pooh-shortie-pj-set-multi",
         false),
    Rule("pandora_rapunzel_ring",
         "Pandora Rapunzel Tiara Ring",
         "https://nz.pandora.net/en/rings/statement-rings/disney-princess-rapunzel-tiara-ring/163651C01.html",
         false),
    Rule("jellycat_leola_bear",
         "Jellycat — Leola Bear",
         "https://eu.jellycat.com/leola-bear/",
         false),
    Rule("lilly_pulitzer_sugartown_amazon",
         "Lilly Pulitzer Sugartown (Amazon AU)",
         "https://www.amazon.com.au/Lilly-Pulitzer-Toiletry-Supplies-Toiletries/dp/B0F56DHBGL?th=1",
         true),
    Rule("kayali_vanilla_28_sephora_nz",
         "KAYALI Vanilla 28 — Sephora NZ (10ml)",
         "https://www.sephora.nz/products/kayali-vanilla-28-eau-de-parfum/v/10-ml-6291106039870",
         false),
    Rule("cheirosa_59_mecca_nz",
         "Sol de Janeiro — Cheirosa 59 Mist — MECCA NZ",
         "https://www.mecca.com/en-nz/sol-de-janeiro/cheirosa-59-perfume-mist-V-064668/",
         false),
    Rule("sundays_in_rio_mecca_nz",
         "Sol de Janeiro — Sundays in Rio Mist — MECCA NZ",
         "https://www.mecca.com/en-nz/sol-de-janeiro/sundays-in-rio-perfume-mist-I-077578/",
         false),
    Rule("country_road_purse",
         "Country Road — Branded Credit Card Purse (Cocoa)",
         "https://www.countryroad.co.nz/branded-credit-card-purse-60285204-238",
         false),
    Rule("lululemon_ebb_to_street_bc",
         "Lululemon — Ebb to Street Tank (B/C Cup)",
         "https://www.lululemon.co.nz/en-nz/p/ebb-to-street-tank-top-light-support%2C-b%2Fc-cup/prod2380186.html?dwvar_prod2380186_color=033454",
         false),
    Rule("cottonon_sporty_off_shoulder_26",
         "Cotton On — Sporty Off Shoulder Tee (26 Blue/Cream)",
         "https://cottonon.com/NZ/the-sporty-off-shoulder-graphic-tee/2060736-01.html?dwvar_2060736-01_color=2060736-01&cgid=graphics-unisex&originalPid=2060736-01#start=16&sz=60",
         false)
  ]

  predicate DistinctKeys(rules: seq<Rule>) {
    forall i, j :: 0 <= i < j < |rules| ==> rules[i].key != rules[j].key
  }

  /** The catalog's keys are unique, so each product owns its history entry. */
  lemma ProductKeysDistinct()
    ensures |Products| == 10 && DistinctKeys(Products)
  {
    var tags := [('p', 'e', 't'), ('p', 'a', 'n'), ('j', 'e', 'l'), ('l', 'i', 'l'), ('k', 'a', 'y'),
                 ('c', 'h', 'e'), ('s', 'u', 'n'), ('c', 'o', 'u'), ('l', 'u', 'l'), ('c', 'o', 't')];
    forall i | 0 <= i < |Products| ensures |Products[i].key| >= 3 && Tag(Products[i].key) == tags[i] {
    }
    DistinctByTag(Products, tags);
  }

  function Tag(key: string): (char, char, char)
    requires |key| >= 3
  {
    (key[0], key[1], key[2])
  }

  /** Keys whose first three letters differ are different. */
  lemma DistinctByTag(rules: seq<Rule>, tags: seq<(char, char, char)>)
    requires |tags| == |rules|
    requires forall i :: 0 <= i < |rules| ==> |rules[i].key| >= 3 && Tag(rules[i].key) == tags[i]
    requires forall i, j :: 0 <= i < j < |tags| ==> tags[i] != tags[j]
    ensures DistinctKeys(rules)
  {
  }

  /** Only the Amazon listing reads the page body when its selector finds nothing. */
  lemma OnlyAmazonFallsBack()
    ensures forall i :: 0 <= i < |Products| ==> (Products[i].bodyFallback <==> i == 3)
  {
  }
}
