# Character-card scraper: extraction and collection loop

A Dafny model of the scraping core of `index.js`. The script scrolls a character-discovery
page and, after every scroll, runs one extraction pass over all `article` cards currently
in the page. Each pass keeps a per-pass set of hrefs already seen. It emits one
`{name, popularity, url}` record for every card that meets all of these conditions:

- it has a `/discovery/` link whose href contains `back-url=home`;
- no earlier card of the same pass carried that href;
- it has an `h2[title]` heading.

The loop stops in one of three ways:

- when a pass holds the target number of records;
- when the record count has stayed the same, and positive, for five further passes;
- when the scroll counter passes 200.

It then keeps the first `targetCount` records of the last pass.

The project has four modules:

- `Wrappers`: `Option`.
- `Strings`: the JavaScript string operations the callback uses (`trim`, `startsWith`, `includes`).
- `Cards`: one extraction pass. It holds the fold (`Visit`, `ExtractFrom`, `Extract`), a
  declarative per-card reference (`Emits`, `Sources`) and the lemmas that connect the two.
  `ExtractPass` is the `forEach` loop itself.
- `Collector`: the termination state machine (`Next`, `RunFrom`, `Run`). It comes with a
  declarative "first pass that stops" characterisation (`StopsAt`, `ReasonAt`) and the final
  truncation (`Truncate`, `Collect`). `CollectLoop` is the `while (true)` loop with its
  mutable counters, and `Script` fixes the target from the command-line argument.

The page is an input. Each card is reduced to the results of the selector queries the
callback makes on it. The browser is a sequence of page snapshots, one per pass. When the
snapshots run out before the loop stops, the outcome is pending (`None`).

A heading whose text is all whitespace still yields a record, with an empty name: only a
missing `h2[title]` element excludes a card (index.js:77-80). `Cards.BlankHeadingStillEmitted`
states it.

## Model

| member | source | states |
|---|---|---|
| Strings.ContainsIffOccurs | index.js:70 | `includes` holds exactly when the marker occurs at some index of the href |
| Strings.Trim | index.js:80 | the trimmed text has no whitespace at either end and is the input with only a whitespace prefix and a whitespace suffix removed |
| Strings.TrimEmptyIffAllWhitespace | index.js:86 | trimming gives the empty string exactly when the text is all whitespace, the case in which `\|\| '0'` applies |
| Strings.TrimIdempotent | index.js:80 | trimming a trimmed text changes nothing |
| Cards.Visit | index.js:64-91 | one card adds its href to the seen set exactly when its link is marked; it emits exactly when the link is marked, the href is new and a heading exists; the record is built from that card |
| Cards.PopularityShown | index.js:82-87 | popularity is never empty and has no whitespace ends; it is "0" with no footer, no button or a blank button text, and otherwise the button text stripped of whitespace |
| Cards.ReadPopularity | index.js:82-87 | the mutable-variable form agrees with `Popularity` and never returns an empty string |
| Cards.FullUrl | index.js:89 | an href starting with `http` is kept; any other is prefixed by the origin; the href always ends the URL |
| Cards.ExtractSplit | index.js:60-94 | the pass over a concatenation is the pass over the first part followed by the pass over the second, started from the seen set the first part left |
| Cards.SeenAfterIsMarkedHrefs | index.js:74-75 | after a run of cards, the seen set is the start set plus every marked href among them, headed or not |
| Cards.ExtractCharacterised | index.js:60-94 | a pass emits exactly one record per card satisfying `Emits`, built from that card, in document order |
| Cards.ExtractSound | index.js:64-91 | every record comes from a card with a marked link and a heading, and its popularity is never empty |
| Cards.ExtractDistinctHrefs | index.js:74-75 | any two records of a pass were built, in document order, from two marked, headed cards whose hrefs differ |
| Cards.ExtractDistinctUrls | index.js:74-75 | for relative discovery links, no two records of a pass share a URL |
| Cards.DiscoveryLinkIsRelative | index.js:89 | a `/discovery/` href is always resolved against the origin |
| Cards.NamelessFirstCardSuppressesHref | index.js:74-78 | when the first card with a marked href lacks a heading, every record of the pass was built from a card with a different href |
| Cards.NamelessFirstCardUrlAbsent | index.js:74-89 | with discovery links, the URL of such a nameless first card appears on no record of the pass |
| Cards.NamelessCardHidesDuplicate | index.js:74-78 | a headed card after a nameless card with the same link yields nothing |
| Cards.DuplicateCardIgnored | index.js:74 | removing a card whose marked href an earlier card carried leaves the pass unchanged |
| Cards.RepeatedCardsAddNothing | index.js:60-64 | appending cards whose marked hrefs were already seen leaves the pass unchanged |
| Cards.ExtractIdempotentOnRepeat | index.js:60-64 | a page listing its cards twice gives the same records as listing them once |
| Cards.ExtractFromSeen | index.js:74 | a pass whose marked hrefs are all in the seen set emits nothing |
| Cards.IncompleteCardSkipped | index.js:65-78 | a card without a marked link or without a heading yields nothing |
| Cards.MissingButtonGivesZero | index.js:82-91 | a headed discovery card without a popularity button yields a record with popularity "0" and the origin-prefixed URL |
| Cards.BlankHeadingStillEmitted | index.js:77-80 | a card whose heading text is all whitespace still yields a record, with an empty name |
| Cards.SampleHrefIsMarked | index.js:65-70 | example: the sample href `/discovery/abc?back-url=home` starts with `/discovery/` and passes the marker test |
| Cards.ExtractPass | index.js:60-94 | the `forEach` loop with mutable `results` and `seen` computes the fold `Extract` |
| Collector.TargetCount | index.js:8 | the target is always positive: the argument when positive, otherwise 40 |
| Collector.ScriptOutput | index.js:8-128 | with the target parsed from the argument, the output holds at most that many records (at most 40 without a usable argument), exactly that many and so at least one on a target stop, and the whole last pass on any other stop; more than 200 snapshots always give an output |
| Collector.Next | index.js:96-119 | one loop step stops for the target exactly when the count reaches it; an end-of-list stop needs a positive count equal to the previous one; a continuing step keeps fewer than 5 repeats and at most 200 scrolls |
| Collector.RunFrom | index.js:59-126 | a stop, if any, happens at one of the passes still to come |
| Collector.RunCharacterised | index.js:96-126 | the loop stops at the first pass that reaches the target, ends six equal positive counts, or is pass 200, for the first of those reasons that holds; it is pending exactly when no such pass exists |
| Collector.RunBounded | index.js:116-119 | at most 201 passes run, and an input with more passes always stops |
| Collector.TargetStopIsFirstReach | index.js:99-102 | a target stop happens at the first pass whose count reaches the target |
| Collector.EndOfListNeedsSixEqualCounts | index.js:104-109 | an end-of-list stop needs six equal positive counts in a row, all below the target |
| Collector.StallStopsLoop | index.js:104-109 | six equal positive counts below the target stop the loop by the sixth of them |
| Collector.StallScenario | index.js:104-109 | counts 5, 12 and then 20 repeated: the loop stops on the sixth 20, and five 20s are not enough |
| Collector.Truncate | index.js:128 | the slice is a prefix of at most `targetCount` records, and the whole list when that is shorter |
| Collector.CollectCharacterised | index.js:96-128 | the output is a prefix of the last pass only; it has exactly `targetCount` records precisely when the target was reached, and otherwise it is the whole last pass; at most 201 passes run |
| Collector.TargetReachedOnFirstPass | index.js:99-102 | a first pass already holding the target stops at once and keeps its first `targetCount` records |
| Collector.CollectPagesSound | index.js:60-128 | every record written out comes from a card of the last snapshot with a marked link and a heading |
| Collector.CheckPass | index.js:99-119 | the mutable-counter checks agree with `Next` on both the stop decision and the updated counters |
| Collector.CollectWhenStopped | index.js:116-128 | once the loop stops after pass `k`, the output is pass `k` cut to the target |
| Collector.CollectLoop | index.js:53-128 | the `while (true)` loop with its counters and `break`s computes `CollectPages` |

## Left out

- Launching the browser, the user agent, navigation, `waitForSelector` and its catch, scrolling
  and the delays (index.js:25-51, 121-125). Only their effect matters here: the page snapshot
  of each pass is an input.
- Selector matching and `textContent`. Each card is given as the results of its three
  queries: the link's href, the heading's text, and the footer with its button's text.
- `window.location.origin` is a parameter.
- The console logs, writing `result.json`, `JSON.stringify`, closing the browser and the
  top-level `catch` (index.js:26, 97, 130-140).
- `Collect`, `CollectPages` and `CollectLoop` take the target as a free parameter (0 included);
  only `Script` derives it through `TargetCount`, as line 8 does.
- Collector.TargetCount: takes a natural number, with 0 standing for every falsy parse
  (missing, zero, not a number). Negative and fractional arguments are not modelled.
- Cards.ExtractDistinctUrls: assumes every link starts with `/discovery/`, which is what
  the page's selector returns. An absolute href could otherwise coincide with a relative
  href prefixed by the origin.
- Strings.Trim: works on `char` code points; no Unicode normalisation is modelled.
