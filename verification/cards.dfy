/**
 * One extraction pass over the page (index.js:60-94): the `$$eval('article', ...)` callback
 * folds over the card elements in document order, keeping a per-pass set of hrefs already
 * seen, and emits one `{name, popularity, url}` record per qualifying card.
 *
 * The DOM is an input: each `article` is reduced to the results of the three selector
 * queries the callback makes on it.
 */
module Cards {
  import opened Wrappers
  import opened Strings

  /** The `section.mt-auto` footer of a card, with the `textContent` of its `button`, if any. */
  datatype Footer = Footer(button: Option<string>)

  /**
   * One `article` element: the `href` of its `a[href^="/discovery/"]` link, the
   * `textContent` of its `h2[title]` heading and its footer, each absent when the
   * query finds nothing.
   */
  datatype Article = Article(link: Option<string>, heading: Option<string>, footer: Option<Footer>)

  /** An emitted record. */
  datatype Record = Record(name: string, popularity: string, url: string)

  /** The substring an href must contain for its card to be collected. */
  const Marker: string := "back-url=home"

  /** The popularity reported when the card shows none. */
  const DefaultPopularity: string := "0"

  /** The card has a non-empty link whose href contains the marker. */
  predicate HasMarkedLink(a: Article) {
    a.link.Some? && a.link.value != "" && Contains(a.link.value, Marker)
  }

  /** The footer-button text, trimmed; `"0"` when there is no footer, no button or no visible text. */
  function Popularity(footer: Option<Footer>): string {
    match footer
    case None => DefaultPopularity
    case Some(section) =>
      match section.button
      case None => DefaultPopularity
      case Some(text) =>
        var t := Trim(text);
        if t == [] then DefaultPopularity else t
  }

  /**
   * The popularity is never empty and carries no surrounding whitespace; it is `"0"` exactly
   * when the card shows no footer, no button, or a button whose text is all whitespace, and
   * otherwise it is the button text with its whitespace ends stripped.
   */
  lemma PopularityShown(footer: Option<Footer>)
    ensures var r := Popularity(footer);
            && r != [] && IsTrimmed(r)
            && (footer.None? || footer.value.button.None? ==> r == DefaultPopularity)
            && (footer.Some? && footer.value.button.Some? && AllWhitespace(footer.value.button.value)
                ==> r == DefaultPopularity)
            && (footer.Some? && footer.value.button.Some? && !AllWhitespace(footer.value.button.value)
                ==> Strips(footer.value.button.value, r) && IsTrimmed(r))
  {
    if footer.Some? && footer.value.button.Some? {
      TrimEmptyIffAllWhitespace(footer.value.button.value);
    }
  }

  /** Absolute URL: an href already starting with `http` is kept, any other is appended to the origin. */
  function FullUrl(href: string, origin: string): (r: string)
    ensures |r| >= |href| && r[|r| - |href|..] == href
    ensures StartsWith(href, "http") ==> r == href
    ensures !StartsWith(href, "http") ==> StartsWith(r, origin) && |r| == |origin| + |href|
  {
    if StartsWith(href, "http") then href else origin + href
  }

  /** The record built from a card that has a marked link and a heading. */
  function MakeRecord(a: Article, origin: string): Record
    requires HasMarkedLink(a) && a.heading.Some?
  {
    Record(Trim(a.heading.value), Popularity(a.footer), FullUrl(a.link.value, origin))
  }

  /**
   * One iteration of the `forEach`: the record emitted, if any, and the new seen set.
   * The href is added to the seen set before the heading is looked at.
   */
  function Visit(a: Article, origin: string, seen: set<string>): (v: (Option<Record>, set<string>))
    ensures v.1 == if HasMarkedLink(a) then seen + {a.link.value} else seen
    ensures v.0.Some? <==> HasMarkedLink(a) && a.link.value !in seen && a.heading.Some?
    ensures v.0.Some? ==> v.0.value == MakeRecord(a, origin)
  {
    if a.link.None? then (None, seen)
    else if a.link.value == "" || !Contains(a.link.value, Marker) then (None, seen)
    else if a.link.value in seen then (None, seen)
    else
      var seen' := seen + {a.link.value};
      if a.heading.None? then (None, seen')
      else (Some(MakeRecord(a, origin)), seen')
  }

  /** The records a `Visit` contributes. */
  function Emitted(emitted: Option<Record>): (out: seq<Record>)
    ensures |out| <= 1
  {
    if emitted.Some? then [emitted.value] else []
  }

  /** The fold of `Visit` over `articles`, starting from the seen set `seen`. */
  function ExtractFrom(articles: seq<Article>, origin: string, seen: set<string>): (out: seq<Record>)
    ensures |out| <= |articles|
    decreases |articles|
  {
    if articles == [] then []
    else
      var v := Visit(articles[0], origin, seen);
      Emitted(v.0) + ExtractFrom(articles[1..], origin, v.1)
  }

  /** The seen set the fold holds after `articles`. */
  function SeenAfter(articles: seq<Article>, origin: string, seen: set<string>): set<string>
    decreases |articles|
  {
    if articles == [] then seen
    else SeenAfter(articles[1..], origin, Visit(articles[0], origin, seen).1)
  }

  /** One extraction pass: the fold from an empty seen set. */
  function Extract(articles: seq<Article>, origin: string): seq<Record> {
    ExtractFrom(articles, origin, {})
  }

  /** The hrefs of all marked links among `articles`. */
  ghost function MarkedHrefs(articles: seq<Article>): set<string> {
    set i | 0 <= i < |articles| && HasMarkedLink(articles[i]) :: articles[i].link.value
  }

  /**
   * Card `i` yields a record: it has a marked link and a heading, and no earlier card
   * has a marked link with the same href (whether or not that earlier card had a heading).
   */
  ghost predicate Emits(articles: seq<Article>, i: int)
    requires 0 <= i < |articles|
  {
    && HasMarkedLink(articles[i])
    && articles[i].heading.Some?
    && forall j :: 0 <= j < i && HasMarkedLink(articles[j]) ==> articles[j].link.value != articles[i].link.value
  }

  /** The indices `i < n` at which `Emits` holds, in increasing order. */
  ghost function Sources(articles: seq<Article>, n: nat): (src: seq<nat>)
    requires n <= |articles|
    ensures forall k :: 0 <= k < |src| ==> src[k] < n && Emits(articles, src[k])
    ensures forall k, l :: 0 <= k < l < |src| ==> src[k] < src[l]
    ensures forall i :: 0 <= i < n ==> (i in src <==> Emits(articles, i))
  {
    if n == 0 then []
    else Sources(articles, n - 1) + (if Emits(articles, n - 1) then [n - 1] else [])
  }

  lemma MarkedHrefsAppend(a: seq<Article>, b: seq<Article>)
    ensures MarkedHrefs(a + b) == MarkedHrefs(a) + MarkedHrefs(b)
  {
    forall x ensures x in MarkedHrefs(a + b) <==> x in MarkedHrefs(a) + MarkedHrefs(b) {
      if x in MarkedHrefs(a + b) {
        var i :| 0 <= i < |a + b| && HasMarkedLink((a + b)[i]) && (a + b)[i].link.value == x;
        if i < |a| {
          assert (a + b)[i] == a[i];
        } else {
          assert (a + b)[i] == b[i - |a|];
        }
      }
      if x in MarkedHrefs(a) {
        var i :| 0 <= i < |a| && HasMarkedLink(a[i]) && a[i].link.value == x;
        assert (a + b)[i] == a[i];
      }
      if x in MarkedHrefs(b) {
        var i :| 0 <= i < |b| && HasMarkedLink(b[i]) && b[i].link.value == x;
        assert (a + b)[i + |a|] == b[i];
      }
    }
  }

  lemma MarkedHrefsSingle(a: Article)
    ensures MarkedHrefs([a]) == if HasMarkedLink(a) then {a.link.value} else {}
  {
    if HasMarkedLink(a) {
      assert [a][0] == a;
    }
  }

  /** Folding over a concatenation: the second part starts from the seen set the first part left. */
  lemma {:induction false} ExtractSplit(a: seq<Article>, b: seq<Article>, origin: string, seen: set<string>)
    ensures ExtractFrom(a + b, origin, seen)
            == ExtractFrom(a, origin, seen) + ExtractFrom(b, origin, SeenAfter(a, origin, seen))
    decreases |a|
  {
    if a == [] {
      assert a + b == b;
    } else {
      var v := Visit(a[0], origin, seen);
      assert (a + b)[0] == a[0];
      assert (a + b)[1..] == a[1..] + b;
      ExtractSplit(a[1..], b, origin, v.1);
    }
  }

  /** The fold's seen set is the starting set plus every marked href of the cards folded over. */
  lemma {:induction false} SeenAfterIsMarkedHrefs(articles: seq<Article>, origin: string, seen: set<string>)
    ensures SeenAfter(articles, origin, seen) == seen + MarkedHrefs(articles)
    decreases |articles|
  {
    if articles == [] {
      assert MarkedHrefs(articles) == {};
    } else {
      var v := Visit(articles[0], origin, seen);
      SeenAfterIsMarkedHrefs(articles[1..], origin, v.1);
      assert articles == [articles[0]] + articles[1..];
      MarkedHrefsAppend([articles[0]], articles[1..]);
      MarkedHrefsSingle(articles[0]);
    }
  }

  /** A pass whose marked hrefs have all been seen emits nothing. */
  lemma {:induction false} ExtractFromSeen(articles: seq<Article>, origin: string, seen: set<string>)
    requires MarkedHrefs(articles) <= seen
    ensures ExtractFrom(articles, origin, seen) == []
    decreases |articles|
  {
    if articles != [] {
      assert articles == [articles[0]] + articles[1..];
      MarkedHrefsAppend([articles[0]], articles[1..]);
      MarkedHrefsSingle(articles[0]);
      ExtractFromSeen(articles[1..], origin, Visit(articles[0], origin, seen).1);
    }
  }

  lemma InMarkedHrefsPrefix(articles: seq<Article>, n: nat, h: string)
    requires n <= |articles|
    ensures h in MarkedHrefs(articles[..n])
            <==> exists j :: 0 <= j < n && HasMarkedLink(articles[j]) && articles[j].link.value == h
  {
    if h in MarkedHrefs(articles[..n]) {
      var j :| 0 <= j < n && HasMarkedLink(articles[..n][j]) && articles[..n][j].link.value == h;
      assert articles[..n][j] == articles[j];
    }
    if exists j :: 0 <= j < n && HasMarkedLink(articles[j]) && articles[j].link.value == h {
      var j :| 0 <= j < n && HasMarkedLink(articles[j]) && articles[j].link.value == h;
      assert articles[..n][j] == articles[j];
    }
  }

  /** The fold over a single card. */
  lemma ExtractOne(a: Article, origin: string, seen: set<string>)
    ensures ExtractFrom([a], origin, seen)
            == if HasMarkedLink(a) && a.link.value !in seen && a.heading.Some? then [MakeRecord(a, origin)] else []
  {
    assert [a][0] == a && [a][1..] == [];
  }

  /** `Emits` at the last card of a prefix is the fold's emit decision with the prefix's hrefs seen. */
  lemma EmitsLast(articles: seq<Article>, n: nat)
    requires 0 < n <= |articles|
    ensures Emits(articles, n - 1)
            <==> (var a := articles[n - 1];
                  HasMarkedLink(a) && a.link.value !in MarkedHrefs(articles[..n - 1]) && a.heading.Some?)
  {
    var a := articles[n - 1];
    if a.link.Some? {
      InMarkedHrefsPrefix(articles, n - 1, a.link.value);
    }
  }

  /** Extending the page by one card extends the pass by that card's record, if it emits one. */
  lemma ExtractSnoc(articles: seq<Article>, origin: string, n: nat)
    requires 0 < n <= |articles|
    ensures Extract(articles[..n], origin)
            == Extract(articles[..n - 1], origin)
               + (if Emits(articles, n - 1) then [MakeRecord(articles[n - 1], origin)] else [])
  {
    var a := articles[n - 1];
    var seen := SeenAfter(articles[..n - 1], origin, {});
    assert articles[..n] == articles[..n - 1] + [a];
    ExtractSplit(articles[..n - 1], [a], origin, {});
    SeenAfterIsMarkedHrefs(articles[..n - 1], origin, {});
    assert seen == MarkedHrefs(articles[..n - 1]);
    ExtractOne(a, origin, seen);
    EmitsLast(articles, n);
  }

  /** `out` holds, position by position, the records built from the cards at the indices `src`. */
  ghost predicate BuiltFrom(out: seq<Record>, articles: seq<Article>, src: seq<nat>, origin: string) {
    && |out| == |src|
    && forall k :: 0 <= k < |src| ==>
         && src[k] < |articles| && HasMarkedLink(articles[src[k]]) && articles[src[k]].heading.Some?
         && out[k] == MakeRecord(articles[src[k]], origin)
  }

  lemma BuiltFromAppend(out: seq<Record>, articles: seq<Article>, src: seq<nat>, origin: string, i: nat, emits: bool)
    requires BuiltFrom(out, articles, src, origin)
    requires emits ==> i < |articles| && HasMarkedLink(articles[i]) && articles[i].heading.Some?
    ensures BuiltFrom(out + (if emits then [MakeRecord(articles[i], origin)] else []),
                      articles, src + (if emits then [i] else []), origin)
  {
  }

  /** The pass over the first `n` cards emits, in order, the records of the cards `Sources` lists. */
  lemma {:induction false} ExtractPrefix(articles: seq<Article>, origin: string, n: nat)
    requires n <= |articles|
    ensures BuiltFrom(Extract(articles[..n], origin), articles, Sources(articles, n), origin)
  {
    if n > 0 {
      ExtractPrefix(articles, origin, n - 1);
      ExtractSnoc(articles, origin, n);
      BuiltFromAppend(Extract(articles[..n - 1], origin), articles, Sources(articles, n - 1), origin,
                      n - 1, Emits(articles, n - 1));
    }
  }

  /**
   * What one pass emits: exactly one record per card at which `Emits` holds, built from
   * that card, in document order.
   */
  lemma ExtractCharacterised(articles: seq<Article>, origin: string)
    ensures var out := Extract(articles, origin);
            var src := Sources(articles, |articles|);
            && |out| == |src|
            && (forall k, l :: 0 <= k < l < |src| ==> src[k] < src[l])
            && (forall i :: 0 <= i < |articles| ==> (i in src <==> Emits(articles, i)))
            && (forall k :: 0 <= k < |out| ==> src[k] < |articles| && Emits(articles, src[k])
                                               && out[k] == MakeRecord(articles[src[k]], origin))
  {
    ExtractPrefix(articles, origin, |articles|);
    assert articles[..|articles|] == articles;
  }

  /**
   * Every emitted record comes from a card whose link contains the marker and which has a
   * heading; its popularity is never empty.
   */
  lemma ExtractSound(articles: seq<Article>, origin: string)
    ensures forall r :: r in Extract(articles, origin) ==>
              && r.popularity != []
              && exists i :: 0 <= i < |articles| && HasMarkedLink(articles[i])
                             && articles[i].heading.Some? && r == MakeRecord(articles[i], origin)
  {
    ExtractCharacterised(articles, origin);
    var out := Extract(articles, origin);
    var src := Sources(articles, |articles|);
    forall r | r in out
      ensures r.popularity != []
      ensures exists i :: 0 <= i < |articles| && HasMarkedLink(articles[i])
                          && articles[i].heading.Some? && r == MakeRecord(articles[i], origin)
    {
      var k :| 0 <= k < |out| && out[k] == r;
      var i := src[k];
      assert Emits(articles, i) && r == MakeRecord(articles[i], origin);
      PopularityShown(articles[i].footer);
    }
  }

  /** The cards `Sources` lists carry pairwise different hrefs. */
  lemma SourcesDistinctHrefs(articles: seq<Article>)
    ensures var src := Sources(articles, |articles|);
            forall k, l :: 0 <= k < l < |src| ==> articles[src[k]].link.value != articles[src[l]].link.value
  {
    var src := Sources(articles, |articles|);
    forall k, l | 0 <= k < l < |src|
      ensures articles[src[k]].link.value != articles[src[l]].link.value
    {
      assert src[k] < src[l] && Emits(articles, src[l]) && HasMarkedLink(articles[src[k]]);
    }
  }

  /**
   * Records `k` and `l` of `out` were built from two cards `i < j`, both with a marked link
   * and a heading, whose hrefs differ.
   */
  ghost predicate FromDistinctCards(out: seq<Record>, articles: seq<Article>, origin: string, k: nat, l: nat)
    requires k < |out| && l < |out|
  {
    exists i, j :: && 0 <= i < j < |articles|
                   && HasMarkedLink(articles[i]) && articles[i].heading.Some?
                   && HasMarkedLink(articles[j]) && articles[j].heading.Some?
                   && out[k] == MakeRecord(articles[i], origin)
                   && out[l] == MakeRecord(articles[j], origin)
                   && articles[i].link.value != articles[j].link.value
  }

  /** No two records of one pass come from the same href, and their cards are in document order. */
  lemma ExtractDistinctHrefs(articles: seq<Article>, origin: string)
    ensures var out := Extract(articles, origin);
            forall k, l :: 0 <= k < l < |out| ==> FromDistinctCards(out, articles, origin, k, l)
  {
    ExtractCharacterised(articles, origin);
    SourcesDistinctHrefs(articles);
    var out := Extract(articles, origin);
    var src := Sources(articles, |articles|);
    forall k, l | 0 <= k < l < |out|
      ensures FromDistinctCards(out, articles, origin, k, l)
    {
      var i, j := src[k], src[l];
      assert i < j && Emits(articles, i) && Emits(articles, j);
      assert out[k] == MakeRecord(articles[i], origin) && out[l] == MakeRecord(articles[j], origin);
    }
  }

  /** Every link the page's `a[href^="/discovery/"]` selector can return starts with that path. */
  predicate DiscoveryLinks(articles: seq<Article>) {
    forall i :: 0 <= i < |articles| && articles[i].link.Some? ==> StartsWith(articles[i].link.value, "/discovery/")
  }

  lemma DiscoveryLinkIsRelative(href: string, origin: string)
    requires StartsWith(href, "/discovery/")
    ensures FullUrl(href, origin) == origin + href
  {
    assert href[0] == "/discovery/"[0] == '/';
    assert "http"[0] == 'h';
  }

  /** With discovery links (relative, so all resolved against the origin) the URLs of one pass are distinct. */
  lemma ExtractDistinctUrls(articles: seq<Article>, origin: string)
    requires DiscoveryLinks(articles)
    ensures var out := Extract(articles, origin);
            forall k, l :: 0 <= k < l < |out| ==> out[k].url != out[l].url
  {
    ExtractCharacterised(articles, origin);
    SourcesDistinctHrefs(articles);
    var out := Extract(articles, origin);
    var src := Sources(articles, |articles|);
    forall k, l | 0 <= k < l < |out|
      ensures out[k].url != out[l].url
    {
      var hk, hl := articles[src[k]].link.value, articles[src[l]].link.value;
      DiscoveryLinkIsRelative(hk, origin);
      DiscoveryLinkIsRelative(hl, origin);
      assert out[k].url == origin + hk && out[l].url == origin + hl;
      assert (origin + hk)[|origin|..] == hk && (origin + hl)[|origin|..] == hl;
    }
  }

  /**
   * The ordering quirk: when the first card carrying a marked href has no heading, that href
   * yields no record in the pass at all, even when a later card with the same href has one.
   */
  lemma NamelessFirstCardSuppressesHref(articles: seq<Article>, origin: string, i: nat)
    requires i < |articles| && HasMarkedLink(articles[i]) && articles[i].heading.None?
    requires forall j :: 0 <= j < i && HasMarkedLink(articles[j]) ==> articles[j].link.value != articles[i].link.value
    ensures forall r :: r in Extract(articles, origin) ==>
              exists j :: && 0 <= j < |articles| && j != i
                          && HasMarkedLink(articles[j]) && articles[j].heading.Some?
                          && articles[j].link.value != articles[i].link.value
                          && r == MakeRecord(articles[j], origin)
  {
    ExtractCharacterised(articles, origin);
    var out := Extract(articles, origin);
    var src := Sources(articles, |articles|);
    forall r | r in out
      ensures exists j :: && 0 <= j < |articles| && j != i
                          && HasMarkedLink(articles[j]) && articles[j].heading.Some?
                          && articles[j].link.value != articles[i].link.value
                          && r == MakeRecord(articles[j], origin)
    {
      var k :| 0 <= k < |out| && out[k] == r;
      var j := src[k];
      assert Emits(articles, j) && r == MakeRecord(articles[j], origin);
      if j > i {
        assert HasMarkedLink(articles[i]);
      }
    }
  }

  /** With discovery links, the nameless first card's URL appears on no record of the pass. */
  lemma NamelessFirstCardUrlAbsent(articles: seq<Article>, origin: string, i: nat)
    requires DiscoveryLinks(articles)
    requires i < |articles| && HasMarkedLink(articles[i]) && articles[i].heading.None?
    requires forall j :: 0 <= j < i && HasMarkedLink(articles[j]) ==> articles[j].link.value != articles[i].link.value
    ensures forall r :: r in Extract(articles, origin) ==> r.url != origin + articles[i].link.value
  {
    NamelessFirstCardSuppressesHref(articles, origin, i);
    var h := articles[i].link.value;
    forall r | r in Extract(articles, origin)
      ensures r.url != origin + h
    {
      var j :| && 0 <= j < |articles| && j != i
               && HasMarkedLink(articles[j]) && articles[j].heading.Some?
               && articles[j].link.value != h
               && r == MakeRecord(articles[j], origin);
      var hj := articles[j].link.value;
      DiscoveryLinkIsRelative(hj, origin);
      assert r.url == origin + hj;
      assert (origin + hj)[|origin|..] == hj && (origin + h)[|origin|..] == h;
    }
  }

  /** A card whose marked href an earlier card already carried can be removed without changing the pass. */
  lemma DuplicateCardIgnored(articles: seq<Article>, origin: string, j: nat)
    requires j < |articles| && HasMarkedLink(articles[j])
    requires exists i :: 0 <= i < j && HasMarkedLink(articles[i]) && articles[i].link.value == articles[j].link.value
    ensures Extract(articles, origin) == Extract(articles[..j] + articles[j + 1..], origin)
  {
    var a, card, rest := articles[..j], [articles[j]], articles[j + 1..];
    assert articles == a + (card + rest);
    var seen := SeenAfter(a, origin, {});
    SeenAfterIsMarkedHrefs(a, origin, {});
    InMarkedHrefsPrefix(articles, j, articles[j].link.value);
    assert articles[j].link.value in seen;
    MarkedHrefsSingle(articles[j]);
    SeenAfterIsMarkedHrefs(card, origin, seen);
    assert SeenAfter(card, origin, seen) == seen;
    ExtractFromSeen(card, origin, seen);
    ExtractSplit(card, rest, origin, seen);
    assert ExtractFrom(card + rest, origin, seen) == ExtractFrom(rest, origin, seen);
    ExtractSplit(a, card + rest, origin, {});
    ExtractSplit(a, rest, origin, {});
  }

  /**
   * Nothing accumulates: appending cards whose marked hrefs the pass has already seen (for
   * example the same cards a second time) leaves the result unchanged.
   */
  lemma RepeatedCardsAddNothing(a: seq<Article>, b: seq<Article>, origin: string)
    requires MarkedHrefs(b) <= MarkedHrefs(a)
    ensures Extract(a + b, origin) == Extract(a, origin)
  {
    ExtractSplit(a, b, origin, {});
    SeenAfterIsMarkedHrefs(a, origin, {});
    ExtractFromSeen(b, origin, SeenAfter(a, origin, {}));
  }

  /** Extracting a page whose cards appear twice gives the same records as extracting it once. */
  lemma ExtractIdempotentOnRepeat(articles: seq<Article>, origin: string)
    ensures Extract(articles + articles, origin) == Extract(articles, origin)
  {
    RepeatedCardsAddNothing(articles, articles, origin);
  }

  lemma AppendAssoc<T>(a: seq<T>, b: seq<T>, c: seq<T>)
    ensures (a + b) + c == a + (b + c)
  {
  }

  lemma ExtractFromStep(articles: seq<Article>, origin: string, seen: set<string>, i: nat)
    requires i < |articles|
    ensures var v := Visit(articles[i], origin, seen);
            ExtractFrom(articles[i..], origin, seen) == Emitted(v.0) + ExtractFrom(articles[i + 1..], origin, v.1)
  {
    assert articles[i..][0] == articles[i] && articles[i..][1..] == articles[i + 1..];
  }

  /** A card link of the shape the page uses. */
  const SampleHref: string := "/discovery/abc?back-url=home"

  lemma SampleHrefIsMarked()
    ensures Contains(SampleHref, Marker) && StartsWith(SampleHref, "/discovery/")
  {
    assert OccursAt(SampleHref, Marker, 15);
    ContainsIffOccurs(SampleHref, Marker);
  }

  /** A card without a marked link, or without a heading, yields nothing, whatever its footer shows. */
  lemma IncompleteCardSkipped(card: Article, origin: string)
    requires !HasMarkedLink(card) || card.heading.None?
    ensures Extract([card], origin) == []
  {
    ExtractOne(card, origin, {});
  }

  /** A named card with a discovery link but no popularity button is emitted with popularity `"0"`. */
  lemma MissingButtonGivesZero(card: Article, origin: string)
    requires HasMarkedLink(card) && StartsWith(card.link.value, "/discovery/") && card.heading.Some?
    requires card.footer.None? || card.footer.value.button.None?
    ensures Extract([card], origin) == [Record(Trim(card.heading.value), "0", origin + card.link.value)]
  {
    ExtractOne(card, origin, {});
    DiscoveryLinkIsRelative(card.link.value, origin);
  }

  /**
   * A heading whose text is blank still yields a record, with an empty name: only the absence
   * of the heading element excludes a card.
   */
  lemma BlankHeadingStillEmitted(card: Article, origin: string)
    requires HasMarkedLink(card) && card.heading.Some? && AllWhitespace(card.heading.value)
    ensures |Extract([card], origin)| == 1 && Extract([card], origin)[0].name == []
  {
    ExtractOne(card, origin, {});
    TrimEmptyIffAllWhitespace(card.heading.value);
  }

  /** A nameless card hides a later named card with the same href. */
  lemma NamelessCardHidesDuplicate(first: Article, second: Article, origin: string)
    requires HasMarkedLink(first) && first.heading.None?
    requires second.link == first.link
    ensures Extract([first, second], origin) == []
  {
    assert [first, second] == [first] + [second];
    ExtractSplit([first], [second], origin, {});
    ExtractOne(first, origin, {});
    SeenAfterIsMarkedHrefs([first], origin, {});
    MarkedHrefsSingle(first);
    ExtractOne(second, origin, {first.link.value});
  }

  /** Lines 82-87 of the callback: the default, overwritten by the trimmed button text when there is some. */
  method ReadPopularity(footer: Option<Footer>) returns (popularity: string)
    ensures popularity == Popularity(footer)
    ensures popularity != []
  {
    popularity := DefaultPopularity;
    if footer.Some? {
      var btn := footer.value.button;
      if btn.Some? {
        var text := Trim(btn.value);
        popularity := if text == [] then DefaultPopularity else text;
      }
    }
  }

  /**
   * The `forEach` loop of the callback itself, with its mutable `results` array and `seen` set.
   */
  method ExtractPass(articles: seq<Article>, origin: string) returns (results: seq<Record>)
    ensures results == Extract(articles, origin)
  {
    results := [];
    var seen: set<string> := {};
    var i := 0;
    assert articles[i..] == articles;
    while i < |articles|
      invariant 0 <= i <= |articles|
      invariant results + ExtractFrom(articles[i..], origin, seen) == Extract(articles, origin)
    {
      var article := articles[i];
      ghost var v := Visit(article, origin, seen);
      ghost var before, seen0 := results, seen;
      if article.link.Some? {
        var href := article.link.value;
        if href != "" && Contains(href, Marker) && href !in seen {
          seen := seen + {href};
          if article.heading.Some? {
            var name := Trim(article.heading.value);
            var popularity := ReadPopularity(article.footer);
            var fullUrl := FullUrl(href, origin);
            results := results + [Record(name, popularity, fullUrl)];
          }
        }
      }
      assert results == before + Emitted(v.0) && seen == v.1;
      ExtractFromStep(articles, origin, seen0, i);
      ghost var rest := ExtractFrom(articles[i + 1..], origin, seen);
      assert ExtractFrom(articles[i..], origin, seen0) == Emitted(v.0) + rest;
      AppendAssoc(before, Emitted(v.0), rest);
      i := i + 1;
    }
    assert articles[i..] == [];
  }
}
