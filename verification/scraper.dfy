/** The per-page work of the current scraper (pkg/webScraper/webScraper.go):
    the tag sets computed from the rules, and the loop of `Scrape` over the
    tokens of a fetched page. The fetch itself is left out: the page body is
    given as its token sequence. */
module Scraper {
  import opened Outcomes
  import opened Html
  import opened Rules
  import opened Emptiness
  import UrlExtract
  import ItemExtract
  import Blacklist
  import GoStrings
  import Attributes

  /** `tag` is the tag of some item rule with a non-zero container
      configuration. */
  ghost predicate ItemTagOf(rules: seq<ItemRule>, tag: string) {
    exists i :: 0 <= i < |rules| && !ExtractFieldsZero(rules[i].itemToGet) && rules[i].itemToGet.tag == tag
  }

  /** `tag` is the tag of some URL rule with a non-zero extraction
      configuration. */
  ghost predicate UrlTagOf(rules: seq<UrlRule>, tag: string) {
    exists i :: 0 <= i < |rules| && !ExtractFieldsZero(rules[i].extract) && rules[i].extract.tag == tag
  }

  function ItemTagSet(rules: seq<ItemRule>): (tags: set<string>)
    ensures forall tag :: tag in tags <==> ItemTagOf(rules, tag)
    decreases |rules|
  {
    if |rules| == 0 then {}
    else
      var rest := ItemTagSet(rules[1..]);
      assert forall tag :: ItemTagOf(rules[1..], tag) ==> ItemTagOf(rules, tag) by {
        forall tag | ItemTagOf(rules[1..], tag) ensures ItemTagOf(rules, tag) {
          var j :| 0 <= j < |rules[1..]| && !ExtractFieldsZero(rules[1..][j].itemToGet) && rules[1..][j].itemToGet.tag == tag;
          assert rules[j + 1] == rules[1..][j];
        }
      }
      assert forall tag :: ItemTagOf(rules, tag) && tag != rules[0].itemToGet.tag ==> ItemTagOf(rules[1..], tag) by {
        forall tag | ItemTagOf(rules, tag) && tag != rules[0].itemToGet.tag ensures ItemTagOf(rules[1..], tag) {
          var j :| 0 <= j < |rules| && !ExtractFieldsZero(rules[j].itemToGet) && rules[j].itemToGet.tag == tag;
          assert rules[1..][j - 1] == rules[j];
        }
      }
      assert ExtractFieldsZero(rules[0].itemToGet) ==> forall tag :: ItemTagOf(rules, tag) ==> ItemTagOf(rules[1..], tag) by {
        if ExtractFieldsZero(rules[0].itemToGet) {
          forall tag | ItemTagOf(rules, tag) ensures ItemTagOf(rules[1..], tag) {
            var j :| 0 <= j < |rules| && !ExtractFieldsZero(rules[j].itemToGet) && rules[j].itemToGet.tag == tag;
            assert rules[1..][j - 1] == rules[j];
          }
        }
      }
      if IsEmpty(ExtractValue(rules[0].itemToGet)) then rest else {rules[0].itemToGet.tag} + rest
  }

  function UrlTagSet(rules: seq<UrlRule>): (tags: set<string>)
    ensures forall tag :: tag in tags <==> UrlTagOf(rules, tag)
    decreases |rules|
  {
    if |rules| == 0 then {}
    else
      var rest := UrlTagSet(rules[1..]);
      assert forall tag :: UrlTagOf(rules[1..], tag) ==> UrlTagOf(rules, tag) by {
        forall tag | UrlTagOf(rules[1..], tag) ensures UrlTagOf(rules, tag) {
          var j :| 0 <= j < |rules[1..]| && !ExtractFieldsZero(rules[1..][j].extract) && rules[1..][j].extract.tag == tag;
          assert rules[j + 1] == rules[1..][j];
        }
      }
      assert forall tag :: UrlTagOf(rules, tag) && tag != rules[0].extract.tag ==> UrlTagOf(rules[1..], tag) by {
        forall tag | UrlTagOf(rules, tag) && tag != rules[0].extract.tag ensures UrlTagOf(rules[1..], tag) {
          var j :| 0 <= j < |rules| && !ExtractFieldsZero(rules[j].extract) && rules[j].extract.tag == tag;
          assert rules[1..][j - 1] == rules[j];
        }
      }
      assert ExtractFieldsZero(rules[0].extract) ==> forall tag :: UrlTagOf(rules, tag) ==> UrlTagOf(rules[1..], tag) by {
        if ExtractFieldsZero(rules[0].extract) {
          forall tag | UrlTagOf(rules, tag) ensures UrlTagOf(rules[1..], tag) {
            var j :| 0 <= j < |rules| && !ExtractFieldsZero(rules[j].extract) && rules[j].extract.tag == tag;
            assert rules[1..][j - 1] == rules[j];
          }
        }
      }
      if IsEmpty(ExtractValue(rules[0].extract)) then rest else {rules[0].extract.tag} + rest
  }

  /** generateItemTagsToCheckMap: an error for an empty rule list (the nil
      map is the empty set), otherwise exactly the container tags of the
      rules whose container configuration is not all zero. */
  function GenerateItemTags(rules: seq<ItemRule>): (r: Ret<set<string>>)
    ensures |rules| == 0 ==> r == Ret({}, Failed(Unnamed))
    ensures |rules| > 0 ==> r.Ok() && forall tag :: tag in r.value <==> ItemTagOf(rules, tag)
  {
    if IsEmpty(ItemRuleList(rules)) then Ret({}, Failed(Unnamed)) else Ret(ItemTagSet(rules), Nil)
  }

  /** generateURLTagsToCheckMap: the same for the URL rules. */
  function GenerateURLTags(rules: seq<UrlRule>): (r: Ret<set<string>>)
    ensures |rules| == 0 ==> r == Ret({}, Failed(Unnamed))
    ensures |rules| > 0 ==> r.Ok() && forall tag :: tag in r.value <==> UrlTagOf(rules, tag)
  {
    if IsEmpty(UrlRuleList(rules)) then Ret({}, Failed(Unnamed)) else Ret(UrlTagSet(rules), Nil)
  }

  /** A target found on `page`: one level deeper, with the page as parent
      and the page's depth limit. */
  predicate ChildOf(u: Target, page: Target, root: string) {
    && u.parentURL == page.currentURL && u.rootURL == root
    && u.currentDepth == page.currentDepth + 1 && u.maxDepth == page.maxDepth
  }

  /** A target the scraper may return: a child of the page, with a
      non-empty URL that the blacklist does not block. */
  predicate Admissible(u: Target, page: Target, root: string, bl: set<string>) {
    ChildOf(u, page, root) && u.currentURL != "" && !Blacklist.IsBlackListedURLPath(u.currentURL, bl)
  }

  /** The targets kept for one extracted URL (lines 116-122): none or one.
      An empty blacklist keeps nothing, because the whole check is guarded
      by the blacklist being non-empty. */
  function Keep(url: string, page: Target, root: string, bl: set<string>): (r: seq<Target>)
    ensures |r| <= 1
    ensures |r| == 1 <==> url != "" && bl != {} && !Blacklist.IsBlackListedURLPath(url, bl)
    ensures |r| == 1 ==> r[0].currentURL == url && Admissible(r[0], page, root, bl)
  {
    if url != "" && !IsEmpty(BlacklistMap(bl)) && !Blacklist.IsBlackListedURLPath(url, bl) then
      [Target(url, page.currentURL, root, page.currentDepth + 1, page.maxDepth)]
    else []
  }

  /** ScrapeResposne, or an item parse that reads past the end of the
      page and never returns. */
  datatype Scrape = Scraped(rootURL: string, items: seq<Item>, urls: seq<Target>) | Hung

  /** What `Scrape` reads the page with: the page itself, the root URL and
      blacklist of the scraper, the rules and the tag sets made from them. */
  datatype Setup = Setup(
    page: Target,
    root: string,
    bl: set<string>,
    itemRules: seq<ItemRule>,
    urlRules: seq<UrlRule>,
    itemTags: set<string>,
    urlTags: set<string>)

  /** The targets and items gathered so far. */
  datatype Haul = Haul(urls: seq<Target>, items: seq<Item>)

  /** `b` extends `a`: it keeps what `a` holds in front, and what it adds
      is admissible targets and items tagged with the page; nothing is added
      to the targets under an empty blacklist or to the items without item
      rules. */
  predicate Grows(cfg: Setup, a: Haul, b: Haul) {
    && |a.urls| <= |b.urls| && b.urls[..|a.urls|] == a.urls
    && |a.items| <= |b.items| && b.items[..|a.items|] == a.items
    && (forall i :: |a.urls| <= i < |b.urls| ==> Admissible(b.urls[i], cfg.page, cfg.root, cfg.bl))
    && (forall i :: |a.items| <= i < |b.items| ==> b.items[i].url == Some(cfg.page))
    && (cfg.bl == {} ==> b.urls == a.urls)
    && (|cfg.itemRules| == 0 ==> b.items == a.items)
  }

  lemma GrowsTrans(cfg: Setup, a: Haul, b: Haul, c: Haul)
    requires Grows(cfg, a, b) && Grows(cfg, b, c)
    ensures Grows(cfg, a, c)
  {
    assert c.urls[..|a.urls|] == c.urls[..|b.urls|][..|a.urls|];
    assert c.items[..|a.items|] == c.items[..|b.items|][..|a.items|];
    assert forall i :: |a.urls| <= i < |b.urls| ==> c.urls[i] == b.urls[i];
    assert forall i :: |a.items| <= i < |b.items| ==> c.items[i] == b.items[i];
  }

  /** The URL extracted from a start tag: by the href when there are no
      URL rules, otherwise by the rules. Neither ever reports an error, so
      the `continue` after an extraction error is never taken. */
  function ExtractFrom(cfg: Setup, t: Token, seen: set<string>): (x: UrlExtract.Extraction)
    ensures x.err == Nil
    ensures |cfg.urlRules| == 0 ==> x.url == UrlExtract.ExtractURLFromHTML(t).value
  {
    if IsEmpty(UrlRuleList(cfg.urlRules)) then UrlExtract.ExtractURL(t, seen)
    else UrlExtract.ExtractURLWithRules(t, seen, cfg.urlTags, cfg.urlRules)
  }

  /** Where the loop goes on after a start tag: the unread stream, the
      seen-set and the haul; or nowhere, when the item parse never ends. */
  datatype Advance = Advance(rest: seq<Token>, seen: set<string>, haul: Haul) | Stalled

  /** The handling of one start tag `t`, with `s` the stream after it: the
      URL is extracted and kept or not, then, with item rules present, an
      item is extracted from the tag and the tokens that follow it; an item
      extracted without error is tagged with the page and gathered. */
  function StartTagStep(cfg: Setup, t: Token, s: seq<Token>, seen: set<string>, h: Haul): (a: Advance)
    ensures a.Advance? ==> IsRest(a.rest, s) && Grows(cfg, h, a.haul)
    ensures |cfg.itemRules| == 0 ==> a.Advance? && a.rest == s
    ensures |cfg.itemRules| == 0 ==>
              a.haul.urls == h.urls + Keep(ExtractFrom(cfg, t, seen).url, cfg.page, cfg.root, cfg.bl)
  {
    var x := ExtractFrom(cfg, t, seen);
    var urls := h.urls + Keep(x.url, cfg.page, cfg.root, cfg.bl);
    assert urls[..|h.urls|] == h.urls;
    if IsEmpty(ItemRuleList(cfg.itemRules)) then Advance(s, x.seen, Haul(urls, h.items))
    else
      match ItemExtract.ExtractItem(t, s, cfg.itemTags, cfg.itemRules)
      case Hang => Stalled
      case ItemParse(item, err, rest) =>
        if err != Nil then Advance(rest, x.seen, Haul(urls, h.items))
        else
          var items := h.items + [item.(url := Some(cfg.page))];
          assert items[..|h.items|] == h.items;
          Advance(rest, x.seen, Haul(urls, items))
  }

  /** The loop of Scrape from the stream `s` on. It ends at the first
      `Error` token, the end of the page included, with what it gathered. */
  function ScrapeLoop(cfg: Setup, s: seq<Token>, seen: set<string>, h: Haul): (r: Scrape)
    ensures r.Scraped? ==> r.rootURL == cfg.root && Grows(cfg, h, Haul(r.urls, r.items))
    ensures |cfg.itemRules| == 0 ==> r.Scraped?
    decreases |s|
  {
    var step := Next(s);
    if step.token.Error? then Scraped(cfg.root, h.items, h.urls)
    else if !step.token.StartTag? then ScrapeLoop(cfg, step.rest, seen, h)
    else
      match StartTagStep(cfg, step.token, step.rest, seen, h)
      case Stalled => Hung
      case Advance(rest, seen', h') =>
        var r := ScrapeLoop(cfg, rest, seen', h');
        if r.Scraped? then
          GrowsTrans(cfg, h, h', Haul(r.urls, r.items));
          r
        else r
  }

  /** Scrape: the tag sets are made first (their errors cannot happen, as
      each generator is called only for a non-empty list), then the page is
      read to its end. Every target found is admissible, every item is
      tagged with the page, an empty blacklist yields no targets, and
      without item rules the scrape always ends. */
  function ScrapePage(page: Target, root: string, bl: set<string>, itemRules: seq<ItemRule>,
                      urlRules: seq<UrlRule>, body: seq<Token>): (r: Scrape)
    ensures r.Scraped? ==> r.rootURL == root
    ensures r.Scraped? ==> forall i :: 0 <= i < |r.urls| ==> Admissible(r.urls[i], page, root, bl)
    ensures r.Scraped? ==> forall i :: 0 <= i < |r.items| ==> r.items[i].url == Some(page)
    ensures r.Scraped? && bl == {} ==> r.urls == []
    ensures |itemRules| == 0 ==> r.Scraped? && r.items == []
  {
    var urlTags := if IsEmpty(UrlRuleList(urlRules)) then {} else GenerateURLTags(urlRules).value;
    var itemTags := if IsEmpty(ItemRuleList(itemRules)) then {} else GenerateItemTags(itemRules).value;
    ScrapeLoop(Setup(page, root, bl, itemRules, urlRules, itemTags, urlTags), body, {}, Haul([], []))
  }

  /** The targets one token yields when there are no rules. */
  function PlainHead(t: Token, page: Target, root: string, bl: set<string>): seq<Target> {
    if t.StartTag? then Keep(UrlExtract.ExtractURLFromHTML(t).value, page, root, bl) else []
  }

  /** Reference definition: the targets a page yields without any rules,
      one for every start tag, read before the stream gets stuck, whose
      href is non-empty and passes the blacklist. Repeated links are not
      merged. */
  function PlainLinks(ts: seq<Token>, page: Target, root: string, bl: set<string>): seq<Target>
    decreases |ts|
  {
    if |ts| == 0 then [] else PlainHead(ts[0], page, root, bl) + PlainLinks(ts[1..], page, root, bl)
  }

  /** One token of the loop without rules. */
  lemma PlainStep(cfg: Setup, s: seq<Token>, seen: set<string>, urls: seq<Target>) returns (seen': set<string>)
    requires |cfg.itemRules| == 0 && |cfg.urlRules| == 0 && !Next(s).token.Error?
    ensures ScrapeLoop(cfg, s, seen, Haul(urls, []))
         == ScrapeLoop(cfg, s[1..], seen', Haul(urls + PlainHead(s[0], cfg.page, cfg.root, cfg.bl), []))
  {
    seen' := seen;
    if s[0].StartTag? {
      seen' := StartTagStep(cfg, s[0], s[1..], seen, Haul(urls, [])).seen;
    } else {
      assert urls + PlainHead(s[0], cfg.page, cfg.root, cfg.bl) == urls;
    }
  }

  lemma PlainLinksOfReadable(s: seq<Token>, page: Target, root: string, bl: set<string>)
    requires |s| > 0 && !s[0].Error?
    ensures PlainLinks(Readable(s), page, root, bl) == PlainHead(s[0], page, root, bl) + PlainLinks(Readable(s[1..]), page, root, bl)
  {
    assert Readable(s)[1..] == Readable(s[1..]);
  }

  lemma ConcatAssoc<T>(a: seq<T>, b: seq<T>, c: seq<T>)
    ensures a + b + c == a + (b + c)
  {
  }

  lemma PlainEnd(cfg: Setup, s: seq<Token>, seen: set<string>, urls: seq<Target>)
    requires Next(s).token.Error?
    ensures ScrapeLoop(cfg, s, seen, Haul(urls, [])) == Scraped(cfg.root, [], urls + PlainLinks(Readable(s), cfg.page, cfg.root, cfg.bl))
  {
    assert Readable(s) == [];
    assert urls + PlainLinks([], cfg.page, cfg.root, cfg.bl) == urls;
  }

  /** Without rules, the scraper returns the plain links of the readable
      part of the page, duplicates included: ExtractURL records each href
      but never rejects one. */
  lemma {:induction false} NoRulesGivesPlainLinks(cfg: Setup, s: seq<Token>, seen: set<string>, urls: seq<Target>)
    requires |cfg.itemRules| == 0 && |cfg.urlRules| == 0
    ensures ScrapeLoop(cfg, s, seen, Haul(urls, [])) == Scraped(cfg.root, [], urls + PlainLinks(Readable(s), cfg.page, cfg.root, cfg.bl))
    decreases |s|
  {
    if Next(s).token.Error? {
      PlainEnd(cfg, s, seen, urls);
    } else {
      var head := PlainHead(s[0], cfg.page, cfg.root, cfg.bl);
      var seen' := PlainStep(cfg, s, seen, urls);
      NoRulesGivesPlainLinks(cfg, s[1..], seen', urls + head);
      PlainLinksOfReadable(s, cfg.page, cfg.root, cfg.bl);
      ConcatAssoc(urls, head, PlainLinks(Readable(s[1..]), cfg.page, cfg.root, cfg.bl));
    }
  }

  /** The link of the duplicate-link example yields one target. */
  lemma ExampleLinkKept(link: Token, page: Target, root: string, bl: set<string>)
    requires link == StartTag("a", [Attribute("href", "/a")]) && bl == {"/b"}
    ensures |PlainHead(link, page, root, bl)| == 1
  {
    assert Attributes.FirstWithKey(link.Attrs(), UrlExtract.Href, 0);
    assert !Blacklist.IsBlackListedURLPath("/a", bl);
  }

  lemma PlainLinksTwo(t: Token, page: Target, root: string, bl: set<string>)
    ensures PlainLinks([t, t], page, root, bl) == PlainHead(t, page, root, bl) + PlainHead(t, page, root, bl)
  {
    assert [t, t][1..] == [t];
    assert PlainLinks([t], page, root, bl) == PlainHead(t, page, root, bl) + [];
  }

  lemma ReadableTwo(t: Token)
    requires !t.Error?
    ensures Readable([t, t]) == [t, t]
  {
    assert [t, t][1..] == [t] && [t][1..] == [];
  }

  /** A page linking twice to the same place yields two targets. */
  lemma DuplicateLinksKept(cfg: Setup, link: Token)
    requires |cfg.itemRules| == 0 && |cfg.urlRules| == 0
    requires link == StartTag("a", [Attribute("href", "/a")]) && cfg.bl == {"/b"}
    ensures ScrapeLoop(cfg, [link, link], {}, Haul([], [])).Scraped?
    ensures |ScrapeLoop(cfg, [link, link], {}, Haul([], [])).urls| == 2
  {
    NoRulesGivesPlainLinks(cfg, [link, link], {}, []);
    ReadableTwo(link);
    ExampleLinkKept(link, cfg.page, cfg.root, cfg.bl);
    PlainLinksTwo(link, cfg.page, cfg.root, cfg.bl);
  }
}

/** The per-page work of the old scraper (webCrawler/webScraper/webScraper.go). */
module LegacyScraper {
  import opened Outcomes
  import opened Html
  import opened Rules
  import opened LegacyRules
  import opened Emptiness
  import LegacyUrlExtract
  import LegacyItemExtract
  import UrlExtract
  import Attributes

  ghost predicate LegacyItemTagOf(rules: seq<LegacyItemRule>, tag: string) {
    exists i :: 0 <= i < |rules| && rules[i].itemToGet != LegacyZeroExtract && rules[i].itemToGet.tag == tag
  }

  ghost predicate LegacyUrlTagOf(rules: seq<LegacyUrlRule>, tag: string) {
    exists i :: 0 <= i < |rules| && rules[i].extract != LegacyZeroExtract && rules[i].extract.tag == tag
  }

  function LegacyItemTagSet(rules: seq<LegacyItemRule>): (tags: set<string>)
    ensures forall tag :: tag in tags <==> LegacyItemTagOf(rules, tag)
    decreases |rules|
  {
    if |rules| == 0 then {}
    else
      var rest := LegacyItemTagSet(rules[1..]);
      assert forall tag :: LegacyItemTagOf(rules[1..], tag) ==> LegacyItemTagOf(rules, tag) by {
        forall tag | LegacyItemTagOf(rules[1..], tag) ensures LegacyItemTagOf(rules, tag) {
          var j :| 0 <= j < |rules[1..]| && rules[1..][j].itemToGet != LegacyZeroExtract && rules[1..][j].itemToGet.tag == tag;
          assert rules[j + 1] == rules[1..][j];
        }
      }
      assert forall tag :: (LegacyItemTagOf(rules, tag) && (tag != rules[0].itemToGet.tag || rules[0].itemToGet == LegacyZeroExtract))
                           ==> LegacyItemTagOf(rules[1..], tag) by {
        forall tag | LegacyItemTagOf(rules, tag) && (tag != rules[0].itemToGet.tag || rules[0].itemToGet == LegacyZeroExtract)
          ensures LegacyItemTagOf(rules[1..], tag) {
          var j :| 0 <= j < |rules| && rules[j].itemToGet != LegacyZeroExtract && rules[j].itemToGet.tag == tag;
          assert rules[1..][j - 1] == rules[j];
        }
      }
      if LegacyIsEmpty(LegacyExtractValue(rules[0].itemToGet)) then rest else {rules[0].itemToGet.tag} + rest
  }

  function LegacyUrlTagSet(rules: seq<LegacyUrlRule>): (tags: set<string>)
    ensures forall tag :: tag in tags <==> LegacyUrlTagOf(rules, tag)
    decreases |rules|
  {
    if |rules| == 0 then {}
    else
      var rest := LegacyUrlTagSet(rules[1..]);
      assert forall tag :: LegacyUrlTagOf(rules[1..], tag) ==> LegacyUrlTagOf(rules, tag) by {
        forall tag | LegacyUrlTagOf(rules[1..], tag) ensures LegacyUrlTagOf(rules, tag) {
          var j :| 0 <= j < |rules[1..]| && rules[1..][j].extract != LegacyZeroExtract && rules[1..][j].extract.tag == tag;
          assert rules[j + 1] == rules[1..][j];
        }
      }
      assert forall tag :: (LegacyUrlTagOf(rules, tag) && (tag != rules[0].extract.tag || rules[0].extract == LegacyZeroExtract))
                           ==> LegacyUrlTagOf(rules[1..], tag) by {
        forall tag | LegacyUrlTagOf(rules, tag) && (tag != rules[0].extract.tag || rules[0].extract == LegacyZeroExtract)
          ensures LegacyUrlTagOf(rules[1..], tag) {
          var j :| 0 <= j < |rules| && rules[j].extract != LegacyZeroExtract && rules[j].extract.tag == tag;
          assert rules[1..][j - 1] == rules[j];
        }
      }
      if LegacyIsEmpty(LegacyExtractValue(rules[0].extract)) then rest else {rules[0].extract.tag} + rest
  }

  /** generateItemTagsToCheckMap (old) */
  function LegacyGenerateItemTags(rules: seq<LegacyItemRule>): (r: Ret<set<string>>)
    ensures |rules| == 0 ==> r == Ret({}, Failed(Unnamed))
    ensures |rules| > 0 ==> r.Ok() && forall tag :: tag in r.value <==> LegacyItemTagOf(rules, tag)
  {
    if LegacyIsEmpty(LegacyItemRuleList(rules)) then Ret({}, Failed(Unnamed)) else Ret(LegacyItemTagSet(rules), Nil)
  }

  /** generateURLTagsToCheckMap (old) */
  function LegacyGenerateURLTags(rules: seq<LegacyUrlRule>): (r: Ret<set<string>>)
    ensures |rules| == 0 ==> r == Ret({}, Failed(Unnamed))
    ensures |rules| > 0 ==> r.Ok() && forall tag :: tag in r.value <==> LegacyUrlTagOf(rules, tag)
  {
    if LegacyIsEmpty(LegacyUrlRuleList(rules)) then Ret({}, Failed(Unnamed)) else Ret(LegacyUrlTagSet(rules), Nil)
  }

  datatype LegacySetup = LegacySetup(
    page: Target,
    root: string,
    itemRules: seq<LegacyItemRule>,
    urlRules: seq<LegacyUrlRule>,
    itemTags: set<string>,
    urlTags: set<string>)

  datatype LegacyScrape = LegacyScraped(rootURL: string, items: seq<Item>, urls: seq<Target>) | LegacyHung

  function LegacyExtractFrom(cfg: LegacySetup, t: Token, seen: set<string>): (x: UrlExtract.Extraction)
    ensures x.err == Nil ==> x.url != "" || |cfg.urlRules| > 0
    ensures x.err != Nil ==> x.seen == seen
    ensures x.seen == seen || (x.url !in seen && x.seen == seen + {x.url})
  {
    if LegacyIsEmpty(LegacyUrlRuleList(cfg.urlRules)) then LegacyUrlExtract.LegacyExtractURL(t, seen)
    else LegacyUrlExtract.LegacyExtractURLWithRules(t, seen, cfg.urlTags, cfg.urlRules)
  }

  /** A target found on the page: one level deeper, with the page as
      parent and the page's depth limit. */
  predicate LegacyChildOf(u: Target, page: Target, root: string) {
    && u.parentURL == page.currentURL && u.rootURL == root
    && u.currentDepth == page.currentDepth + 1 && u.maxDepth == page.maxDepth
  }

  /** No two targets share a URL. */
  predicate DistinctURLs(urls: seq<Target>) {
    forall i, j :: 0 <= i < j < |urls| ==> urls[i].currentURL != urls[j].currentURL
  }

  /** The targets and items gathered so far, and the URL object built most
      recently (nil before the first). */
  datatype LegacyHaul = LegacyHaul(urls: seq<Target>, items: seq<Item>, last: Option<Target>)

  /** What the old loop keeps true: every target is a child of the page
      with a non-empty URL; every item is a zero item whose URL object, if
      any, is one of the targets; `last` is one of the targets. Without
      URL rules the targets have distinct URLs, all in the seen-set. */
  predicate LegacyValid(cfg: LegacySetup, h: LegacyHaul, seen: set<string>) {
    && (h.last.Some? ==> h.last.value in h.urls)
    && (forall i :: 0 <= i < |h.urls| ==> LegacyChildOf(h.urls[i], cfg.page, cfg.root) && h.urls[i].currentURL != "")
    && (forall i :: 0 <= i < |h.items| ==>
          h.items[i].itemName == "" && h.items[i].details == map[]
          && (h.items[i].url.None? || h.items[i].url.value in h.urls))
    && (|cfg.urlRules| == 0 ==> DistinctURLs(h.urls) && forall i :: 0 <= i < |h.urls| ==> h.urls[i].currentURL in seen)
  }

  /** `b` keeps what `a` holds in front; without item rules it adds no
      items. */
  predicate LegacyGrows(cfg: LegacySetup, a: LegacyHaul, b: LegacyHaul) {
    && |a.urls| <= |b.urls| && b.urls[..|a.urls|] == a.urls
    && |a.items| <= |b.items| && b.items[..|a.items|] == a.items
    && (|cfg.itemRules| == 0 ==> b.items == a.items)
  }

  lemma LegacyGrowsTrans(cfg: LegacySetup, a: LegacyHaul, b: LegacyHaul, c: LegacyHaul)
    requires LegacyGrows(cfg, a, b) && LegacyGrows(cfg, b, c)
    ensures LegacyGrows(cfg, a, c)
  {
    assert c.urls[..|a.urls|] == c.urls[..|b.urls|][..|a.urls|];
    assert c.items[..|a.items|] == c.items[..|b.items|][..|a.items|];
  }

  datatype LegacyAdvance = LegacyAdvance(rest: seq<Token>, seen: set<string>, haul: LegacyHaul) | LegacyStalled

  /** Adding a fresh, non-empty child URL keeps the loop's invariant. */
  lemma AddTarget(cfg: LegacySetup, h: LegacyHaul, seen: set<string>, x: UrlExtract.Extraction, u: Target)
    requires LegacyValid(cfg, h, seen)
    requires x.err == Nil && x.url != "" && (x.seen == seen || (x.url !in seen && x.seen == seen + {x.url}))
    requires |cfg.urlRules| == 0 ==> x.url !in seen && x.seen == seen + {x.url}
    requires u == Target(x.url, cfg.page.currentURL, cfg.root, cfg.page.currentDepth + 1, cfg.page.maxDepth)
    ensures LegacyValid(cfg, LegacyHaul(h.urls + [u], h.items, Some(u)), x.seen)
  {
    var urls := h.urls + [u];
    assert forall i :: 0 <= i < |h.urls| ==> urls[i] == h.urls[i];
    assert forall v :: v in h.urls ==> v in urls;
  }

  /** The handling of one start tag `t`, with `s` the stream after it. */
  function LegacyStartTagStep(cfg: LegacySetup, t: Token, s: seq<Token>, seen: set<string>, h: LegacyHaul): (a: LegacyAdvance)
    requires LegacyValid(cfg, h, seen)
    ensures a.LegacyAdvance? ==> IsRest(a.rest, s) && LegacyGrows(cfg, h, a.haul) && LegacyValid(cfg, a.haul, a.seen)
    ensures |cfg.itemRules| == 0 ==> a.LegacyAdvance? && a.rest == s
  {
    var x := LegacyExtractFrom(cfg, t, seen);
    if x.err != Nil then LegacyAdvance(s, x.seen, h)
    else
      var h' :=
        if x.url != "" then
          var u := Target(x.url, cfg.page.currentURL, cfg.root, cfg.page.currentDepth + 1, cfg.page.maxDepth);
          AddTarget(cfg, h, seen, x, u);
          assert (h.urls + [u])[..|h.urls|] == h.urls;
          LegacyHaul(h.urls + [u], h.items, Some(u))
        else h;
      if LegacyIsEmpty(LegacyItemRuleList(cfg.itemRules)) then LegacyAdvance(s, x.seen, h')
      else
        match LegacyItemExtract.LegacyExtractItem(t, s, "", cfg.itemTags, cfg.itemRules)
        case None => LegacyStalled
        case Some(rest) =>
          var items := h'.items + [Item("", h'.last, map[])];
          assert items[..|h'.items|] == h'.items;
          assert items[..|h.items|] == h.items;
          LegacyAdvance(rest, x.seen, h'.(items := items))
  }

  /** The loop of the old Scrape. An extraction error skips the rest of
      the token's handling, items included. Every non-empty URL is kept,
      with no blacklist. The item extractor hands back no item (see
      LegacyItemExtract.LegacyExtractItem), so each start tag handled with
      item rules present adds a zero item carrying the most recent URL
      object. */
  function LegacyScrapeLoop(cfg: LegacySetup, s: seq<Token>, seen: set<string>, h: LegacyHaul): (r: LegacyScrape)
    requires LegacyValid(cfg, h, seen)
    ensures r.LegacyScraped? ==> r.rootURL == cfg.root
    ensures r.LegacyScraped? ==> exists last, seen' :: LegacyValid(cfg, LegacyHaul(r.urls, r.items, last), seen')
    ensures r.LegacyScraped? ==> LegacyGrows(cfg, h, LegacyHaul(r.urls, r.items, None))
    ensures |cfg.itemRules| == 0 ==> r.LegacyScraped?
    decreases |s|
  {
    var step := Next(s);
    if step.token.Error? then LegacyScraped(cfg.root, h.items, h.urls)
    else if !step.token.StartTag? then LegacyScrapeLoop(cfg, step.rest, seen, h)
    else
      match LegacyStartTagStep(cfg, step.token, step.rest, seen, h)
      case LegacyStalled => LegacyHung
      case LegacyAdvance(rest, seen', h') =>
        var r := LegacyScrapeLoop(cfg, rest, seen', h');
        if r.LegacyScraped? then
          LegacyGrowsTrans(cfg, h, h', LegacyHaul(r.urls, r.items, None));
          r
        else r
  }

  /** Scrape (old): every target is a child of the page with a non-empty
      URL, every item is a zero item whose URL object is one of the targets
      or nil, and without URL rules no URL is returned twice. */
  function LegacyScrapePage(page: Target, root: string, itemRules: seq<LegacyItemRule>,
                            urlRules: seq<LegacyUrlRule>, body: seq<Token>): (r: LegacyScrape)
    ensures r.LegacyScraped? ==> r.rootURL == root
    ensures r.LegacyScraped? ==> forall i :: 0 <= i < |r.urls| ==> LegacyChildOf(r.urls[i], page, root) && r.urls[i].currentURL != ""
    ensures r.LegacyScraped? ==> forall i :: 0 <= i < |r.items| ==> r.items[i].url.None? || r.items[i].url.value in r.urls
    ensures r.LegacyScraped? && |urlRules| == 0 ==> DistinctURLs(r.urls)
    ensures |itemRules| == 0 ==> r.LegacyScraped? && r.items == []
  {
    var urlTags := if LegacyIsEmpty(LegacyUrlRuleList(urlRules)) then {} else LegacyGenerateURLTags(urlRules).value;
    var itemTags := if LegacyIsEmpty(LegacyItemRuleList(itemRules)) then {} else LegacyGenerateItemTags(itemRules).value;
    LegacyScrapeLoop(LegacySetup(page, root, itemRules, urlRules, itemTags, urlTags), body, {}, LegacyHaul([], [], None))
  }

  /** The first copy of the example link is recorded. */
  lemma LegacyExampleFirstCopy(cfg: LegacySetup, link: Token, s: seq<Token>)
    requires |cfg.itemRules| == 0 && |cfg.urlRules| == 0
    requires link == StartTag("a", [Attribute("href", "/a")])
    ensures var a := LegacyStartTagStep(cfg, link, s, {}, LegacyHaul([], [], None));
            a.LegacyAdvance? && a.rest == s && a.seen == {"/a"} && |a.haul.urls| == 1
  {
    assert Attributes.FirstWithKey(link.Attrs(), UrlExtract.Href, 0);
  }

  /** The second copy of the example link is a duplicate and changes
      nothing. */
  lemma LegacyExampleSecondCopy(cfg: LegacySetup, link: Token, s: seq<Token>, h: LegacyHaul)
    requires |cfg.itemRules| == 0 && |cfg.urlRules| == 0 && LegacyValid(cfg, h, {"/a"})
    requires link == StartTag("a", [Attribute("href", "/a")])
    ensures var b := LegacyStartTagStep(cfg, link, s, {"/a"}, h);
            b.LegacyAdvance? && b.rest == s && b.haul == h
  {
    assert Attributes.FirstWithKey(link.Attrs(), UrlExtract.Href, 0);
  }

  /** One round of the old loop on a page starting with a start tag that
      the tag step gets past. */
  lemma LegacyLoopAtStartTag(cfg: LegacySetup, s: seq<Token>, seen: set<string>, h: LegacyHaul)
    requires LegacyValid(cfg, h, seen) && |s| > 0 && s[0].StartTag?
    requires LegacyStartTagStep(cfg, s[0], s[1..], seen, h).LegacyAdvance?
    ensures var a := LegacyStartTagStep(cfg, s[0], s[1..], seen, h);
            LegacyScrapeLoop(cfg, s, seen, h) == LegacyScrapeLoop(cfg, a.rest, a.seen, a.haul)
  {
  }

  /** The old scraper keeps a link of a page only the first time it
      appears: the second copy is a duplicate and is skipped. */
  lemma LegacyDuplicateLinkDropped(cfg: LegacySetup, link: Token)
    requires |cfg.itemRules| == 0 && |cfg.urlRules| == 0
    requires link == StartTag("a", [Attribute("href", "/a")])
    ensures LegacyScrapeLoop(cfg, [link, link], {}, LegacyHaul([], [], None)).LegacyScraped?
    ensures |LegacyScrapeLoop(cfg, [link, link], {}, LegacyHaul([], [], None)).urls| == 1
  {
    var h := LegacyHaul([], [], None);
    LegacyExampleFirstCopy(cfg, link, [link]);
    var a := LegacyStartTagStep(cfg, link, [link], {}, h);
    LegacyExampleSecondCopy(cfg, link, [], a.haul);
    var b := LegacyStartTagStep(cfg, link, [], a.seen, a.haul);
    LegacyLoopAtStartTag(cfg, [link, link], {}, h);
    LegacyLoopAtStartTag(cfg, [link], a.seen, a.haul);
    assert [link, link][1..] == [link] && [link][1..] == [];
  }
}
