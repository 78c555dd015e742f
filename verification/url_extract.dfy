/** Link extraction of the current scraper (pkg/webScraper/urlExtractor.go):
    reading the href of a start tag, with or without a list of URL rules,
    and the set of URLs already handed out on the page. */
module UrlExtract {
  import opened Outcomes
  import opened Html
  import opened Attributes
  import opened GoStrings
  import opened Rules
  import opened Emptiness
  import UrlFormat

  const Href: string := "href"

  /** isDuplicateURL: whether `url` was seen, and the seen-set after the
      call (the Go map is updated in place). */
  datatype Dedup = Dedup(duplicate: bool, seen: set<string>)

  function IsDuplicateURL(url: string, seen: set<string>): (r: Dedup)
    ensures r.duplicate <==> url in seen
    ensures url in r.seen && seen <= r.seen && r.seen - seen <= {url}
  {
    if url in seen then Dedup(true, seen) else Dedup(false, seen + {url})
  }

  /** The outcome of an extraction: the URL, the error and the seen-set. */
  datatype Extraction = Extraction(url: string, err: Status, seen: set<string>)

  /** extractURLFromHTML: the first href of the token, as long as there is
      one and it is not empty. */
  function ExtractURLFromHTML(t: Token): (r: Ret<string>)
    ensures r.Ok() <==> exists i :: FirstWithKey(t.Attrs(), Href, i) && t.Attrs()[i].val != ""
    ensures r.Ok() ==> forall i :: FirstWithKey(t.Attrs(), Href, i) ==> r.value == t.Attrs()[i].val
    ensures !r.Ok() ==> r == Ret("", Failed(ErrExtractURLFromHTML))
  {
    var h := ExtractAttributeValue(t, Href);
    FirstExists(t.Attrs(), Href);
    if !h.Ok() then Ret("", Failed(ErrExtractURLFromHTML))
    else if h.value == "" then Ret(h.value, Failed(ErrExtractURLFromHTML))
    else Ret(h.value, Nil)
  }

  /** ExtractURL: the href of the token, never an error. A non-empty href
      is recorded in the seen-set, whether or not it was there already, and
      returned either way. */
  function ExtractURL(t: Token, seen: set<string>): (r: Extraction)
    ensures r.err == Nil
    ensures r.url == ExtractURLFromHTML(t).value
    ensures r.url == "" ==> r.seen == seen
    ensures r.url != "" ==> r.seen == seen + {r.url}
  {
    var e := ExtractURLFromHTML(t).value;
    if e != "" then
      var d := IsDuplicateURL(e, seen);
      Extraction(e, Nil, d.seen)
    else Extraction(e, Nil, seen)
  }

  /** extractURLFromHTMLUsingConfiguration: when the configured attribute is
      present and its value contains the configured text, the href of the
      token (possibly "") without error; when the attribute is present but
      does not match, its own value together with an error. */
  function ExtractURLUsingConfig(t: Token, c: ExtractConfig): (r: Ret<string>)
    ensures !HasKey(t.Attrs(), c.attribute) ==> r == Ret("", Failed(Unnamed))
    ensures HasKey(t.Attrs(), c.attribute) ==>
              forall i :: FirstWithKey(t.Attrs(), c.attribute, i) ==>
                if Contains(t.Attrs()[i].val, c.attributeValue)
                then r.Ok() && r.value == ExtractAttributeValue(t, Href).value
                else r == Ret(t.Attrs()[i].val, Failed(Unnamed))
  {
    var v := ExtractAttributeValue(t, c.attribute);
    if !v.Ok() then v
    else if Contains(v.value, c.attributeValue) then
      var h := ExtractAttributeValue(t, Href);
      Ret(h.value, Nil)
    else Ret(v.value, Failed(Unnamed))
  }

  /** What one URL rule extracts from the token. A rule with an extraction
      configuration reads the token only when its tag is one of `tags`, and
      otherwise leaves the URL of the previous rule (`prev`) in place. */
  function RuleExtract(t: Token, tags: set<string>, rule: UrlRule, prev: string): string {
    if !IsEmpty(ExtractValue(rule.extract)) then
      if t.Data() in tags then ExtractURLUsingConfig(t, rule.extract).value else prev
    else ExtractURLFromHTML(t).value
  }

  /** Whether a rule has a reshaping configuration. */
  predicate Reshapes(rule: UrlRule) {
    !IsEmpty(FormatValue(rule.format))
  }

  /** The loop of ExtractURLWithScrapURLConfig from the given rule on;
      `prev` is the value of `ExtractedURL` left by the rules before.

      The rules are tried in order. A rule without a reshaping configuration
      returns the URL it extracted, without looking at the seen-set. A rule
      with one reshapes the URL and returns it only if it was not seen
      before, recording it. Returning "" means that no rule gave a URL. */
  function WithRules(t: Token, seen: set<string>, tags: set<string>, rules: seq<UrlRule>, prev: string): (r: Extraction)
    ensures r.err == Nil
    ensures r.url == "" ==> r.seen == seen
    ensures r.seen == seen || (r.url != "" && r.url !in seen && r.seen == seen + {r.url})
    ensures |rules| == 0 ==> r.url == ""
    ensures (forall i :: 0 <= i < |rules| ==> !Reshapes(rules[i])) ==> r.seen == seen
    ensures (forall i :: 0 <= i < |rules| ==> Reshapes(rules[i])) ==>
              r.url == "" || (r.url !in seen && r.seen == seen + {r.url})
    decreases |rules|
  {
    if |rules| == 0 then Extraction("", Nil, seen)
    else
      var rule := rules[0];
      var e := RuleExtract(t, tags, rule, prev);
      if e == "" then WithRules(t, seen, tags, rules[1..], e)
      else if Reshapes(rule) then
        var f := UrlFormat.FormatURL(e, rule.format).value;
        if f == "" then WithRules(t, seen, tags, rules[1..], e)
        else
          var d := IsDuplicateURL(f, seen);
          if !d.duplicate && e != "" then Extraction(f, Nil, d.seen)
          else
            assert d.seen == seen;
            WithRules(t, d.seen, tags, rules[1..], e)
      else Extraction(e, Nil, seen)
  }

  /** ExtractURLWithScrapURLConfig */
  function ExtractURLWithRules(t: Token, seen: set<string>, tags: set<string>, rules: seq<UrlRule>): (r: Extraction)
    ensures r.err == Nil
    ensures r.seen == seen || (r.url != "" && r.url !in seen && r.seen == seen + {r.url})
  {
    WithRules(t, seen, tags, rules, "")
  }

  /** The first rule that yields a URL decides, whatever rules follow. A
      rule without a reshaping configuration yields the URL it extracted;
      one with a reshaping configuration yields the reshaped URL when it is
      new. */
  lemma {:induction false} FirstUsableRuleWins(t: Token, seen: set<string>, tags: set<string>,
                                               rule: UrlRule, rest: seq<UrlRule>, prev: string)
    requires RuleExtract(t, tags, rule, prev) != ""
    ensures var e := RuleExtract(t, tags, rule, prev);
            var f := UrlFormat.FormatURL(e, rule.format).value;
            && (!Reshapes(rule) ==> WithRules(t, seen, tags, [rule] + rest, prev) == Extraction(e, Nil, seen))
            && (Reshapes(rule) && f != "" && f !in seen ==>
                  WithRules(t, seen, tags, [rule] + rest, prev) == Extraction(f, Nil, seen + {f}))
  {
    assert ([rule] + rest)[0] == rule;
  }

  /** A rule that yields nothing hands the URL it extracted on to the next
      rule; the seen-set is unchanged. */
  lemma {:induction false} UnusableRuleIsSkipped(t: Token, seen: set<string>, tags: set<string>,
                                                 rule: UrlRule, rest: seq<UrlRule>, prev: string)
    requires var e := RuleExtract(t, tags, rule, prev);
             var f := UrlFormat.FormatURL(e, rule.format).value;
             e == "" || (Reshapes(rule) && (f == "" || f in seen))
    ensures WithRules(t, seen, tags, [rule] + rest, prev)
            == WithRules(t, seen, tags, rest, RuleExtract(t, tags, rule, prev))
  {
    assert ([rule] + rest)[1..] == rest;
  }

  /** A URL left behind by an earlier rule survives into a later rule whose
      tag list does not hold the token's tag: when the first rule's reshaped
      URL was seen already, the second rule returns the first rule's
      unreshaped URL. */
  lemma {:induction false} StaleURLCarriedOver(t: Token, seen: set<string>, tags: set<string>, r1: UrlRule, r2: UrlRule)
    requires Reshapes(r1) && !Reshapes(r2)
    requires RuleExtract(t, tags, r1, "") != ""
    requires UrlFormat.FormatURL(RuleExtract(t, tags, r1, ""), r1.format).value in seen
    requires !IsEmpty(ExtractValue(r2.extract)) && t.Data() !in tags
    ensures ExtractURLWithRules(t, seen, tags, [r1, r2]) == Extraction(RuleExtract(t, tags, r1, ""), Nil, seen)
  {
    assert [r1, r2] == [r1] + [r2];
    UnusableRuleIsSkipped(t, seen, tags, r1, [r2], "");
    assert [r2] == [r2] + [];
  }

  /** The case above on a page: "/a" is read from an anchor, reshaped into
      the already-seen "h/a", and the rule meant for `link` tags returns the
      stale "/a". */
  lemma {:induction false} StaleURLExample(t: Token, r1: UrlRule, r2: UrlRule)
    requires t == StartTag("a", [Attribute("href", "/a")])
    requires r1 == UrlRule("one", ZeroExtract, UrlFormat.Zero.(prefixToAdd := "h"))
    requires r2 == UrlRule("two", ExtractConfig("link", "href", "", "", 0), UrlFormat.Zero)
    ensures ExtractURLWithRules(t, {"h/a"}, {"link"}, [r1, r2]) == Extraction("/a", Nil, {"h/a"})
  {
    assert FirstWithKey(t.Attrs(), Href, 0);
    assert RuleExtract(t, {"link"}, r1, "") == "/a";
    AddPrefixExample(r1.format);
    StaleURLCarriedOver(t, {"h/a"}, {"link"}, r1, r2);
  }

  lemma AddPrefixExample(c: UrlFormat.FormatConfig)
    requires c == UrlFormat.Zero.(prefixToAdd := "h")
    ensures UrlFormat.FormatURL("/a", c) == Ret("h/a", Nil)
  {
    assert UrlFormat.Matches("/a", c) by {
      assert HasPrefix("/a", "") && HasSuffix("/a", "");
      assert Contains("/a", "");
    }
    assert UrlFormat.ReplaceStep("/a", c) == "/a";
    assert TrimPrefix("/a", "") == "/a" && TrimSuffix("/a", "") == "/a";
    assert "h" + "/a" == "h/a";
  }
}

/** Link extraction of the old scraper (webCrawler/webScraper/urlExtractor.go),
    built on the sentinel lookup. */
module LegacyUrlExtract {
  import opened Outcomes
  import opened Html
  import opened Attributes
  import opened GoStrings
  import opened LegacyRules
  import opened UrlExtract
  import UrlFormat
  import LegacyUrlFormat

  /** isEmptyToken: the tokens with no name, text or attributes. */
  function IsEmptyToken(t: Token): (b: bool)
    ensures b <==> (t.Error? || t == StartTag("", []) || t == EndTag("") || t == Text("") || t == Other(""))
  {
    t.Data() == "" && |t.Attrs()| == 0
  }

  /** extractURLFromHTML (old): the first href of the token, if there is one
      and it is not empty; "" and errExtractURLFromHTML otherwise. */
  function LegacyExtractURLFromHTML(t: Token): (r: Ret<string>)
    ensures r.Ok() <==> exists i :: FirstWithKey(t.Attrs(), Href, i) && t.Attrs()[i].val != ""
    ensures r.Ok() ==> forall i :: FirstWithKey(t.Attrs(), Href, i) ==> r.value == t.Attrs()[i].val
    ensures !r.Ok() ==> r == Ret("", Failed(ErrExtractURLFromHTML))
  {
    FirstExists(t.Attrs(), Href);
    if IsEmptyToken(t) then Ret("", Failed(ErrExtractURLFromHTML))
    else
      var h := SentinelLookup(t, Href);
      if !h.Ok() then Ret("", Failed(ErrExtractURLFromHTML))
      else if h.value == "" then Ret(h.value, Failed(ErrExtractURLFromHTML))
      else Ret(h.value, Nil)
  }

  /** Both versions read the same URL from a token: the sentinel of the old
      lookup never leaks out of extractURLFromHTML. */
  lemma {:induction false} PlainExtractionAgrees(t: Token)
    ensures LegacyExtractURLFromHTML(t) == ExtractURLFromHTML(t)
  {
    var a := LegacyExtractURLFromHTML(t);
    var b := ExtractURLFromHTML(t);
    if a.Ok() {
      var i :| FirstWithKey(t.Attrs(), Href, i) && t.Attrs()[i].val != "";
      assert a.value == t.Attrs()[i].val == b.value;
    }
  }

  /** ExtractURL (old): an error unless the href is non-empty and new. The
      local slice the URL is appended to is lost on return. */
  function LegacyExtractURL(t: Token, seen: set<string>): (r: Extraction)
    ensures r.url == LegacyExtractURLFromHTML(t).value
    ensures r.err == Nil <==> r.url != "" && r.url !in seen
    ensures r.seen == if r.url == "" then seen else seen + {r.url}
  {
    var e := LegacyExtractURLFromHTML(t).value;
    if e != "" then
      var d := IsDuplicateURL(e, seen);
      if !d.duplicate then Extraction(e, Nil, d.seen) else Extraction(e, Failed(Unnamed), d.seen)
    else Extraction(e, Failed(Unnamed), seen)
  }

  /** isEmptyExtractURLFromHTMLConfiguration: the tag, the attribute and
      the value to look for are all unset. */
  predicate IsEmptyLinkConfig(c: LegacyExtractConfig) {
    c.tag == "" && c.attribute == "" && c.attributeValue == ""
  }

  /** extractURLFromHTMLUsingConfiguration (old): an error for an empty
      configuration or when the attribute's lookup value does not contain
      the configured text; otherwise the lookup of href, which is the
      sentinel "empty string" when the token has no href. */
  function LegacyExtractURLUsingConfig(t: Token, c: LegacyExtractConfig): (r: Ret<string>)
    ensures IsEmptyLinkConfig(c) ==> r == Ret("", Failed(ErrExtractURLUsingConfig))
    ensures !IsEmptyLinkConfig(c) && !Contains(SentinelLookup(t, c.attribute).value, c.attributeValue) ==>
              r == Ret("", Failed(ErrExtractURLUsingConfig))
    ensures !IsEmptyLinkConfig(c) && Contains(SentinelLookup(t, c.attribute).value, c.attributeValue) ==>
              r.Ok() && (!HasKey(t.Attrs(), Href) ==> r.value == Sentinel)
              && forall i :: FirstWithKey(t.Attrs(), Href, i) ==> r.value == t.Attrs()[i].val
  {
    if IsEmptyLinkConfig(c) then Ret("", Failed(ErrExtractURLUsingConfig))
    else
      var v := SentinelLookup(t, c.attribute).value;
      if Contains(v, c.attributeValue) then Ret(SentinelLookup(t, Href).value, Nil)
      else Ret("", Failed(ErrExtractURLUsingConfig))
  }

  /** With an empty value to look for, any token passes, and a token
      without href yields the sentinel "empty string" as its URL. */
  lemma {:induction false} SentinelBecomesURL(t: Token, c: LegacyExtractConfig)
    requires c.tag != "" && c.attributeValue == "" && !HasKey(t.Attrs(), Href)
    ensures LegacyExtractURLUsingConfig(t, c) == Ret("empty string", Nil)
  {
    assert HasPrefix(SentinelLookup(t, c.attribute).value, "");
  }

  /** What one old URL rule extracts from the token; see RuleExtract. */
  function LegacyRuleExtract(t: Token, tags: set<string>, rule: LegacyUrlRule, prev: string): string {
    if !IsEmptyLinkConfig(rule.extract) then
      if t.Data() in tags then LegacyExtractURLUsingConfig(t, rule.extract).value else prev
    else LegacyExtractURLFromHTML(t).value
  }

  /** The loop of ExtractURLWithScrapConfiguration (old) from the given
      rule on. As in the current version the first rule that yields a URL
      decides, but a reshaping rule whose guard fails is skipped by its
      error, a reshaped URL may be "", and running out of rules is an
      error. */
  function LegacyWithRules(t: Token, seen: set<string>, tags: set<string>, rules: seq<LegacyUrlRule>, prev: string): (r: Extraction)
    ensures r.err != Nil ==> r.url == "" && r.seen == seen && r.err == Failed(Unnamed)
    ensures r.seen == seen || (r.url !in seen && r.seen == seen + {r.url})
    ensures |rules| == 0 ==> r == Extraction("", Failed(Unnamed), seen)
    ensures (forall i :: 0 <= i < |rules| ==> LegacyUrlFormat.IsEmptyFormatURLConfiguration(rules[i].format)) ==>
              r.seen == seen && (r.err == Nil ==> r.url != "")
    decreases |rules|
  {
    if |rules| == 0 then Extraction("", Failed(Unnamed), seen)
    else
      var rule := rules[0];
      var e := LegacyRuleExtract(t, tags, rule, prev);
      if e == "" then LegacyWithRules(t, seen, tags, rules[1..], e)
      else if !LegacyUrlFormat.IsEmptyFormatURLConfiguration(rule.format) then
        var f := LegacyUrlFormat.LegacyFormatURL(e, rule.format);
        if !f.Ok() then LegacyWithRules(t, seen, tags, rules[1..], e)
        else
          var d := IsDuplicateURL(f.value, seen);
          if !d.duplicate then Extraction(f.value, Nil, d.seen)
          else
            assert d.seen == seen;
            LegacyWithRules(t, d.seen, tags, rules[1..], e)
      else Extraction(e, Nil, seen)
  }

  /** ExtractURLWithScrapConfiguration (old) */
  function LegacyExtractURLWithRules(t: Token, seen: set<string>, tags: set<string>, rules: seq<LegacyUrlRule>): (r: Extraction)
    ensures r.err != Nil ==> r.url == "" && r.seen == seen
    ensures r.seen == seen || (r.url !in seen && r.seen == seen + {r.url})
  {
    LegacyWithRules(t, seen, tags, rules, "")
  }

  /** A reshaping that trims the whole URL away yields "" without error in
      the old version, and "" is then recorded as seen. */
  lemma {:induction false} LegacyEmptyReshapeAccepted()
    ensures var t := StartTag("a", [Attribute("href", "/")]);
            var rule := LegacyUrlRule("r", LegacyZeroExtract, UrlFormat.Zero.(prefixToRemove := "/"));
            LegacyExtractURLWithRules(t, {}, {}, [rule]) == Extraction("", Nil, {""})
  {
    var t := StartTag("a", [Attribute("href", "/")]);
    var rule := LegacyUrlRule("r", LegacyZeroExtract, UrlFormat.Zero.(prefixToRemove := "/"));
    assert FirstWithKey(t.Attrs(), Href, 0);
    assert LegacyExtractURLFromHTML(t).value == "/";
    assert LegacyUrlFormat.LegacyMatches("/", rule.format) by {
      assert HasPrefix("/", "");
    }
    assert UrlFormat.ReplaceStep("/", rule.format) == "/";
    assert TrimPrefix("/", "/") == "";
    assert UrlFormat.Reshape("/", rule.format) == "";
  }
}
