/** Item extraction of the current scraper (pkg/webScraper/itemExtractor.go).

    A container start tag seeds a tag stack; the parser then reads the
    tokens that follow, pushing start tags and popping at end tags, until the
    stack is empty or the stream is stuck. A start tag that one of the
    detail rules names is offered to those rules in order, and a rule that
    matches fills its detail, either from an attribute of the tag or from a
    text token further on, which it reaches by reading tokens that are never
    pushed or popped.

    The text-seeking loops of the source spin forever once the stream is
    stuck, because the tokenizer keeps answering `Error`. The model returns
    the distinct outcome `Stuck` (for a seek) and `Hang` (for an item)
    there. */
module ItemExtract {
  import opened Outcomes
  import opened Html
  import opened Attributes
  import opened Rules
  import TokenStack

  /** The detail tags: the `Tag` of every detail rule. */
  function DetailTags(details: seq<DetailRule>): (tags: set<string>)
    ensures forall i :: 0 <= i < |details| ==> details[i].config.tag in tags
    ensures forall x :: x in tags ==> exists i :: 0 <= i < |details| && details[i].config.tag == x
    decreases |details|
  {
    if |details| == 0 then {}
    else
      var rest := DetailTags(details[1..]);
      assert forall x :: x in rest ==> exists i :: 1 <= i < |details| && details[i].config.tag == x by {
        forall x | x in rest ensures exists i :: 1 <= i < |details| && details[i].config.tag == x {
          var j :| 0 <= j < |details[1..]| && details[1..][j].config.tag == x;
          assert details[j + 1].config.tag == x;
        }
      }
      {details[0].config.tag} + rest
  }

  /** What a text-seeking loop does: stay where it is, move to the text
      token it was looking for, or get stuck. */
  datatype Seek = Stayed | Moved(token: Token, rest: seq<Token>) | Stuck

  /** Read tokens until `k + 1` text tokens have been read. The result is
      the (k+1)-th text token of the stream, reached without passing an
      `Error`; the loop is stuck exactly when the readable part of the
      stream holds no more than `k` texts. */
  function SkipTexts(s: seq<Token>, k: nat): (r: Seek)
    ensures !r.Stayed?
    ensures r.Moved? ==> IsRest(r.rest, s) && r.token.Text?
    ensures r.Moved? ==> var c := Consumed(s, r.rest);
                         |c| > 0 && c[|c| - 1] == r.token && ErrorFree(c) && CountTexts(c) == k + 1
    ensures r.Stuck? <==> CountTexts(Readable(s)) <= k
    decreases |s|
  {
    var st := Next(s);
    if st.token.Error? then Stuck
    else if st.token.Text? && k == 0 then
      assert Consumed(s, st.rest) == [st.token];
      Moved(st.token, st.rest)
    else
      var r := SkipTexts(st.rest, if st.token.Text? then k - 1 else k);
      assert Readable(s) == [s[0]] + Readable(s[1..]);
      assert ([s[0]] + Readable(s[1..]))[1..] == Readable(s[1..]);
      if r.Moved? then
        ConsumedStep(s, r.rest);
        var c := Consumed(st.rest, r.rest);
        assert ([st.token] + c)[1..] == c;
        r
      else r
  }

  /** The seek of one detail rule (the loops of lines 70-82): a positive
      SkipToken reads on to the (SkipToken+1)-th text, a zero SkipToken to the
      next text unless the last token read is a text already, and a
      negative SkipToken does not move. */
  function SeekText(cfg: ExtractConfig, last: Token, rest: seq<Token>): Seek {
    if cfg.skipToken != 0 then
      if cfg.skipToken >= 0 then SkipTexts(rest, cfg.skipToken) else Stayed
    else if !last.Text? then SkipTexts(rest, 0)
    else Stayed
  }

  /** Whether a detail rule applies to the current token (line 64). */
  predicate DetailMatches(cfg: ExtractConfig, cur: Token) {
    || (cfg.tag == cur.Data() && cfg.attributeValue == SentinelLookup(cur, cfg.attribute).value)
    || (cfg.tag == cur.Data() && cfg.attribute == "" && cfg.attributeValue == "")
  }

  /** The parser's state while the detail rules run over one start tag: the
      token of the last `Next`, the token `currentToken` holds, the unread
      stream and the details so far. */
  datatype Cursor = Cursor(last: Token, cur: Token, rest: seq<Token>, details: map<string, string>)

  /** The detail loop (lines 62-89) over the rules from the given one on.
      `None` is the loop that never ends. Details already set are kept, new
      ones come from the rules, and the tokens read are free of `Error`. */
  function ApplyDetails(rules: seq<DetailRule>, c: Cursor): (r: Option<Cursor>)
    ensures r.Some? ==> IsRest(r.value.rest, c.rest) && ErrorFree(Consumed(c.rest, r.value.rest))
    ensures r.Some? ==> forall k :: k in c.details ==> k in r.value.details && r.value.details[k] == c.details[k]
    ensures r.Some? ==> forall k :: k in r.value.details ==> k in c.details || k in DetailNames(rules)
    decreases |rules|
  {
    if |rules| == 0 then
      assert Consumed(c.rest, c.rest) == [];
      Some(c)
    else
      var d := rules[0];
      var next := rules[1..];
      assert forall k :: k in DetailNames(next) ==> k in DetailNames(rules) by {
        forall k | k in DetailNames(next) ensures k in DetailNames(rules) {
          var i :| 0 <= i < |next| && next[i].name == k;
          assert rules[i + 1].name == k;
        }
      }
      if !DetailMatches(d.config, c.cur) || d.name in c.details then ApplyDetails(next, c)
      else if d.config.attributeToGet != "" then
        var v := SentinelLookup(c.cur, d.config.attributeToGet).value;
        ApplyDetails(next, c.(details := c.details[d.name := v]))
      else match SeekText(d.config, c.last, c.rest)
        case Stuck => None
        case Stayed =>
          var cur := Reread(c.last);
          ApplyDetails(next, c.(cur := cur, details := c.details[d.name := Render(cur)]))
        case Moved(t, rest) =>
          var r := ApplyDetails(next, Cursor(t, t, rest, c.details[d.name := Render(t)]));
          if r.Some? then
            ErrorFreeTrans(r.value.rest, rest, c.rest);
            r
          else r
  }

  /** How the parse of one item ends: with the details found and the unread
      stream, or in a seek that never ends. */
  datatype Parse = Parsed(details: map<string, string>, rest: seq<Token>) | Exhausted

  /** The main loop of parseTokenForItemDetails (lines 55-97). Details
      already set are kept and new ones come from the item's rules. The
      loop stops at the stuck end of the stream or right after an end tag;
      ParseLoopReadsElement shows which end tag when no seek intervenes. */
  function ParseLoop(stack: TokenStack.Stack, s: seq<Token>, tags: set<string>, rule: ItemRule,
                     details: map<string, string>): (r: Parse)
    ensures r.Parsed? ==> IsRest(r.rest, s)
    ensures r.Parsed? ==> forall k :: k in details ==> k in r.details && r.details[k] == details[k]
    ensures r.Parsed? ==> forall k :: k in r.details ==> k in details || k in DetailNames(rule.details)
    ensures r.Parsed? && |stack| > 0 ==> Next(r.rest).token.Error? || EndedByEndTag(s, r.rest)
    ensures |stack| == 0 ==> r == Parsed(details, s)
    decreases |s|
  {
    if |stack| == 0 then Parsed(details, s)
    else
      var st := Next(s);
      match st.token
      case StartTag(name, _) =>
        var stack' := TokenStack.Push(stack, st.token);
        if name in tags then
          match ApplyDetails(rule.details, Cursor(st.token, st.token, st.rest, details))
          case None => Exhausted
          case Some(c) =>
            var r := ParseLoop(stack', c.rest, tags, rule, c.details);
            if r.Parsed? then
              StepRest(s, c.rest, r.rest);
              r
            else r
        else
          var r := ParseLoop(stack', st.rest, tags, rule, details);
          if r.Parsed? then
            StepRest(s, st.rest, r.rest);
            r
          else r
      case EndTag(_) =>
        var r := ParseLoop(TokenStack.Pop(stack).stack, st.rest, tags, rule, details);
        if r.Parsed? then
          StepRest(s, st.rest, r.rest);
          r
        else r
      case Error => Parsed(details, s)
      case _ =>
        var r := ParseLoop(stack, st.rest, tags, rule, details);
        if r.Parsed? then
          StepRest(s, st.rest, r.rest);
          r
        else r
  }

  /** No start tag of `s` is one the detail rules name. */
  predicate NoDetailStart(s: seq<Token>, tags: set<string>) {
    forall i :: 0 <= i < |s| && s[i].StartTag? ==> s[i].name !in tags
  }

  /** On a stream whose start tags the detail rules do not name, the loop
      never seeks, keeps the details, and reads exactly the element: up to
      the end tag that closes the last open tag, or all of the readable
      stream when none does. */
  lemma {:induction false} ParseLoopReadsElement(stack: TokenStack.Stack, s: seq<Token>, tags: set<string>,
                                                 rule: ItemRule, details: map<string, string>)
    requires NoDetailStart(s, tags)
    ensures var r := ParseLoop(stack, s, tags, rule, details);
            r.Parsed? && r.details == details && ReadsElement(|stack|, s, Consumed(s, r.rest))
    decreases |s|
  {
    var r := ParseLoop(stack, s, tags, rule, details);
    if |stack| == 0 || Next(s).token.Error? {
      assert Consumed(s, r.rest) == [];
      ReadsNothing(|stack|, s);
    } else {
      var t := s[0];
      var stack' := if t.StartTag? then TokenStack.Push(stack, t)
                    else if t.EndTag? then TokenStack.Pop(stack).stack else stack;
      assert |stack'| == |stack| + Delta(t);
      assert NoDetailStart(s[1..], tags) by {
        forall i | 0 <= i < |s[1..]| && s[1..][i].StartTag? ensures s[1..][i].name !in tags {
          assert s[1..][i] == s[i + 1];
        }
      }
      ParseLoopReadsElement(stack', s[1..], tags, rule, details);
      assert r == ParseLoop(stack', s[1..], tags, rule, details);
      ConsumedStep(s, r.rest);
      ReadsElementStep(|stack|, s, Consumed(s[1..], r.rest));
    }
  }

  /** An item seeded by a start tag, on a stream without detail start tags,
      ends at the end tag that closes the seed, or reads to the stuck end
      of the stream. */
  lemma ItemReadsElement(token: Token, s: seq<Token>, rule: ItemRule)
    requires token.StartTag? && NoDetailStart(s, DetailTags(rule.details))
    ensures var r := ParseTokenForItemDetails(token, s, rule);
            r.ItemParse? && r.item.details == map[] && ReadsElement(1, s, Consumed(s, r.rest))
  {
    ParseLoopReadsElement(TokenStack.Push([], token), s, DetailTags(rule.details), rule, map[]);
  }

  /** An item, the error, and the unread stream; or a parse that never
      ends. */
  datatype ItemParse = ItemParse(item: Item, err: Status, rest: seq<Token>) | Hang

  /** parseTokenForItemDetails: only a start tag seeds a parse. The item is
      named after the rule, carries no URL yet, and has details only under
      the rule's detail names. */
  function ParseTokenForItemDetails(token: Token, s: seq<Token>, rule: ItemRule): (r: ItemParse)
    ensures !token.StartTag? ==> r == ItemParse(Item(rule.itemName, None, map[]), Failed(Unnamed), s)
    ensures token.StartTag? ==> r.Hang? || r.err == Nil
    ensures r.ItemParse? ==> IsRest(r.rest, s)
    ensures r.ItemParse? ==> r.item.itemName == rule.itemName && r.item.url == None
                             && r.item.details.Keys <= DetailNames(rule.details)
  {
    if !token.StartTag? then ItemParse(Item(rule.itemName, None, map[]), Failed(Unnamed), s)
    else
      var tags := DetailTags(rule.details);
      match ParseLoop(TokenStack.Push([], token), s, tags, rule, map[])
      case Parsed(d, rest) => ItemParse(Item(rule.itemName, None, d), Nil, rest)
      case Exhausted => Hang
  }

  /** Whether a container rule applies to a token (line 24). The second
      alternative ignores the tag. */
  predicate ContainerMatches(t: Token, cfg: ExtractConfig) {
    || (t.Data() == cfg.tag && SentinelLookup(t, cfg.attribute).value == cfg.attributeValue)
    || (cfg.attribute == "" && cfg.attributeValue == "")
  }

  /** `i` is the first container rule that applies to `t`. */
  predicate FirstMatch(t: Token, rules: seq<ItemRule>, i: int) {
    && 0 <= i < |rules| && ContainerMatches(t, rules[i].itemToGet)
    && forall j :: 0 <= j < i ==> !ContainerMatches(t, rules[j].itemToGet)
  }

  /** The result when no item is found: the zero Item and an error. */
  const NoItem: Item := Item("", None, map[])

  /** A parse whose own error is dropped by the caller. */
  function Accepted(p: ItemParse): ItemParse {
    match p
    case ItemParse(item, _, rest) => ItemParse(item, Nil, rest)
    case Hang => Hang
  }

  function FirstRule(t: Token, s: seq<Token>, rules: seq<ItemRule>): (r: ItemParse)
    ensures (forall i :: 0 <= i < |rules| ==> !ContainerMatches(t, rules[i].itemToGet)) ==>
              r == ItemParse(NoItem, Failed(Unnamed), s)
    ensures forall i :: FirstMatch(t, rules, i) ==> r == Accepted(ParseTokenForItemDetails(t, s, rules[i]))
    ensures r.ItemParse? ==> IsRest(r.rest, s)
    ensures r.ItemParse? && r.err != Nil ==> r.rest == s
    decreases |rules|
  {
    if |rules| == 0 then ItemParse(NoItem, Failed(Unnamed), s)
    else if ContainerMatches(t, rules[0].itemToGet) then
      assert forall i :: FirstMatch(t, rules, i) ==> i == 0;
      Accepted(ParseTokenForItemDetails(t, s, rules[0]))
    else
      var r := FirstRule(t, s, rules[1..]);
      assert forall i :: FirstMatch(t, rules, i) ==> FirstMatch(t, rules[1..], i - 1);
      r
  }

  /** ExtractItemWithScrapItemConfiguration: for a token whose tag is an
      item tag, the parse of the first container rule that applies, without
      error; otherwise the zero Item and an error. */
  function ExtractItem(t: Token, s: seq<Token>, itemTags: set<string>, rules: seq<ItemRule>): (r: ItemParse)
    ensures t.Data() !in itemTags ==> r == ItemParse(NoItem, Failed(Unnamed), s)
    ensures (forall i :: 0 <= i < |rules| ==> !ContainerMatches(t, rules[i].itemToGet)) ==>
              r == ItemParse(NoItem, Failed(Unnamed), s)
    ensures t.Data() in itemTags ==>
              forall i :: FirstMatch(t, rules, i) ==> r == Accepted(ParseTokenForItemDetails(t, s, rules[i]))
    ensures r.ItemParse? ==> IsRest(r.rest, s)
    ensures r.ItemParse? && r.err != Nil ==> r.rest == s
  {
    if t.Data() in itemTags then FirstRule(t, s, rules) else ItemParse(NoItem, Failed(Unnamed), s)
  }

  /** A container rule with no attribute and no value applies to every
      token, whatever its tag. */
  lemma {:induction false} BlankContainerRuleMatchesAll(t: Token, s: seq<Token>, itemTags: set<string>, rule: ItemRule)
    requires rule.itemToGet.attribute == "" && rule.itemToGet.attributeValue == ""
    requires t.StartTag? && t.Data() in itemTags
    ensures ExtractItem(t, s, itemTags, [rule]).ItemParse? ==> ExtractItem(t, s, itemTags, [rule]).err == Nil
    ensures ExtractItem(t, s, itemTags, [rule]) == Accepted(ParseTokenForItemDetails(t, s, rule))
  {
    assert FirstMatch(t, [rule], 0);
  }

  /** A detail rule with an attribute to get stores that attribute of the
      matched tag, as the sentinel lookup returns it. */
  lemma {:induction false} DetailFromAttribute(d: DetailRule, next: seq<DetailRule>, c: Cursor)
    requires DetailMatches(d.config, c.cur) && d.name !in c.details && d.config.attributeToGet != ""
    requires ApplyDetails([d] + next, c).Some?
    ensures ApplyDetails([d] + next, c).value.details[d.name] == SentinelLookup(c.cur, d.config.attributeToGet).value
  {
    assert ([d] + next)[0] == d && ([d] + next)[1..] == next;
  }

  /** A detail rule without an attribute to get stores the text token its
      seek reaches: the (SkipToken+1)-th text after the tag for a positive
      SkipToken, the next text for zero; and the parse never ends when the
      stream runs out of texts first. */
  lemma {:induction false} DetailFromText(d: DetailRule, next: seq<DetailRule>, c: Cursor)
    requires DetailMatches(d.config, c.cur) && d.name !in c.details && d.config.attributeToGet == ""
    requires d.config.skipToken > 0 || (d.config.skipToken == 0 && !c.last.Text?)
    ensures var k: nat := if d.config.skipToken > 0 then d.config.skipToken else 0;
            match SkipTexts(c.rest, k)
            case Moved(t, _) =>
              ApplyDetails([d] + next, c).Some? ==> ApplyDetails([d] + next, c).value.details[d.name] == Render(t)
            case Stuck => ApplyDetails([d] + next, c).None?
            case Stayed => false
  {
    assert ([d] + next)[0] == d && ([d] + next)[1..] == next;
  }

  /** A detail that is set is never overwritten by a later start tag. */
  lemma {:induction false} FirstDetailWins(d: DetailRule, c: Cursor)
    requires d.name in c.details
    ensures ApplyDetails([d], c) == Some(c)
  {
    assert [d][1..] == [];
  }
}

/** Item extraction of the old scraper (webCrawler/webScraper/itemExtractor.go):
    no first-wins guard, no attribute to get, no SkipToken, and the parsed
    item is thrown away. */
module LegacyItemExtract {
  import opened Outcomes
  import opened Html
  import opened Attributes
  import opened LegacyRules
  import TokenStack
  import ItemExtract
  import Rules

  /** generateItemDetailsTagsToCheckMap (old): an error for an item without
      details, and the detail tags otherwise. */
  function LegacyDetailTags(details: seq<LegacyDetailRule>): (r: Ret<set<string>>)
    ensures |details| == 0 ==> !r.Ok() && r.value == {}
    ensures |details| > 0 ==> r.Ok()
    ensures forall i :: 0 <= i < |details| ==> details[i].config.tag in r.value
    ensures forall x :: x in r.value ==> exists i :: 0 <= i < |details| && details[i].config.tag == x
    decreases |details|
  {
    if |details| == 0 then Ret({}, Failed(Unnamed))
    else
      var rest := LegacyDetailTags(details[1..]).value;
      assert forall x :: x in rest ==> exists i :: 1 <= i < |details| && details[i].config.tag == x by {
        forall x | x in rest ensures exists i :: 1 <= i < |details| && details[i].config.tag == x {
          var j :| 0 <= j < |details[1..]| && details[1..][j].config.tag == x;
          assert details[j + 1].config.tag == x;
        }
      }
      Ret({details[0].config.tag} + rest, Nil)
  }

  /** Whether an old detail or container rule applies to the current token:
      the tag and the attribute's lookup value must both agree. */
  predicate LegacyMatches(cfg: LegacyExtractConfig, cur: Token) {
    cfg.tag == cur.Data() && cfg.attributeValue == SentinelLookup(cur, cfg.attribute).value
  }

  /** The old detail loop (lines 71-82): every matching rule seeks the next
      text token and stores it, overwriting an earlier value. */
  function LegacyApplyDetails(rules: seq<LegacyDetailRule>, c: ItemExtract.Cursor): (r: Option<ItemExtract.Cursor>)
    ensures r.Some? ==> IsRest(r.value.rest, c.rest) && ErrorFree(Consumed(c.rest, r.value.rest))
    ensures r.Some? ==> c.details.Keys <= r.value.details.Keys
    ensures r.Some? ==> forall k :: k in r.value.details && k !in LegacyDetailNames(rules) ==>
                                      k in c.details && r.value.details[k] == c.details[k]
    decreases |rules|
  {
    if |rules| == 0 then
      assert Consumed(c.rest, c.rest) == [];
      Some(c)
    else
      var d := rules[0];
      var next := rules[1..];
      if !LegacyMatches(d.config, c.cur) then LegacyApplyDetails(next, c)
      else
        var seek := if !c.last.Text? then ItemExtract.SkipTexts(c.rest, 0) else ItemExtract.Stayed;
        match seek
        case Stuck => None
        case Stayed =>
          var cur := Reread(c.last);
          LegacyApplyDetails(next, c.(cur := cur, details := c.details[d.name := Render(cur)]))
        case Moved(t, rest) =>
          var r := LegacyApplyDetails(next, ItemExtract.Cursor(t, t, rest, c.details[d.name := Render(t)]));
          if r.Some? then
            ErrorFreeTrans(r.value.rest, rest, c.rest);
            r
          else r
  }

  /** The names of a list of old detail rules. */
  function LegacyDetailNames(details: seq<LegacyDetailRule>): (names: set<string>)
    ensures forall i :: 0 <= i < |details| ==> details[i].name in names
    ensures forall n :: n in names ==> exists i :: 0 <= i < |details| && details[i].name == n
    decreases |details|
  {
    if |details| == 0 then {}
    else
      var rest := LegacyDetailNames(details[1..]);
      assert forall n :: n in rest ==> exists i :: 1 <= i < |details| && details[i].name == n by {
        forall n | n in rest ensures exists i :: 1 <= i < |details| && details[i].name == n {
          var j :| 0 <= j < |details[1..]| && details[1..][j].name == n;
          assert details[j + 1].name == n;
        }
      }
      {details[0].name} + rest
  }

  datatype LegacyParse = LegacyParsed(details: map<string, string>, rest: seq<Token>) | LegacyExhausted

  /** The main loop of the old parseTokenForItemDetails (lines 64-94): it
      stops at the stuck end of the stream or right after an end tag;
      LegacyParseLoopReadsElement shows which end tag when no seek
      intervenes. */
  function LegacyParseLoop(stack: TokenStack.Stack, s: seq<Token>, tags: set<string>, rule: LegacyItemRule,
                           details: map<string, string>): (r: LegacyParse)
    ensures r.LegacyParsed? ==> IsRest(r.rest, s)
    ensures r.LegacyParsed? ==> details.Keys <= r.details.Keys
    ensures r.LegacyParsed? ==> r.details.Keys <= details.Keys + LegacyDetailNames(rule.details)
    ensures r.LegacyParsed? && |stack| > 0 ==> Next(r.rest).token.Error? || EndedByEndTag(s, r.rest)
    ensures |stack| == 0 ==> r == LegacyParsed(details, s)
    decreases |s|
  {
    if |stack| == 0 then LegacyParsed(details, s)
    else
      var st := Next(s);
      match st.token
      case StartTag(name, _) =>
        var stack' := TokenStack.Push(stack, st.token);
        if name in tags then
          match LegacyApplyDetails(rule.details, ItemExtract.Cursor(st.token, st.token, st.rest, details))
          case None => LegacyExhausted
          case Some(c) =>
            var r := LegacyParseLoop(stack', c.rest, tags, rule, c.details);
            if r.LegacyParsed? then
              StepRest(s, c.rest, r.rest);
              r
            else r
        else
          var r := LegacyParseLoop(stack', st.rest, tags, rule, details);
          if r.LegacyParsed? then
            StepRest(s, st.rest, r.rest);
            r
          else r
      case EndTag(_) =>
        var r := LegacyParseLoop(TokenStack.Pop(stack).stack, st.rest, tags, rule, details);
        if r.LegacyParsed? then
          StepRest(s, st.rest, r.rest);
          r
        else r
      case Error => LegacyParsed(details, s)
      case _ =>
        var r := LegacyParseLoop(stack, st.rest, tags, rule, details);
        if r.LegacyParsed? then
          StepRest(s, st.rest, r.rest);
          r
        else r
  }

  /** On a stream whose start tags the old detail rules do not name, the
      old loop keeps the details and reads exactly the element. */
  lemma {:induction false} LegacyParseLoopReadsElement(stack: TokenStack.Stack, s: seq<Token>, tags: set<string>,
                                                       rule: LegacyItemRule, details: map<string, string>)
    requires ItemExtract.NoDetailStart(s, tags)
    ensures var r := LegacyParseLoop(stack, s, tags, rule, details);
            r.LegacyParsed? && r.details == details && ReadsElement(|stack|, s, Consumed(s, r.rest))
    decreases |s|
  {
    var r := LegacyParseLoop(stack, s, tags, rule, details);
    if |stack| == 0 || Next(s).token.Error? {
      assert Consumed(s, r.rest) == [];
      ReadsNothing(|stack|, s);
    } else {
      var t := s[0];
      var stack' := if t.StartTag? then TokenStack.Push(stack, t)
                    else if t.EndTag? then TokenStack.Pop(stack).stack else stack;
      assert |stack'| == |stack| + Delta(t);
      assert ItemExtract.NoDetailStart(s[1..], tags) by {
        forall i | 0 <= i < |s[1..]| && s[1..][i].StartTag? ensures s[1..][i].name !in tags {
          assert s[1..][i] == s[i + 1];
        }
      }
      LegacyParseLoopReadsElement(stack', s[1..], tags, rule, details);
      assert r == LegacyParseLoop(stack', s[1..], tags, rule, details);
      ConsumedStep(s, r.rest);
      ReadsElementStep(|stack|, s, Consumed(s[1..], r.rest));
    }
  }

  datatype LegacyItemParse = LegacyItemParse(item: LegacyItem, err: Status, rest: seq<Token>) | LegacyHang

  /** parseTokenForItemDetails (old): only a start tag seeds a parse, and
      the item takes its name and URL from the rule. An item without details
      gets no detail tags, since the generator's error is dropped. */
  function LegacyParseTokenForItemDetails(token: Token, s: seq<Token>, rule: LegacyItemRule): (r: LegacyItemParse)
    ensures !token.StartTag? ==> r == LegacyItemParse(LegacyItem("", "", map[]), Failed(Unnamed), s)
    ensures token.StartTag? ==> r.LegacyHang? || r.err == Nil
    ensures r.LegacyItemParse? ==> IsRest(r.rest, s)
    ensures r.LegacyItemParse? && token.StartTag? ==>
              r.item.itemName == rule.itemName && r.item.url == rule.url
              && r.item.details.Keys <= LegacyDetailNames(rule.details)
  {
    if !token.StartTag? then LegacyItemParse(LegacyItem("", "", map[]), Failed(Unnamed), s)
    else
      var tags := LegacyDetailTags(rule.details).value;
      match LegacyParseLoop(TokenStack.Push([], token), s, tags, rule, map[])
      case LegacyParsed(d, rest) => LegacyItemParse(LegacyItem(rule.itemName, rule.url, d), Nil, rest)
      case LegacyExhausted => LegacyHang
  }

  /** An old item seeded by a start tag, on a stream without detail start
      tags, ends at the end tag that closes the seed, or reads to the stuck
      end of the stream. */
  lemma LegacyItemReadsElement(token: Token, s: seq<Token>, rule: LegacyItemRule)
    requires token.StartTag? && ItemExtract.NoDetailStart(s, LegacyDetailTags(rule.details).value)
    ensures var r := LegacyParseTokenForItemDetails(token, s, rule);
            r.LegacyItemParse? && r.item.details == map[] && ReadsElement(1, s, Consumed(s, r.rest))
  {
    LegacyParseLoopReadsElement(TokenStack.Push([], token), s, LegacyDetailTags(rule.details).value, rule, map[]);
  }

  /** `i` is the first old container rule that applies to `t`. */
  predicate LegacyFirstMatch(t: Token, rules: seq<LegacyItemRule>, i: int) {
    && 0 <= i < |rules| && LegacyMatches(rules[i].itemToGet, t)
    && forall j :: 0 <= j < i ==> !LegacyMatches(rules[j].itemToGet, t)
  }

  /** The stream left by a parse, or `None` for a parse that never ends. */
  function RestOf(p: LegacyItemParse): Option<seq<Token>> {
    match p
    case LegacyItemParse(_, _, rest) => Some(rest)
    case LegacyHang => None
  }

  /** What is left of the stream after the old item extraction, or `None`
      for a parse that never ends. */
  function LegacyFirstRule(t: Token, s: seq<Token>, url: string, rules: seq<LegacyItemRule>): (r: Option<seq<Token>>)
    ensures (forall i :: 0 <= i < |rules| ==> !LegacyMatches(rules[i].itemToGet, t)) ==> r == Some(s)
    ensures forall i :: LegacyFirstMatch(t, rules, i) ==>
              r == RestOf(LegacyParseTokenForItemDetails(t, s, rules[i].(url := url)))
    ensures r.Some? ==> IsRest(r.value, s)
    decreases |rules|
  {
    if |rules| == 0 then Some(s)
    else if LegacyMatches(rules[0].itemToGet, t) then
      assert forall i :: LegacyFirstMatch(t, rules, i) ==> i == 0;
      RestOf(LegacyParseTokenForItemDetails(t, s, rules[0].(url := url)))
    else
      var r := LegacyFirstRule(t, s, url, rules[1..]);
      assert forall i :: LegacyFirstMatch(t, rules, i) ==> LegacyFirstMatch(t, rules[1..], i - 1);
      r
  }

  /** ExtractItemWithScrapItemConfiguration (old): always a nil error; it
      parses for the first rule whose tag and attribute value both agree
      with the token, consuming the item's tokens, and drops the item. */
  function LegacyExtractItem(t: Token, s: seq<Token>, url: string, itemTags: set<string>,
                             rules: seq<LegacyItemRule>): (r: Option<seq<Token>>)
    ensures t.Data() !in itemTags ==> r == Some(s)
    ensures (forall i :: 0 <= i < |rules| ==> !LegacyMatches(rules[i].itemToGet, t)) ==> r == Some(s)
    ensures t.Data() in itemTags ==>
              forall i :: LegacyFirstMatch(t, rules, i) ==>
                r == RestOf(LegacyParseTokenForItemDetails(t, s, rules[i].(url := url)))
    ensures r.Some? ==> IsRest(r.value, s)
  {
    if t.Data() in itemTags then LegacyFirstRule(t, s, url, rules) else Some(s)
  }

  /** The current parser keeps the first value of a detail; the old one
      overwrites it with the text that follows a later matching tag. */
  lemma {:induction false} FirstWinsVersusOverwrite(d: Rules.DetailRule, ld: LegacyDetailRule, c: ItemExtract.Cursor, t: Token, rest: seq<Token>)
    requires d.name == ld.name && d.name in c.details
    requires ld.config == LegacyExtractConfig(d.config.tag, d.config.attribute, d.config.attributeValue, "")
    requires LegacyMatches(ld.config, c.cur) && !c.last.Text?
    requires ItemExtract.SkipTexts(c.rest, 0) == ItemExtract.Moved(t, rest)
    ensures ItemExtract.ApplyDetails([d], c) == Some(c)
    ensures LegacyApplyDetails([ld], c).Some? && d.name in LegacyApplyDetails([ld], c).value.details
    ensures LegacyApplyDetails([ld], c).value.details[d.name] == Render(t)
  {
    ItemExtract.FirstDetailWins(d, c);
    assert [ld][1..] == [];
  }
}
