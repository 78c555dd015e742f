# web-crawler decision logic in Dafny

This project models the sequential decision logic of the Go web crawler
cody6750/web-crawler and proves properties of it. The crawler fetches a page,
tokenizes its HTML, extracts links and items by configurable rules, filters
the links through a blacklist built from robots.txt, and hands new links to a
pool of workers until no link is pending. A small command-line front end,
codyWebAPI, parses search requests and builds Amazon URLs.

The repository holds two generations of the scraper and crawler:

- `pkg/` is the current code. Its modules here are `UrlFormat`, `Attributes`,
  `UrlExtract`, `ItemExtract`, `Scraper`, `Blacklist`, `Validate`,
  `Emptiness`, `Crawler` and `Robots`.
- `webCrawler/` is the older code. Its modules carry a `Legacy` prefix:
  `LegacyUrlFormat`, `LegacyUrlExtract`, `LegacyItemExtract`,
  `LegacyScraper`, `LegacyCrawler`, and the `Legacy*` members of
  `Emptiness` and `Rules`. The containers `TokenStack` and `StringQueue` also
  come from it.

Where the two versions differ, a lemma states the difference. The current
guard of formatURL implies the old one, and not conversely. The current item
parser keeps the first value of a detail, while the old one overwrites it.
The old scraper drops a repeated link that the current one keeps. The old
dedup processor forgets to decrement the in-flight counter.

How the model represents the program:

- **HTML.** A page is a finite `seq<Token>` (module `Html`). Reading past
  the end gives an `Error` token, and an `Error` is never stepped over, just
  as the x/net/html tokenizer keeps returning it.
- **Non-terminating loops.** Loops that in Go would spin forever on that
  `Error` return a distinct outcome: `Hang`, `Stuck`, `Exhausted` or
  `LegacyHang`. They do not assume their input away.
- **Go `(value, error)` pairs** are `Outcomes.Ret`. The value is kept on
  error, because the code returns meaningful values alongside errors.
- **"Seen" maps** are sets passed in and returned.
- **Rule structs** are datatypes (modules `Rules` and `LegacyRules`).
- **Go map iteration** (detail rules, tag maps) is taken in the order of
  the given sequence.
- **Concurrency.** The goroutines of the crawler are replaced by one
  sequential schedule (`Crawler.CrawlLoop`). In it, the dedup processor and
  the in-flight monitor are folds over the signals the workers would send.
- **The fetch** of a page is a function parameter, `discover`.

The code is in the middle of a refactor and does not type-check as a whole.
Each function is modelled from its own body, and each call site as it reads:

- pkg/webScraper/urlExtractor.go:45 uses the two-valued `formatURL` as
  single-valued. The model takes its string part.
- pkg/webScraper/itemExtractor.go:23 calls `getHTTPAttributeValueFromToken`,
  which exists only in webCrawler/webScraper/httpExtractor.go. The current
  item matcher therefore uses that sentinel ("empty string") lookup.
- pkg/webScraper/webScraper.go:111 calls `ExtractURLWithScrapURLConfiguration`.
  The model uses `ExtractURLWithScrapURLConfig`, the only function of that
  role in the package.
- The old `Scrape` (webCrawler/webScraper/webScraper.go:98) calls
  `ExtractURL` with two arguments; its declaration
  (webCrawler/webScraper/urlExtractor.go:16) takes three. The third is a
  slice that the function only appends to locally, so
  `LegacyUrlExtract.LegacyExtractURL` leaves it out.
- The same `Scrape` (webCrawler/webScraper/webScraper.go:103) calls
  `ExtractURLWithScrapURLConfiguration`, which the old package does not
  declare. The model uses the nearest function,
  `ExtractURLWithScrapConfiguration` (webCrawler/webScraper/urlExtractor.go:27),
  as `LegacyUrlExtract.LegacyExtractURLWithRules`. That function has five
  parameters and takes `ScrapeConfiguration` values. The model drops the
  slice argument and reads each `ScrapeURLConfiguration`'s extraction and
  format settings as that configuration's.
  `LegacyScraper.LegacyExtractFrom` chooses between the two extractors by
  `IsEmpty` of the URL configurations, as lines 96-107 do.
- The old `Scrape` (webCrawler/webScraper/webScraper.go:113) expects an item
  from `ExtractItemWithScrapItemConfiguration`, which returns only an error.
  The model has that extractor consume the item's tokens and discard the
  item. Scrape then records a zero item carrying the most recent URL object.
- `parseTokenForItemDetails` (pkg/webScraper/itemExtractor.go:93-95) checks
  a package-level `err`. That variable is nil whenever the parser is reached
  from Scrape, so the branch is dead and is not modelled.

## Model

| member | source | states |
|---|---|---|
| UrlFormat.ReplaceStep | pkg/webScraper/urlFormater.go:15-17 | the substitution is the identity unless both ReplaceOldString and ReplaceNewString are set |
| UrlFormat.Reshape | pkg/webScraper/urlFormater.go:15-29 | the reshaped URL starts with PrefixToAdd and ends with SuffixToAdd |
| UrlFormat.FormatURL | pkg/webScraper/urlFormater.go:9-34 | an all-empty configuration returns the URL with no error; a URL failing the prefix, suffix or contains guard gives "" with an error; a match succeeds with PrefixToAdd in front and SuffixToAdd behind |
| UrlFormat.ReshapeZero | pkg/webScraper/urlFormater.go:15-29 | the pipeline with an all-empty configuration leaves every URL unchanged |
| UrlFormat.PrefixOnly | pkg/webScraper/urlFormater.go:14-26 | with only PrefixExist and PrefixToAdd set, a URL starting with PrefixExist becomes PrefixToAdd followed by the URL |
| UrlFormat.ReplaceStepAbsent | pkg/webScraper/urlFormater.go:15-17 | replacing a string the URL does not contain changes nothing |
| UrlFormat.RejectedWithoutReplaced | pkg/webScraper/urlFormater.go:14-32 | a URL lacking a non-empty ReplaceOldString is rejected with "" and an error |
| UrlFormat.ExampleReshaped | pkg/webScraper/webScraper_test.go:205-218 | "ReplacePrefix/RTX_3070/ReplaceSuffix" becomes "amazon.com/RTX_3080/checkout" |
| UrlFormat.ExampleRejected | pkg/webScraper/webScraper_test.go:220-235 | the all-"DOESNOTWORK" configuration yields "" |
| UrlFormat.ReshapeMiddle | pkg/webScraper/urlFormater.go:15-29 | a URL whose single occurrence of ReplaceOldString sits between head and tail comes out as PrefixToAdd, the trimmed middle and SuffixToAdd |
| UrlFormat.TrimThenAdd | pkg/webScraper/urlFormater.go:18-29 | after substitution, the prefix and suffix to remove are cut off and replaced by the ones to add |
| UrlFormat.ReplaceInMiddle | pkg/webScraper/urlFormater.go:16 | a single occurrence of the old string, preceded by text that cannot overlap it, is replaced in place |
| LegacyUrlFormat.LegacyFormatURL | webCrawler/webScraper/urlFormater.go:5-26 | when PrefixExist, SuffixExist and ReplaceOldString all occur in the URL, the result is the same pipeline as the current version; otherwise "" with errFormatURL |
| LegacyUrlFormat.IsEmptyFormatURLConfiguration | webCrawler/webScraper/urlFormater.go:28-33 | true exactly when every field of the configuration is empty |
| LegacyUrlFormat.LegacyEmptyConfigIsIdentity | webCrawler/webScraper/urlFormater.go:5-26 | the all-empty configuration returns the URL unchanged with no error |
| LegacyUrlFormat.GuardImpliesLegacyGuard | webCrawler/webScraper/urlFormater.go:6 | the current HasPrefix/HasSuffix guard implies the old containment guard |
| LegacyUrlFormat.CurrentSuccessAgreesWithLegacy | pkg/webScraper/urlFormater.go:14-33 | whenever the current version succeeds, the old version returns the same string |
| LegacyUrlFormat.LegacyGuardIsLooser | webCrawler/webScraper/urlFormater.go:6 | the converse fails: "ab" with PrefixExist "b" passes the old guard and fails the current one |
| LegacyUrlFormat.LegacyExamples | webCrawler/webScraper/webScraper_test.go:204-233 | both worked examples behave in the old version as in the current one |
| Attributes.ScanAttrs | pkg/webScraper/httpExtractor.go:19-24 | the scan returns exactly when some attribute has the key, and then with the value of the first such attribute |
| Attributes.ExtractAttributeValue | pkg/webScraper/httpExtractor.go:18-29 | the first attribute with the key gives its value with no error; an absent key gives "" with an error, so the final return is never reached |
| Attributes.SentinelLookup | webCrawler/webScraper/httpExtractor.go:15-29 | an empty name or an absent key gives "empty string" with errEmptyParameter; otherwise the value of the first attribute with the key, with no error (webCrawler/httpAttributeExtractor.go:20-34 is an identical copy) |
| Attributes.SentinelLookupEmptyVersusAbsent | webCrawler/httpAttributeExtractor.go:24-32 | a present attribute with an empty value gives "" with no error, which differs from the result for a token without attributes |
| Attributes.ClassLookupExample | webCrawler/webScraper/webScraper_test.go:148-159 | looking up "class" on a token with class "a-link-normal" gives "a-link-normal" with no error |
| Attributes.LastValue | codyWebAPI/website/amazon/amazon.go:84-88 | the loop ends with the value of the last attribute with the key, or its start value when there is none |
| Attributes.LastMatchLookup | codyWebAPI/website/amazon/amazon.go:83-93 | the Amazon lookup returns the value of the last attribute with the key, and an error exactly when that value is "" |
| Attributes.FirstAndLastDiffer | codyWebAPI/website/amazon/amazon.go:84-88 | on a token with two hrefs the current lookup gives the first and the Amazon lookup the last |
| UrlExtract.IsDuplicateURL | pkg/webScraper/urlExtractor.go:82-88 | reports a duplicate exactly when the URL was already in the set; afterwards the URL is in the set and nothing else was added |
| UrlExtract.ExtractURLFromHTML | pkg/webScraper/urlExtractor.go:71-80 | succeeds exactly when the first href is non-empty, returning it; otherwise "" with an error |
| UrlExtract.ExtractURL | pkg/webScraper/urlExtractor.go:22-28 | never fails, returns what extractURLFromHTML returns, and records a non-empty href in the seen-set |
| UrlExtract.ExtractURLUsingConfig | pkg/webScraper/urlExtractor.go:59-69 | an absent configured attribute gives an error; a value containing AttributeValue gives the href; otherwise the attribute's own value with an error |
| UrlExtract.WithRules | pkg/webScraper/urlExtractor.go:32-57 | never an error; an empty rule list gives ""; without reshaping rules the seen-set is untouched; when every rule reshapes, a non-empty result was unseen before and is now recorded |
| UrlExtract.ExtractURLWithRules | pkg/webScraper/urlExtractor.go:31-58 | never an error, and the seen-set gains at most the returned URL, which it did not hold before |
| UrlExtract.FirstUsableRuleWins | pkg/webScraper/urlExtractor.go:33-56 | the first rule that yields a URL decides: without a reshape its URL is returned and the seen-set is not consulted; with a fresh reshaped URL that URL is returned and recorded |
| UrlExtract.UnusableRuleIsSkipped | pkg/webScraper/urlExtractor.go:33-56 | a rule yielding nothing, or a reshaped URL that is empty or seen, passes on to the next rule with its extracted URL carried along |
| UrlExtract.StaleURLCarriedOver | pkg/webScraper/urlExtractor.go:32-37 | a URL extracted by an earlier rule is returned by a later rule whose tag does not match, because ExtractedURL is never reset |
| UrlExtract.StaleURLExample | pkg/webScraper/urlExtractor.go:32-51 | concretely, "/a" is returned although its reshaped form "h/a" was already seen |
| LegacyUrlExtract.IsEmptyToken | webCrawler/webScraper/urlExtractor.go:109-114 | true exactly for the error token and the tokens with empty name or text and no attributes |
| LegacyUrlExtract.LegacyExtractURLFromHTML | webCrawler/webScraper/urlExtractor.go:74-87 | rejects an empty token and a token without a non-empty first href; otherwise returns that href |
| LegacyUrlExtract.PlainExtractionAgrees | webCrawler/webScraper/urlExtractor.go:74-87 | the old href extraction returns exactly what the current one does |
| LegacyUrlExtract.LegacyExtractURL | webCrawler/webScraper/urlExtractor.go:16-24 | no error exactly for a non-empty href not seen before; a non-empty href is recorded either way |
| LegacyUrlExtract.LegacyExtractURLUsingConfig | webCrawler/webScraper/urlExtractor.go:60-72 | an empty configuration or a value not containing AttributeValue gives "" with an error; otherwise the href, or the sentinel when there is no href |
| LegacyUrlExtract.SentinelBecomesURL | webCrawler/webScraper/urlExtractor.go:60-72 | a token without href that passes the check yields the URL "empty string" |
| LegacyUrlExtract.LegacyWithRules | webCrawler/webScraper/urlExtractor.go:27-59 | an error comes with "" and an untouched seen-set, and an empty rule list gives one; without reshaping rules a success is non-empty and the seen-set is untouched; otherwise the seen-set gains at most the returned URL, unseen before |
| LegacyUrlExtract.LegacyExtractURLWithRules | webCrawler/webScraper/urlExtractor.go:27-59 | an error leaves the seen-set as it was; otherwise it gains at most the returned URL, which it did not hold |
| LegacyUrlExtract.LegacyEmptyReshapeAccepted | webCrawler/webScraper/urlExtractor.go:27-59 | a reshape that empties the URL is accepted with no error and "" is recorded as seen |
| ItemExtract.DetailTags | pkg/webScraper/itemExtractor.go:101-110 | exactly the tags of the detail rules |
| ItemExtract.SkipTexts | pkg/webScraper/itemExtractor.go:70-82 | reaches the (k+1)-th text token without reading an Error, or is stuck exactly when fewer text tokens remain |
| ItemExtract.ApplyDetails | pkg/webScraper/itemExtractor.go:62-89 | only reads forward without an Error, keeps every detail already set, and adds only names of the rules |
| ItemExtract.ParseLoop | pkg/webScraper/itemExtractor.go:55-97 | keeps earlier details, adds only rule names, and stops at an Error or right after an end tag |
| ItemExtract.ParseLoopReadsElement | pkg/webScraper/itemExtractor.go:55-96 | on a stream without detail start tags, the loop keeps the details and reads exactly up to the end tag that brings the open tags to zero, every shorter prefix leaving some open; when no end tag does, it reads the whole readable stream |
| ItemExtract.ItemReadsElement | pkg/webScraper/itemExtractor.go:54-98 | an item seeded by a start tag, on a stream without detail start tags, has no details and reads to the end tag closing the seed, or to the stuck end of the stream |
| ItemExtract.ParseTokenForItemDetails | pkg/webScraper/itemExtractor.go:33-99 | a seed that is not a start tag is rejected; otherwise the item has the rule's name, no URL and only detail names as keys, or the parse hangs |
| ItemExtract.FirstRule | pkg/webScraper/itemExtractor.go:22-30 | the parse of the first applicable container rule, with its error dropped; the zero item and an error when none applies |
| ItemExtract.ExtractItem | pkg/webScraper/itemExtractor.go:20-31 | the zero item and an error unless the tag is an item tag and some rule applies; then the parse of the first applicable rule |
| ItemExtract.BlankContainerRuleMatchesAll | pkg/webScraper/itemExtractor.go:24 | a container rule with no attribute and no value applies to any start tag whose tag is an item tag |
| ItemExtract.DetailFromAttribute | pkg/webScraper/itemExtractor.go:66-68 | with AttributeToGet set, the detail is that attribute of the matched tag |
| ItemExtract.DetailFromText | pkg/webScraper/itemExtractor.go:70-85 | otherwise the detail is the rendered (SkipToken+1)-th following text token, or there is no result when too few text tokens remain |
| ItemExtract.FirstDetailWins | pkg/webScraper/itemExtractor.go:65 | a detail already set is never overwritten |
| LegacyItemExtract.LegacyDetailTags | webCrawler/webScraper/itemExtractor.go:121-134 | an error for an empty detail list, otherwise exactly the detail tags |
| LegacyItemExtract.LegacyApplyDetails | webCrawler/webScraper/itemExtractor.go:71-82 | reads forward without an Error, keeps every existing key, and changes only names of the rules |
| LegacyItemExtract.LegacyParseLoop | webCrawler/webScraper/itemExtractor.go:64-91 | keeps existing keys, adds only rule names, and stops at an Error or right after an end tag |
| LegacyItemExtract.LegacyParseLoopReadsElement | webCrawler/webScraper/itemExtractor.go:64-91 | on a stream without detail start tags, the old loop keeps the details and reads exactly up to the end tag that brings the open tags to zero, or the whole readable stream when none does |
| LegacyItemExtract.LegacyItemReadsElement | webCrawler/webScraper/itemExtractor.go:62-94 | an old item seeded by a start tag, on a stream without detail start tags, has no details and reads to the end tag closing the seed, or to the stuck end of the stream |
| LegacyItemExtract.LegacyParseTokenForItemDetails | webCrawler/webScraper/itemExtractor.go:45-95 | a seed that is not a start tag is rejected; otherwise the item takes name and URL from the rule and only detail names as keys, or the parse hangs |
| LegacyItemExtract.LegacyFirstRule | webCrawler/webScraper/itemExtractor.go:31-36 | only the first matching rule is parsed, with the page URL filled in; with no match the stream is untouched |
| LegacyItemExtract.LegacyExtractItem | webCrawler/webScraper/itemExtractor.go:29-43 | a token whose tag is not an item tag consumes nothing; otherwise the first matching rule's parse decides how far the stream is read |
| LegacyItemExtract.FirstWinsVersusOverwrite | webCrawler/webScraper/itemExtractor.go:73-80 | for the same rule and a detail already set, the current parser keeps it and the old one overwrites it with the next text |
| TokenStack.Push | webCrawler/webScraper/tokenStack.go:11-13 | the token goes on top and every earlier element stays in place |
| TokenStack.Pop | webCrawler/webScraper/tokenStack.go:15-23 | an empty stack gives the zero token and false; otherwise the top element and true, with exactly that element removed |
| TokenStack.PushThenPop | webCrawler/webScraper/tokenStack.go:11-23 | popping after a push returns the pushed token and the original stack |
| StringQueue.Enqueue | webCrawler/webCrawlerController.go:13-15 | the string is appended at the back, everything else unchanged |
| StringQueue.EnqueueList | webCrawler/webCrawlerController.go:17-21 | the strings are appended in order behind the existing ones |
| StringQueue.Dequeue | webCrawler/webCrawlerController.go:22-29 | an empty queue gives "" and stays empty; otherwise the front element, removed exactly |
| StringQueue.FirstInFirstOut | webCrawler/webCrawlerController.go:13-29 | dequeuing after an enqueue returns the old front, or the new string when the queue was empty |
| StringQueue.EnqueueListThenDrain | webCrawler/webCrawlerController.go:17-29 | draining a queue built by enqueueList returns the list in order |
| Emptiness.IsEmpty | pkg/webScraper/isEmpty.go:6-23 | configurations are empty iff every field is zero; lists and maps iff their length is 0; any other type is not empty |
| Emptiness.LegacyIsEmpty | webCrawler/webScraper/isEmpty.go:4-19 | the same for the old types, except that the blacklist map, like every other type, is never empty |
| Emptiness.EmptinessIsShallow | pkg/webScraper/isEmpty.go:8-19 | a list holding one all-zero rule is not empty, and a configuration whose only non-zero field is SkipToken is not empty |
| Blacklist.ScanFindsPrefixes | pkg/webScraper/webScraper.go:199-212 | the segment loop succeeds exactly when some later path prefix, with or without a final slash, is a key |
| Blacklist.PathOfURL | pkg/webScraper/webScraper.go:193-197 | for "scheme//host/path" the part checked is exactly the path |
| Blacklist.IsBlackListedURLPath | pkg/webScraper/webScraper.go:191-214 | false without a third slash or with an empty blacklist; otherwise true iff some prefix "/s1/…/si" or "/s1/…/si/" of the path is a key |
| Blacklist.BlacklistMonotone | pkg/webScraper/webScraper.go:205-211 | adding keys never unblocks a URL |
| Blacklist.SegmentedURL | pkg/webScraper/webScraper.go:193-213 | for "scheme//host/s1/…/sn" the check is exactly whether some path prefix of s1…sn is blocked |
| Blacklist.AmazonCartExample | pkg/webScraper/webScraper_test.go:418-459 | "/gp/cart" blocks the cart page URL and not the URL without "cart" |
| Scraper.ItemTagSet | pkg/webScraper/webScraper.go:159-173 | exactly the tags of the item rules whose container configuration is not empty |
| Scraper.UrlTagSet | pkg/webScraper/webScraper.go:175-189 | exactly the tags of the URL rules whose extraction configuration is not empty |
| Scraper.GenerateItemTags | pkg/webScraper/webScraper.go:159-173 | an error for an empty rule list, otherwise the item tag set |
| Scraper.GenerateURLTags | pkg/webScraper/webScraper.go:175-189 | an error for an empty rule list, otherwise the URL tag set |
| Scraper.Keep | pkg/webScraper/webScraper.go:116-122 | a URL is kept iff it is non-empty, the blacklist is non-empty and the URL is not blacklisted; a kept URL is a child of the page, one level deeper with the page's depth limit |
| Scraper.ExtractFrom | pkg/webScraper/webScraper.go:104-115 | URL extraction never fails; without URL rules it is the plain href extraction |
| Scraper.StartTagStep | pkg/webScraper/webScraper.go:102-132 | one start tag only reads forward and only adds to what was gathered; without item rules it reads nothing and adds exactly the kept URL |
| Scraper.ScrapeLoop | pkg/webScraper/webScraper.go:97-138 | the loop extends what was gathered and returns the root URL; without item rules it always returns |
| Scraper.ScrapePage | pkg/webScraper/webScraper.go:69-139 | every returned URL is admissible, every item carries the page's own URL object, an empty blacklist returns no URLs, and no item rules means no items |
| Scraper.NoRulesGivesPlainLinks | pkg/webScraper/webScraper.go:97-138 | without rules the scrape is exactly the kept hrefs of the readable start tags, in order |
| Scraper.DuplicateLinksKept | pkg/webScraper/webScraper.go:104-122 | a page linking twice to "/a" yields two targets |
| LegacyScraper.LegacyItemTagSet | webCrawler/webScraper/webScraper.go:128-142 | exactly the tags of the rules whose ItemToGet is not empty |
| LegacyScraper.LegacyUrlTagSet | webCrawler/webScraper/webScraper.go:144-158 | exactly the tags of the URL rules whose extraction configuration is not empty |
| LegacyScraper.LegacyGenerateItemTags | webCrawler/webScraper/webScraper.go:128-142 | an error for an empty rule list, otherwise the item tag set |
| LegacyScraper.LegacyGenerateURLTags | webCrawler/webScraper/webScraper.go:144-158 | an error for an empty rule list, otherwise the URL tag set |
| LegacyScraper.LegacyExtractFrom | webCrawler/webScraper/webScraper.go:96-107 | an error leaves the seen-set alone; a success without URL rules is non-empty; the seen-set gains at most the fresh URL |
| LegacyScraper.LegacyStartTagStep | webCrawler/webScraper/webScraper.go:94-119 | one start tag reads forward, only adds, and keeps the invariant that targets are non-empty children and items point at one of them |
| LegacyScraper.LegacyScrapeLoop | webCrawler/webScraper/webScraper.go:89-125 | the loop returns the root URL, extends what was gathered and keeps that invariant; without item rules it always returns |
| LegacyScraper.LegacyScrapePage | webCrawler/webScraper/webScraper.go:60-126 | every URL is a non-empty child of the page with no blacklist check, every item's URL is nil or one of them, URLs are distinct without URL rules, and no item rules means no items |
| LegacyScraper.LegacyDuplicateLinkDropped | webCrawler/webScraper/webScraper.go:96-111 | a page linking twice to "/a" yields one target |
| Validate.ValidateString | pkg/webScraper/validate.go:39-57 | accepted iff the string contains Contains, equals a non-empty string IsEqualTo and differs from a non-empty string IsNotEqualTo |
| Validate.ValidateInt | pkg/webScraper/validate.go:60-88 | accepted iff every number bound with a non-zero integer part holds, the limits being inclusive |
| Validate.Validate | pkg/webScraper/validate.go:21-36 | ints by ValidateInt, strings by ValidateString or by their converted number, float64 by its verdict, every other type rejected |
| Validate.ConvertedStringIgnoresText | pkg/webScraper/validate.go:26-29 | a converted string is judged by its number alone, and a failed conversion is rejected |
| Validate.UnconstrainedStringFilter | pkg/webScraper/validate.go:40-56 | an empty Contains and no non-empty string bounds accept every string |
| Validate.AcceptedIntsAreAnInterval | pkg/webScraper/validate.go:60-88 | between two accepted ints every int is accepted, except the one IsNotEqualTo excludes |
| Validate.ZeroBoundIsNoBound | pkg/webScraper/validate.go:74-86 | a limit of 0 constrains nothing |
| Validate.StringFilterExample | pkg/webScraper/validate_test.go:17-29 | "string" passes Contains "st", IsEqualTo "string", IsNotEqualTo "strin" |
| Validate.IsURL | pkg/webScraper/validate.go:143-148 | true iff one of .com, .net or .org starts at some position of the text |
| Validate.URLInLongerText | pkg/webScraper/validate.go:143-148 | text around a URL keeps it a URL |
| Validate.DomainSuffixIsURL | pkg/webScraper/validate.go:143-148 | text ending in .com, .net or .org is a URL |
| Validate.GoogleIsURL | pkg/webScraper/validate.go:143-148 | "google.com" is a URL |
| Validate.ShortTextIsNotURL | pkg/webScraper/validate.go:143-148 | text of fewer than four characters is not a URL |
| Crawler.IncrementMetrics | pkg/webCrawler.go:299-322 | each counter grows by its delta, and URL is overwritten only by a non-empty value |
| Crawler.IncrementOrderIrrelevant | pkg/webCrawler.go:299-322 | applying two deltas in either order gives the same counters; the URL is the last non-empty one |
| Crawler.Announce | pkg/webCrawler.go:335-339 | every URL is forwarded in order, each followed by one +1 delta |
| Crawler.AnnounceInterleaves | pkg/webCrawler.go:335-339 | the i-th URL is immediately followed by its +1 |
| Crawler.ProcessScrapedUrls | pkg/webCrawler.go:326-342 | nothing for an empty list or when the first URL is deeper than MaxDepth; otherwise every URL forwarded in order, with one +1 delta each |
| Crawler.ProcessCrawledUrls | pkg/webCrawler.go:363-386 | each arrival is either dispatched or counted as a duplicate, and every duplicate sends one -1 |
| Crawler.DispatchedAreAdmitted | pkg/webCrawler.go:371-380 | only non-empty, unvisited arrivals are dispatched |
| Crawler.DispatchedDistinct | pkg/webCrawler.go:377-384 | no URL is dispatched twice |
| Crawler.VisitedAddsDispatched | pkg/webCrawler.go:377-384 | the visited set grows by exactly the dispatched URLs |
| Crawler.DispatchedOnce | pkg/webCrawler.go:377-384 | dispatched URLs are distinct and are exactly what the visited set gains |
| Crawler.ArrivalsBecomeVisited | pkg/webCrawler.go:377-380 | afterwards every non-empty arrival is visited |
| Crawler.Monitor | pkg/webCrawler.go:391-404 | fires at the first delta where the running count is 0, and never if the count never reaches 0 (the old monitor at webCrawler/webCrawler.go:210-221 is the same) |
| Crawler.MonitorFiresAtEnd | pkg/webCrawler.go:392-400 | a trace whose proper prefixes are positive and whose sum is 0 shuts down exactly at its last delta |
| Crawler.MonitorNeverFires | pkg/webCrawler.go:392-400 | a trace with positive prefixes and a positive sum never shuts down |
| Crawler.CrawlStep | pkg/webCrawler.go:273-282 | one dispatch keeps the dispatched URLs distinct, non-empty and equal to the visited set, keeps the monitor's count equal to the pending targets and never 0 before, and dispatches exactly when the target is non-empty and unvisited |
| Crawler.CrawlLoop | pkg/webCrawler.go:251-282 | the schedule keeps the invariants, never scrapes more than MaxVisitedUrls, ends empty, capped or aborted by a failed scrape, and only extends the dispatch order |
| Crawler.CrawlFrom | pkg/webCrawler.go:154-209 | a negative MaxDepth is rejected; dispatched URLs are distinct, counted in urlsVisited and no more than MaxVisitedUrls; a finished crawl scraped a non-empty root first and was shut down at its last delta (all of this in the single-worker schedule; with concurrent workers Go counts a visit only after its scrape, pkg/webCrawler.go:265 against 277, and a -1 may precede its +1, 337-338 against 372 and 383) |
| Crawler.RootScrapedFirst | pkg/webCrawler.go:168-171 | the root URL is the first one scraped |
| Crawler.ReadinessCheck | pkg/webCrawler.go:437-446 | passes iff the number of registered workers equals WebScraperWorkerCount, as in the old check at webCrawler/webCrawler.go:247-254 |
| Crawler.ReadinessOfWorkers | pkg/webCrawler.go:180-193 | with worker numbers 0…n-1, the check passes iff every worker registered |
| LegacyCrawler.LegacyIncrementMetrics | webCrawler/webCrawler.go:165-179 | each counter grows by its delta |
| LegacyCrawler.LegacyMetricsAgree | webCrawler/webCrawler.go:165-179 | the old counters move as the current ones do |
| LegacyCrawler.LegacyProcessScrapedUrls | webCrawler/webCrawler.go:181-186 | every URL is forwarded in order with a +1 each, with no depth check |
| LegacyCrawler.LegacyWorkerForwards | webCrawler/webCrawler.go:151-155 | the worker passes the found URLs on only when there are some and the first is within MaxDepth |
| LegacyCrawler.DepthGateMoved | webCrawler/webCrawler.go:151-155 | the old worker gate and the current processScrapedUrls gate send the same signals |
| LegacyCrawler.LegacyProcessCrawledLinks | webCrawler/webCrawler.go:189-207 | no more targets are dispatched than arrived |
| LegacyCrawler.ProcessorsAgree | webCrawler/webCrawler.go:197-204 | the old and the current processor dispatch the same targets and end with the same visited set; the old one drops silently what the current one counts |
| LegacyCrawler.LegacyCrawlStep | webCrawler/webCrawler.go:145-156 | one step keeps the dispatched URLs distinct and the monitor's count equal to the pending targets plus the silently dropped ones, and drops exactly the targets that are empty or visited |
| LegacyCrawler.LegacyCrawlLoop | webCrawler/webCrawler.go:128-162 | the schedule keeps that invariant, drops never decrease, and a finished run has no target pending |
| LegacyCrawler.LegacyCrawlFrom | webCrawler/webCrawler.go:72-112 | a negative MaxDepth is rejected; dispatched URLs are distinct; a finished crawl leaves the count at the number of dropped arrivals, so it is shut down if nothing was dropped and otherwise never |
| LegacyCrawler.LegacySelfLinkNeverShutsDown | webCrawler/webCrawler.go:197-204 | a page linking to itself runs out of targets with the count at 1, so the monitor never fires |
| LegacyCrawler.SelfLinkShutsDown | pkg/webCrawler.go:377-384 | the current crawl of the same page counts the duplicate, sends its -1 and is shut down |
| Robots.RobotsPath | pkg/webCrawler.go:520-524 | the path the code replaces is a proper suffix of the URL; None stands for the index panic of SplitAfterN on a URL with too few slashes |
| Robots.RobotsTxtURLAsWritten | pkg/webCrawler.go:519-526 | defined exactly where the path is defined |
| Robots.RobotsTxtURL | pkg/webCrawler.go:519-526 | the URL with its path replaced by "robots.txt" at the end, keeping everything before the path |
| Robots.RobotsTxtURLPath | pkg/webCrawler.go:519-526 | for an http(s) URL the path of the corrected result is exactly "robots.txt" |
| Robots.AsWrittenAgreesWhenPathFirst | pkg/webCrawler.go:521 | when the path text does not occur earlier in the URL, the code as written gives the corrected result |
| Robots.PathInHostReplacesHost | pkg/webCrawler.go:521 | "http://a/a" becomes "http://robots.txt/a" as written, "http://a/robots.txt" when corrected |
| Robots.EmptyPathPrefixesURL | pkg/webCrawler.go:521 | "http://a/" becomes "robots.txthttp://a/" as written |
| Robots.RobotsKey | pkg/webCrawler.go:509-511 | the key of a Disallow line holds no "*" |
| Robots.ParseRobots | pkg/webCrawler.go:498-513 | existing keys are kept and every new key is free of "*" |
| Robots.RobotsRestrictions | webCrawler/webCrawler.go:296-310 | the old parsing keeps existing keys and adds only "*"-free keys |
| Robots.ParseInGroup | pkg/webCrawler.go:500-512 | inside the group, the parse adds exactly the Disallow keys up to the next other User-agent line |
| Robots.ParseBeforeGroup | pkg/webCrawler.go:500-512 | before a "User-agent: *" line nothing is added; after it, the keys of its group |
| Robots.RobotsFollowFirstGroup | pkg/webCrawler.go:498-513 | the blacklist gains exactly the Disallow keys of the group after the first "User-agent: *" line |
| Robots.DisallowKeyExample | pkg/webCrawler.go:510 | "Disallow: /*" gives the key "/" |
| Robots.RootKeyBlocksOnlyEmptyFirstSegment | pkg/webScraper/webScraper.go:199-211 | the key "/" blocks a URL iff its path starts with an empty segment, so "Disallow: /" blocks almost nothing |
| Cli.SetParameters | codyWebAPI/codyWebAPI.go:134-165 | "item" is always set; "website" only when its trimmed value is supported, else errWebsiteFlag; any other name gives errUnsupportedFlag; a failure changes nothing |
| Cli.Scan | codyWebAPI/codyWebAPI.go:103-131 | the word loop only ever returns a flag error other than errParseFlag, and sets a website only if supported |
| Cli.ParseFlags | codyWebAPI/codyWebAPI.go:94-132 | errParseFlag iff the first word is not a flag, and then nothing changes |
| Cli.ScanGroups | codyWebAPI/codyWebAPI.go:103-131 | scanning the words of flag groups is applying the groups in order |
| Cli.ParseFlagsByGroups | codyWebAPI/codyWebAPI.go:94-132 | parseFlags cuts the words into flag groups and applies each, values space-joined and trimmed |
| Cli.ScanValues | codyWebAPI/codyWebAPI.go:112-129 | the value words before the next flag are joined, trimmed and set; a failure is errUnsupportedFlag |
| Cli.ScanFlagPair | codyWebAPI/codyWebAPI.go:104-110 | a flag followed by a flag gives errFlagNotSet |
| Cli.GroupWords | codyWebAPI/codyWebAPI.go:103-111 | words that start with a flag cut into well-formed groups whose words are the input |
| Cli.TwoGroupsParsed | codyWebAPI/codyWebAPI.go:94-132 | words made of two flag groups are parsed as those two groups, in order |
| Cli.UnsupportedWebsiteFlags | codyWebAPI/codyWebAPI.go:134-165 | "--website notsupported" gives errUnsupportedFlag and changes nothing |
| Cli.ParseInput | codyWebAPI/codyWebAPI.go:69-92 | errInput iff there are fewer than three words, the first is not codyWebAPI or the command is unknown; otherwise the search command with the flag result |
| Cli.ParseInputOfWords | codyWebAPI/codyWebAPI.go:69-92 | for a line of space-free words, parseInput is the word checks followed by parseFlags on the rest |
| Cli.CallWebsiteFunction | codyWebAPI/codyWebAPI.go:176-185 | "search" searches for the item; any other action gives errUnsupportedAction |
| Cli.AcceptedCommandIsDispatched | codyWebAPI/codyWebAPI.go:80-86 | every command parseInput accepts is one callWebsiteFunction runs |
| Cli.ShortLineExample | codyWebAPI/codyWebAPI_test.go:31-44 | "codyWebAPI" and "codyWebAPI notsupported" give errInput |
| Cli.UnsupportedWebsiteLineExample | codyWebAPI/codyWebAPI_test.go:45-51 | an unsupported website gives errUnsupportedFlag |
| Cli.SearchLineExample | codyWebAPI/codyWebAPI_test.go:59-65 | "codyWebAPI search --website amazon --item GTX 1080" sets both parameters |
| Cli.SwappedFlagsExample | codyWebAPI/codyWebAPI_test.go:66-72 | the flags in the other order set the same parameters |
| Cli.NoFlagExample | codyWebAPI/codyWebAPI_test.go:100-108 | a first word without "--" gives errParseFlag |
| Cli.FlagNotSetExample | codyWebAPI/codyWebAPI_test.go:109-126 | a flag followed by a flag gives errFlagNotSet |
| Cli.UnknownFirstFlagExample | codyWebAPI/codyWebAPI_test.go:127-135 | an unknown first flag gives errUnsupportedFlag |
| Cli.UnknownSecondFlagExample | codyWebAPI/codyWebAPI_test.go:136-144 | an unknown second flag gives errUnsupportedFlag after the website was set |
| Cli.SupportedFlagsExample | codyWebAPI/codyWebAPI_test.go:145-152 | "--website amazon --item GTX 1080" sets website "amazon" and item "GTX 1080" |
| Cli.CallExamples | codyWebAPI/codyWebAPI_test.go:224-274 | "unsupported" gives errUnsupportedAction and "search" searches |
| Amazon.GenerateSearchURL | codyWebAPI/website/amazon/amazon.go:62-71 | "" for an empty item with no error; otherwise a space-free URL wrapped in the search prefix and suffix |
| Amazon.SearchURLRoundTrip | codyWebAPI/website/amazon/amazon.go:67 | turning "+" back into spaces in the query recovers an item without "+" |
| Amazon.SearchURLExample | codyWebAPI/website/amazon/amazon_test.go:19-26 | "RTX 3080" gives "https://www.amazon.com/s?k=RTX+3080&ref=nb_sb_noss_2" |
| Amazon.GenerateItemURLFromHref | codyWebAPI/website/amazon/amazon.go:73-81 | "" stays "" with no error; any other href is prefixed with the site |
| Amazon.ItemURLInjective | codyWebAPI/website/amazon/amazon.go:73-81 | different hrefs give different item URLs |

## Left out

- Goroutines, channels, WaitGroups, `select`, worker stop and shutdown, and the sleeps of the health checks. The crawl is one sequential schedule in which a single worker handles the targets in the order they are dispatched. Other interleavings are not modelled.
- The `errs` channel race. A failed scrape aborts the schedule (`Crawler.Aborted`), and that worker's late metrics and URLs are not modelled.
- The liveness check, the MaxGoRoutines guard and CrawlDelay. They depend on runtime goroutine counts and on time.
- HTTP fetching, the robots.txt fetch and `ReadAll`, and Amazon `SearchWebsite`. These are network I/O. A page is an input token sequence, and the crawl takes the scrape of each target as the parameter `discover`.
- The x/net/html tokenizer. It is a foreign library, replaced by the `Html.Token` datatype. `Html.Render` stands for `Token.String()` and does not do its escaping of special characters.
- `ValidateFloat64` and `ConvertStringToNunber` (floating point and a regular expression). `Validate` takes the converted number and the float verdict as inputs.
- Item time stamps, S3 upload, JSON printing and file writers, configuration and environment loading, HTTP servers, and entry points.
- The codyWebAPI stdin loop, `initializeComponent`, `getWebsiteObject` and `os.Exit`.
- The directory read of `checkIfWebsiteIsSupported`. It is a filesystem call, replaced by the `supported` set parameter.
- codyWebAPI/tools/tools.go. It is runtime reflection used for logging only.
- Package-level variables: the `test` parameters of codyWebAPI, and the metrics and visited map of the crawler. They are explicit inputs and outputs.
- Crawler.CrawlLoop: runs on a `fuel` bound, and `OutOfFuel` says nothing about an endless crawl. The same holds for LegacyCrawler.LegacyCrawlLoop.
- Crawler.Monitor: models only the first time the count reaches 0. After that the Go monitor closes its channels, so later deltas would panic.
- Cli.ParseFlags: requires at least one word, because the Go code indexes `input[0]` and panics on an empty list. `parseInput` always passes at least one word.
- ItemExtract.ParseLoop: when a detail rule seeks a text, the tokens it reads are never pushed or popped. With detail start tags in the stream, the contract therefore states only that the loop stops at an Error or right after an end tag. It does not say which end tag. ItemExtract.ParseLoopReadsElement pins the stopping point exactly for streams without detail start tags.
- LegacyItemExtract.LegacyParseLoop: the same holds for the old loop, with LegacyItemExtract.LegacyParseLoopReadsElement for streams without detail start tags.
- LegacyScraper.LegacyScrapePage: states that each item's URL object is nil or one of the targets. It does not state that it is the most recently built one; LegacyScraper.LegacyStartTagStep uses the most recent one.
- LegacyCrawler.LegacyProcessCrawledLinks: its own contract only bounds the dispatch count. Its content is stated through LegacyCrawler.ProcessorsAgree against the current processor.
- Tests that contradict the code are not encoded:
  - `Test_isURL` expects false for "google.com" (pkg/webScraper/validate_test.go:104-109); `Validate.GoogleIsURL` follows the code.
  - The "Get Wrong HTTP Attribute" cases expect "a-link-normal" from an attribute "a-link-normals".
  - The "Formated incorrectly" case of formatURL expects no error; only its string result agrees with the code.
  - `checkIfWebsiteIsSupported` expects "bestbuy" to be supported, but only the amazon directory exists.
- Item-level filtering by `Validate`. Nothing in the code calls it from item parsing, so `Validate` is modelled on its own.

## Findings

| source | as written | input that shows it | evidently intended | confidence | as-written member | corrected member |
|---|---|---|---|---|---|---|
| pkg/webCrawler.go:519-526 | the text after `scheme://host/` is replaced wherever it first occurs in the URL, and an empty path is found at position 0 (webCrawler/webCrawler.go:285-289 is the same) | "http://a/a" gives "http://robots.txt/a"; "http://a/" gives "robots.txthttp://a/" (Robots.PathInHostReplacesHost, Robots.EmptyPathPrefixesURL) | the path at the end is replaced, giving "http://a/robots.txt" | not executed | Robots.RobotsTxtURLAsWritten | Robots.RobotsTxtURL |
| webCrawler/webCrawler.go:197-204 | an empty or already visited URL is skipped without sending -1, so its +1 is never matched | a page "r" that links only to itself, with MaxDepth 1: the count ends at 1, so the monitor never fires and Crawl never returns: it blocks in wg.Wait until the liveness check's log.Fatalf ends the process (LegacyCrawler.LegacySelfLinkNeverShutsDown) | every dropped arrival sends -1, as pkg/webCrawler.go:371-384 does, so the crawl is shut down (LegacyCrawler.SelfLinkShutsDown) | not executed | LegacyCrawler.LegacyCrawlFrom | Crawler.CrawlFrom |
