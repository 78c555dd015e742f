/** The rule and result records of the current scraper (pkg/webScraper).
    Go maps keyed by a rule name are sequences of named rules here, in the
    order the map happens to be iterated. */
module Rules {
  import opened Outcomes
  import UrlFormat

  /** ExtractFromHTMLConfiguration: which tag to look at, which attribute
      must hold which value, which attribute to read, and how many text
      tokens to skip. */
  datatype ExtractConfig = ExtractConfig(
    tag: string,
    attribute: string,
    attributeValue: string,
    attributeToGet: string,
    skipToken: int)

  /** The zero value `ExtractFromHTMLConfiguration{}`. */
  const ZeroExtract: ExtractConfig := ExtractConfig("", "", "", "", 0)

  /** ScrapeURLConfiguration */
  datatype UrlRule = UrlRule(name: string, extract: ExtractConfig, format: UrlFormat.FormatConfig)

  /** One entry of ScrapeItemConfiguration.ItemDetails. */
  datatype DetailRule = DetailRule(name: string, config: ExtractConfig)

  /** ScrapeItemConfiguration */
  datatype ItemRule = ItemRule(itemName: string, itemToGet: ExtractConfig, details: seq<DetailRule>)

  /** URL: a page to crawl and where it was found. */
  datatype Target = Target(
    currentURL: string,
    parentURL: string,
    rootURL: string,
    currentDepth: int,
    maxDepth: int)

  /** Item, without its query date and time. */
  datatype Item = Item(itemName: string, url: Option<Target>, details: map<string, string>)

  /** The names of a list of detail rules. */
  function DetailNames(details: seq<DetailRule>): (names: set<string>)
    ensures forall i :: 0 <= i < |details| ==> details[i].name in names
    ensures forall n :: n in names ==> exists i :: 0 <= i < |details| && details[i].name == n
    decreases |details|
  {
    if |details| == 0 then {}
    else
      var rest := DetailNames(details[1..]);
      assert forall n :: n in rest ==> exists i :: 1 <= i < |details| && details[i].name == n by {
        forall n | n in rest ensures exists i :: 1 <= i < |details| && details[i].name == n {
          var j :| 0 <= j < |details[1..]| && details[1..][j].name == n;
          assert details[j + 1].name == n;
        }
      }
      {details[0].name} + rest
  }
}

/** The rule and result records of the old scraper (webCrawler/webScraper). */
module LegacyRules {
  import UrlFormat

  /** ExtractFromHTMLConfiguration of the old scraper: no SkipToken. Its
      link-extraction counterpart (TagToCheck, AttributeToCheck,
      AttributeValueToCheck) is read from the first three fields. */
  datatype LegacyExtractConfig = LegacyExtractConfig(
    tag: string,
    attribute: string,
    attributeValue: string,
    attributeToGet: string)

  const LegacyZeroExtract: LegacyExtractConfig := LegacyExtractConfig("", "", "", "")

  /** ScrapeURLConfiguration of the old scraper. */
  datatype LegacyUrlRule = LegacyUrlRule(
    name: string,
    extract: LegacyExtractConfig,
    format: UrlFormat.FormatConfig)

  datatype LegacyDetailRule = LegacyDetailRule(name: string, config: LegacyExtractConfig)

  /** ScrapeItemConfiguration of the old scraper. */
  datatype LegacyItemRule = LegacyItemRule(
    itemName: string,
    url: string,
    itemToGet: LegacyExtractConfig,
    details: seq<LegacyDetailRule>)

  /** Item of the old scraper. */
  datatype LegacyItem = LegacyItem(itemName: string, url: string, details: map<string, string>)
}
