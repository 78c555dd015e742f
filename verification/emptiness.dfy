/** IsEmpty of both scrapers: a type switch over the configuration values
    the scrapers pass in. A Go `interface{}` argument is a `Dynamic` value
    here, tagged with its dynamic type. */
module Emptiness {
  import opened Rules
  import opened LegacyRules
  import UrlFormat

  /** The dynamic types the current IsEmpty distinguishes. */
  datatype Dynamic =
    | ExtractValue(extract: ExtractConfig)
    | FormatValue(format: UrlFormat.FormatConfig)
    | ItemRuleList(items: seq<ItemRule>)
    | UrlRuleList(urls: seq<UrlRule>)
    | DetailMap(details: seq<DetailRule>)
    | BlacklistMap(paths: set<string>)
    | OtherValue

  /** Every field of an extraction configuration is zero. */
  predicate ExtractFieldsZero(c: ExtractConfig) {
    c.tag == "" && c.attribute == "" && c.attributeValue == "" && c.attributeToGet == "" && c.skipToken == 0
  }

  /** IsEmpty (pkg/webScraper/isEmpty.go): a configuration is empty when it
      equals its zero value, a list or map when it has no entries, and any
      other value never is. */
  function IsEmpty(v: Dynamic): (b: bool)
    ensures v.ExtractValue? ==> (b <==> ExtractFieldsZero(v.extract))
    ensures v.FormatValue? ==> (b <==> UrlFormat.AllFieldsEmpty(v.format))
    ensures v.ItemRuleList? ==> (b <==> |v.items| == 0)
    ensures v.UrlRuleList? ==> (b <==> |v.urls| == 0)
    ensures v.DetailMap? ==> (b <==> |v.details| == 0)
    ensures v.BlacklistMap? ==> (b <==> v.paths == {})
    ensures v.OtherValue? ==> !b
  {
    match v
    case ExtractValue(c) => c == ZeroExtract
    case FormatValue(c) => c == UrlFormat.Zero
    case ItemRuleList(rs) => |rs| == 0
    case UrlRuleList(rs) => |rs| == 0
    case DetailMap(ds) => |ds| == 0
    case BlacklistMap(ps) => |ps| == 0
    case OtherValue => false
  }

  /** The dynamic types the old IsEmpty is handed. */
  datatype LegacyDynamic =
    | LegacyExtractValue(extract: LegacyExtractConfig)
    | LegacyFormatValue(format: UrlFormat.FormatConfig)
    | LegacyItemRuleList(items: seq<LegacyItemRule>)
    | LegacyUrlRuleList(urls: seq<LegacyUrlRule>)
    | LegacyDetailMap(details: seq<LegacyDetailRule>)
    | LegacyBlacklistMap(paths: set<string>)
    | LegacyOtherValue

  /** IsEmpty (webCrawler/webScraper/isEmpty.go): as the current version,
      except that it has no case for the blacklist map, which therefore is
      never empty. */
  function LegacyIsEmpty(v: LegacyDynamic): (b: bool)
    ensures v.LegacyExtractValue? ==>
              (b <==> v.extract.tag == "" && v.extract.attribute == ""
                      && v.extract.attributeValue == "" && v.extract.attributeToGet == "")
    ensures v.LegacyFormatValue? ==> (b <==> UrlFormat.AllFieldsEmpty(v.format))
    ensures v.LegacyItemRuleList? ==> (b <==> |v.items| == 0)
    ensures v.LegacyUrlRuleList? ==> (b <==> |v.urls| == 0)
    ensures v.LegacyDetailMap? ==> (b <==> |v.details| == 0)
    ensures v.LegacyBlacklistMap? || v.LegacyOtherValue? ==> !b
  {
    match v
    case LegacyExtractValue(c) => c == LegacyZeroExtract
    case LegacyFormatValue(c) => c == UrlFormat.Zero
    case LegacyItemRuleList(rs) => |rs| == 0
    case LegacyUrlRuleList(rs) => |rs| == 0
    case LegacyDetailMap(ds) => |ds| == 0
    case _ => false
  }

  /** A list is judged by its length only: a list holding one all-zero rule
      is not empty although the rule is, and an extraction configuration
      whose only non-zero field is SkipToken is not empty either. */
  lemma {:induction false} EmptinessIsShallow(k: int)
    requires k != 0
    ensures IsEmpty(ExtractValue(ZeroExtract)) && IsEmpty(FormatValue(UrlFormat.Zero))
    ensures !IsEmpty(UrlRuleList([UrlRule("", ZeroExtract, UrlFormat.Zero)]))
    ensures !IsEmpty(ItemRuleList([ItemRule("", ZeroExtract, [])]))
    ensures !IsEmpty(ExtractValue(ZeroExtract.(skipToken := k)))
    ensures !LegacyIsEmpty(LegacyUrlRuleList([LegacyUrlRule("", LegacyZeroExtract, UrlFormat.Zero)]))
  {
  }
}
