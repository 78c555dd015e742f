/** formatURL of the current scraper (pkg/webScraper/urlFormater.go): a
    guarded pipeline that reshapes a discovered link into a crawlable URL. */
module UrlFormat {
  import opened Outcomes
  import opened GoStrings

  /** FormatURLConfiguration */
  datatype FormatConfig = FormatConfig(
    suffixExist: string,
    suffixToAdd: string,
    suffixToRemove: string,
    prefixToAdd: string,
    prefixExist: string,
    prefixToRemove: string,
    replaceOldString: string,
    replaceNewString: string)

  /** The zero value `FormatURLConfiguration{}`. */
  const Zero: FormatConfig := FormatConfig("", "", "", "", "", "", "", "")

  /** Every field of the configuration is empty. */
  predicate AllFieldsEmpty(c: FormatConfig) {
    && c.suffixExist == "" && c.suffixToAdd == "" && c.suffixToRemove == ""
    && c.prefixToAdd == "" && c.prefixExist == "" && c.prefixToRemove == ""
    && c.replaceOldString == "" && c.replaceNewString == ""
  }

  /** The substitution step: it runs only when both strings are set. */
  function ReplaceStep(url: string, c: FormatConfig): (r: string)
    ensures c.replaceOldString == "" || c.replaceNewString == "" ==> r == url
  {
    if c.replaceOldString != "" && c.replaceNewString != "" then
      ReplaceAll(url, c.replaceOldString, c.replaceNewString)
    else url
  }

  /** The pipeline run on a matching URL: replace, trim the prefix, trim the
      suffix, add the prefix, add the suffix. The two additions always
      leave their strings at the ends of the result. */
  function Reshape(url: string, c: FormatConfig): (r: string)
    ensures HasPrefix(r, c.prefixToAdd) && HasSuffix(r, c.suffixToAdd)
  {
    var replaced := ReplaceStep(url, c);
    var trimmedFront := TrimPrefix(replaced, c.prefixToRemove);
    var trimmed := TrimSuffix(trimmedFront, c.suffixToRemove);
    var fronted := if c.prefixToAdd != "" then c.prefixToAdd + trimmed else trimmed;
    assert HasPrefix(fronted, c.prefixToAdd);
    var r := if c.suffixToAdd != "" then fronted + c.suffixToAdd else fronted;
    assert r[..|c.prefixToAdd|] == fronted[..|c.prefixToAdd|];
    r
  }

  /** The guard of the current version. */
  predicate Matches(url: string, c: FormatConfig) {
    HasPrefix(url, c.prefixExist) && HasSuffix(url, c.suffixExist) && Contains(url, c.replaceOldString)
  }

  /** formatURL: an all-empty configuration leaves the URL alone; a URL
      that fails the guard gives "" and an error (not the URL itself); a
      URL that passes is reshaped. */
  function FormatURL(url: string, c: FormatConfig): (r: Ret<string>)
    ensures AllFieldsEmpty(c) ==> r == Ret(url, Nil)
    ensures !AllFieldsEmpty(c) && !Matches(url, c) ==> r == Ret("", Failed(Unnamed))
    ensures !AllFieldsEmpty(c) && Matches(url, c) ==>
              r.Ok() && HasPrefix(r.value, c.prefixToAdd) && HasSuffix(r.value, c.suffixToAdd)
  {
    if c == Zero then Ret(url, Nil)
    else if Matches(url, c) then Ret(Reshape(url, c), Nil)
    else Ret("", Failed(Unnamed))
  }

  /** The all-empty configuration is the identity of the pipeline, which
      is why both versions of formatURL leave a URL alone under it. */
  lemma ReshapeZero(url: string)
    ensures Reshape(url, Zero) == url
  {
    assert ReplaceStep(url, Zero) == url;
    assert HasPrefix(url, "") && url[0..] == url;
    assert TrimPrefix(url, "") == url;
    assert HasSuffix(url, "") && url[..|url|] == url;
    assert TrimSuffix(url, "") == url;
  }

  /** A configuration with only PrefixExist and PrefixToAdd set turns a
      URL that starts with PrefixExist into PrefixToAdd followed by it. */
  lemma {:induction false} PrefixOnly(url: string, exist: string, add: string)
    requires HasPrefix(url, exist)
    ensures FormatURL(url, Zero.(prefixExist := exist, prefixToAdd := add)) == Ret(add + url, Nil)
  {
    var c := Zero.(prefixExist := exist, prefixToAdd := add);
    assert ReplaceStep(url, c) == url;
    assert HasPrefix(url, "") && url[0..] == url;
    assert TrimPrefix(url, "") == url;
    assert HasSuffix(url, "") && url[..|url|] == url;
    assert TrimSuffix(url, "") == url;
    assert Contains(url, "");
    assert "" + url == url;
  }

  /** Replacement of a string the URL does not contain changes nothing. */
  lemma {:induction false} ReplaceStepAbsent(url: string, c: FormatConfig)
    requires !Contains(url, c.replaceOldString)
    ensures ReplaceStep(url, c) == url
  {
    if c.replaceOldString != "" && c.replaceNewString != "" {
      ReplaceAllAbsent(url, c.replaceOldString, c.replaceNewString);
    }
  }

  /** The successful example of the scraper's test table. */
  lemma {:induction false} ExampleReshaped(url: string, c: FormatConfig)
    requires url == "ReplacePrefix/RTX_3070/ReplaceSuffix"
    requires c == Zero.(suffixToAdd := "checkout", suffixToRemove := "ReplaceSuffix",
                        prefixToAdd := "amazon.com", prefixToRemove := "ReplacePrefix",
                        replaceOldString := "RTX_3070", replaceNewString := "RTX_3080")
    ensures FormatURL(url, c) == Ret("amazon.com/RTX_3080/checkout", Nil)
  {
    var head, tail, middle := "ReplacePrefix/", "/ReplaceSuffix", "/RTX_3080/";
    ExampleInput(url, head, c.replaceOldString, tail);
    ExampleHead(head, c.replaceOldString);
    ExampleReplaced(head, c.replaceNewString, tail, c.prefixToRemove, middle, c.suffixToRemove);
    ExampleOutput(c.prefixToAdd, middle, c.suffixToAdd);
    NotContained(tail, c.replaceOldString, 1);
    ReshapeMiddle(url, c, head, tail, middle);
  }

  lemma ExampleInput(url: string, head: string, pat: string, tail: string)
    requires url == "ReplacePrefix/RTX_3070/ReplaceSuffix"
    requires head == "ReplacePrefix/" && pat == "RTX_3070" && tail == "/ReplaceSuffix"
    ensures url == head + pat + tail
  {
  }

  lemma ExampleHead(head: string, pat: string)
    requires head == "ReplacePrefix/" && pat == "RTX_3070"
    ensures |pat| >= 2 && |head| > 0 && pat[1] !in head[1..] && head[|head| - 1] != pat[0]
  {
  }

  lemma ExampleReplaced(head: string, rep: string, tail: string, front: string, middle: string, back: string)
    requires head == "ReplacePrefix/" && rep == "RTX_3080" && tail == "/ReplaceSuffix"
    requires front == "ReplacePrefix" && middle == "/RTX_3080/" && back == "ReplaceSuffix"
    ensures head + rep + tail == front + middle + back
  {
  }

  lemma ExampleOutput(front: string, middle: string, back: string)
    requires front == "amazon.com" && middle == "/RTX_3080/" && back == "checkout"
    ensures front + middle + back == "amazon.com/RTX_3080/checkout"
  {
  }

  /** The pipeline on a URL made of a head where the searched string cannot
      start, one occurrence of it, and a tail without it, when the
      replacement leaves the strings to trim at the two ends. */
  lemma {:induction false} ReshapeMiddle(url: string, c: FormatConfig, head: string, tail: string, middle: string)
    requires url == head + c.replaceOldString + tail
    requires |c.replaceOldString| >= 2 && |head| > 0 && c.replaceNewString != ""
    requires c.replaceOldString[1] !in head[1..] && head[|head| - 1] != c.replaceOldString[0]
    requires !Contains(tail, c.replaceOldString)
    requires head + c.replaceNewString + tail == c.prefixToRemove + middle + c.suffixToRemove
    requires c.prefixExist == "" && c.suffixExist == "" && c.prefixToAdd != "" && c.suffixToAdd != ""
    ensures FormatURL(url, c) == Ret(c.prefixToAdd + middle + c.suffixToAdd, Nil)
  {
    var pat := c.replaceOldString;
    assert url[|head|..] == pat + tail;
    ContainsAt(url, pat, |head|);
    assert HasPrefix(url, "") && HasSuffix(url, "");
    ReplaceInMiddle(head, pat, c.replaceNewString, tail);
    TrimThenAdd(url, c, middle);
  }

  /** An occurrence of `pat` between a head where it cannot start and a
      tail that does not contain it is the only one replaced. */
  lemma {:induction false} ReplaceInMiddle(head: string, pat: string, rep: string, tail: string)
    requires |pat| >= 2 && |head| > 0
    requires pat[1] !in head[1..] && head[|head| - 1] != pat[0]
    requires !Contains(tail, pat)
    ensures ReplaceAll(head + pat + tail, pat, rep) == head + rep + tail
  {
    ReplaceAllAbsent(tail, pat, rep);
    assert (pat + tail)[|pat|..] == tail;
    assert ReplaceAll(pat + tail, pat, rep) == rep + tail;
    ReplaceSkipsHead(head, pat + tail, pat, rep);
    assert head + pat + tail == head + (pat + tail);
  }

  /** The trimming and adding steps of the pipeline, once the replacement
      has left the strings to trim at the two ends. */
  lemma {:induction false} TrimThenAdd(url: string, c: FormatConfig, middle: string)
    requires ReplaceStep(url, c) == c.prefixToRemove + middle + c.suffixToRemove
    requires c.prefixToAdd != "" && c.suffixToAdd != ""
    ensures Reshape(url, c) == c.prefixToAdd + middle + c.suffixToAdd
  {
    var replaced := ReplaceStep(url, c);
    assert replaced[..|c.prefixToRemove|] == c.prefixToRemove;
    assert replaced[|c.prefixToRemove|..] == middle + c.suffixToRemove;
    var m := middle + c.suffixToRemove;
    assert m[|m| - |c.suffixToRemove|..] == c.suffixToRemove;
    assert m[..|m| - |c.suffixToRemove|] == middle;
  }

  /** No occurrence of `pat` can start inside `head` when the second
      character of `pat` never follows the first character of `head` and
      `head` does not end with the first character of `pat`; the head is
      then copied as is. */
  lemma {:induction false} ReplaceSkipsHead(head: string, tail: string, pat: string, rep: string)
    requires |pat| >= 2 && |head| > 0
    requires pat[1] !in head[1..] && head[|head| - 1] != pat[0]
    ensures ReplaceAll(head + tail, pat, rep) == head + ReplaceAll(tail, pat, rep)
    decreases |head|
  {
    var s := head + tail;
    if |head| == 1 {
      assert s[0] != pat[0];
      assert s[1..] == tail;
    } else {
      assert head[1] in head[1..];
      assert s[1] != pat[1];
      assert s[1..] == head[1..] + tail;
      assert pat[1] !in head[1..][1..] by {
        assert forall x :: x in head[1..][1..] ==> x in head[1..];
      }
      ReplaceSkipsHead(head[1..], tail, pat, rep);
    }
  }

  /** The failing example of the scraper's test table: the URL does not
      contain the string to replace, so the result is "". */
  lemma {:induction false} ExampleRejected(url: string, c: FormatConfig)
    requires url == "ReplaceSuffix/RTX_3070/ReplacePrefix"
    requires c == Zero.(suffixToAdd := "DOESNOTWORK", suffixToRemove := "DOESNOTWORK",
                        prefixToAdd := "DOESNOTWORK", prefixToRemove := "DOESNOTWORK",
                        replaceOldString := "DOESNOTWORK", replaceNewString := "DOESNOTWORK")
    ensures FormatURL(url, c) == Ret("", Failed(Unnamed))
  {
    ExampleLacksD(url);
    NotContained(url, c.replaceOldString, 0);
    RejectedWithoutReplaced(url, c);
  }

  lemma ExampleLacksD(url: string)
    requires url == "ReplaceSuffix/RTX_3070/ReplacePrefix"
    ensures 'D' !in url
  {
  }

  /** A URL lacking ReplaceOldString is rejected by a non-empty
      configuration. */
  lemma {:induction false} RejectedWithoutReplaced(url: string, c: FormatConfig)
    requires c.replaceOldString != "" && !Contains(url, c.replaceOldString)
    ensures FormatURL(url, c) == Ret("", Failed(Unnamed))
  {
    assert !AllFieldsEmpty(c);
  }

  /** A string lacking some character of `w` does not contain `w`. */
  lemma {:induction false} NotContained(s: string, w: string, k: nat)
    requires k < |w| && w[k] !in s
    ensures !Contains(s, w)
    decreases |s|
  {
    if |s| > 0 {
      assert w[k] !in s[1..];
      NotContained(s[1..], w, k);
    }
  }
}

/** formatURL of the old scraper (webCrawler/webScraper/urlFormater.go):
    the same pipeline behind a looser guard that only asks for containment. */
module LegacyUrlFormat {
  import opened Outcomes
  import opened GoStrings
  import opened UrlFormat

  /** The guard of the old version. */
  predicate LegacyMatches(url: string, c: FormatConfig) {
    Contains(url, c.prefixExist) && Contains(url, c.suffixExist) && Contains(url, c.replaceOldString)
  }

  /** formatURL (old): no special case for the empty configuration; a URL
      failing the guard gives "" and errFormatURL. */
  function LegacyFormatURL(url: string, c: FormatConfig): (r: Ret<string>)
    ensures LegacyMatches(url, c) ==> r == Ret(Reshape(url, c), Nil)
    ensures !LegacyMatches(url, c) ==> r == Ret("", Failed(ErrFormatURL))
  {
    if LegacyMatches(url, c) then Ret(Reshape(url, c), Nil)
    else Ret("", Failed(ErrFormatURL))
  }

  /** isEmptyFormatURLConfiguration */
  function IsEmptyFormatURLConfiguration(c: FormatConfig): (b: bool)
    ensures b <==> AllFieldsEmpty(c)
  {
    c == Zero
  }

  /** Under the all-empty configuration the old version, too, returns the
      URL unchanged. */
  lemma {:induction false} LegacyEmptyConfigIsIdentity(url: string)
    ensures LegacyFormatURL(url, Zero) == Ret(url, Nil)
  {
    assert HasPrefix(url, "");
    ReshapeZero(url);
  }

  /** The current guard implies the old one. */
  lemma {:induction false} GuardImpliesLegacyGuard(url: string, c: FormatConfig)
    requires Matches(url, c)
    ensures LegacyMatches(url, c)
  {
    SuffixIsContained(url, c.suffixExist);
  }

  /** Whenever the current version succeeds, the old one returns the same
      string. */
  lemma {:induction false} CurrentSuccessAgreesWithLegacy(url: string, c: FormatConfig)
    requires FormatURL(url, c).Ok()
    ensures LegacyFormatURL(url, c) == FormatURL(url, c)
  {
    if c == Zero {
      LegacyEmptyConfigIsIdentity(url);
    } else {
      GuardImpliesLegacyGuard(url, c);
    }
  }

  /** The converse fails: "ab" contains "b" but does not start with it. */
  lemma {:induction false} LegacyGuardIsLooser()
    ensures LegacyFormatURL("ab", Zero.(prefixExist := "b")) == Ret("ab", Nil)
    ensures FormatURL("ab", Zero.(prefixExist := "b")) == Ret("", Failed(Unnamed))
  {
    var c := Zero.(prefixExist := "b");
    ContainsAt("ab", "b", 1);
    assert LegacyMatches("ab", c) by {
      assert Contains("ab", "");
    }
    assert "ab"[..1] == "a";
    assert "ab"[..2] == "ab";
  }

  /** The two worked examples of the old scraper's test table: the same
      reshaped URL as the current version, and "" with errFormatURL for a
      URL lacking the string to replace. */
  lemma {:induction false} LegacyExamples(url: string, c: FormatConfig, bad: string, d: FormatConfig)
    requires url == "ReplacePrefix/RTX_3070/ReplaceSuffix"
    requires c == Zero.(suffixToAdd := "checkout", suffixToRemove := "ReplaceSuffix",
                        prefixToAdd := "amazon.com", prefixToRemove := "ReplacePrefix",
                        replaceOldString := "RTX_3070", replaceNewString := "RTX_3080")
    requires bad == "ReplaceSuffix/RTX_3070/ReplacePrefix"
    requires d == Zero.(suffixToAdd := "DOESNOTWORK", suffixToRemove := "DOESNOTWORK",
                        prefixToAdd := "DOESNOTWORK", prefixToRemove := "DOESNOTWORK",
                        replaceOldString := "DOESNOTWORK", replaceNewString := "DOESNOTWORK")
    ensures LegacyFormatURL(url, c) == Ret("amazon.com/RTX_3080/checkout", Nil)
    ensures LegacyFormatURL(bad, d) == Ret("", Failed(ErrFormatURL))
  {
    ExampleReshaped(url, c);
    CurrentSuccessAgreesWithLegacy(url, c);
    ExampleLacksD(bad);
    NotContained(bad, d.replaceOldString, 0);
  }
}
