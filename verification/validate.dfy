/** The result filters of the current scraper (pkg/webScraper/validate.go).
    The comparison bounds of a FilterConfiguration are Go `interface{}`
    values decoded from JSON, so a number arrives as a float64. */
module Validate {
  import opened Outcomes
  import opened GoStrings

  /** A bound: absent (nil), a JSON number given by its integer part
      `int(t)`, a string, or a value of any other dynamic type (a Go `int`
      literal included, which none of the filters consults). */
  datatype Bound = NoBound | NumBound(n: int) | StrBound(s: string) | OtherBound

  /** FilterConfiguration */
  datatype Filter = Filter(
    isLessThan: Bound,
    isGreaterThan: Bound,
    isEqualTo: Bound,
    isNotEqualTo: Bound,
    contains: string,
    convertStringToNumber: string)

  /** The value handed to Validate. */
  datatype Value = IntValue(i: int) | StrValue(s: string) | FloatValue | OtherValue

  /** What ConvertStringToNunber makes of a string: an int, a float64, or
      an error or nil. The regular expression and the number parsing are
      not modelled, so this is an input of Validate. */
  datatype Number = NumInt(i: int) | NumFloat | NumOther

  /** The string value of a bound that is a non-empty string. */
  function ActiveString(b: Bound): Option<string> {
    if b.StrBound? && b.s != "" then Some(b.s) else None
  }

  /** The integer part of a bound that is a number whose integer part is
      not 0: a bound of 0 (or of less than 1 in absolute value) constrains
      nothing. */
  function ActiveInt(b: Bound): Option<int> {
    if b.NumBound? && b.n != 0 then Some(b.n) else None
  }

  /** ValidateString: `s` must contain the Contains text, equal a
      non-empty string IsEqualTo and differ from a non-empty string
      IsNotEqualTo; bounds of other types are ignored. */
  function ValidateString(s: string, c: Filter): (b: bool)
    ensures b <==> && Contains(s, c.contains)
                   && (ActiveString(c.isEqualTo).Some? ==> s == ActiveString(c.isEqualTo).value)
                   && (ActiveString(c.isNotEqualTo).Some? ==> s != ActiveString(c.isNotEqualTo).value)
  {
    if !Contains(s, c.contains) then false
    else if c.isEqualTo.StrBound? && c.isEqualTo.s != s && c.isEqualTo.s != "" then false
    else if c.isNotEqualTo.StrBound? && c.isNotEqualTo.s == s && c.isNotEqualTo.s != "" then false
    else true
  }

  /** ValidateInt: only number bounds with a non-zero integer part count;
      the limits are inclusive. */
  function ValidateInt(i: int, c: Filter): (b: bool)
    ensures b <==> && (ActiveInt(c.isEqualTo).Some? ==> i == ActiveInt(c.isEqualTo).value)
                   && (ActiveInt(c.isNotEqualTo).Some? ==> i != ActiveInt(c.isNotEqualTo).value)
                   && (ActiveInt(c.isLessThan).Some? ==> i <= ActiveInt(c.isLessThan).value)
                   && (ActiveInt(c.isGreaterThan).Some? ==> i >= ActiveInt(c.isGreaterThan).value)
  {
    if c.isEqualTo.NumBound? && c.isEqualTo.n != i && c.isEqualTo.n != 0 then false
    else if c.isNotEqualTo.NumBound? && c.isNotEqualTo.n == i && c.isNotEqualTo.n != 0 then false
    else if c.isLessThan.NumBound? && c.isLessThan.n < i && c.isLessThan.n != 0 then false
    else if c.isGreaterThan.NumBound? && c.isGreaterThan.n > i && c.isGreaterThan.n != 0 then false
    else true
  }

  /** Validate: an int by ValidateInt; a string by ValidateString, or, when
      ConvertStringToNumber is "true", by validating the number made of it;
      a float64 by ValidateFloat64, whose verdict `floatVerdict` is an
      input; anything else fails. */
  function Validate(v: Value, c: Filter, converted: Number, floatVerdict: bool): (b: bool)
    ensures v.OtherValue? ==> !b
    ensures v.IntValue? ==> b == ValidateInt(v.i, c)
    ensures v.FloatValue? ==> b == floatVerdict
    ensures v.StrValue? && c.convertStringToNumber != "true" ==> b == ValidateString(v.s, c)
    ensures v.StrValue? && c.convertStringToNumber == "true" ==>
              b == ((converted.NumInt? && ValidateInt(converted.i, c)) || (converted.NumFloat? && floatVerdict))
    decreases if v.StrValue? then 1 else 0
  {
    match v
    case IntValue(i) => ValidateInt(i, c)
    case StrValue(s) =>
      if c.convertStringToNumber == "true" then
        match converted
        case NumInt(i) => Validate(IntValue(i), c, converted, floatVerdict)
        case NumFloat => Validate(FloatValue, c, converted, floatVerdict)
        case NumOther => Validate(OtherValue, c, converted, floatVerdict)
      else ValidateString(s, c)
    case FloatValue => floatVerdict
    case OtherValue => false
  }

  /** One of the three domains starts at position `i` of `url`. */
  predicate DomainAt(url: string, i: int) {
    0 <= i <= |url|
    && (HasPrefix(url[i..], ".com") || HasPrefix(url[i..], ".net") || HasPrefix(url[i..], ".org"))
  }

  /** isURL: the text names a .com, .net or .org address somewhere. */
  function IsURL(url: string): (b: bool)
    ensures b <==> exists i :: DomainAt(url, i)
  {
    DomainPositions(url);
    Contains(url, ".com") || Contains(url, ".net") || Contains(url, ".org")
  }

  /** strings.Contains of a domain is a position where the domain starts. */
  lemma {:induction false} DomainPositions(url: string)
    ensures (Contains(url, ".com") || Contains(url, ".net") || Contains(url, ".org"))
            <==> exists i :: DomainAt(url, i)
  {
    if Contains(url, ".com") {
      var i := ContainsFound(url, ".com");
      assert DomainAt(url, i);
    } else if Contains(url, ".net") {
      var i := ContainsFound(url, ".net");
      assert DomainAt(url, i);
    } else if Contains(url, ".org") {
      var i := ContainsFound(url, ".org");
      assert DomainAt(url, i);
    }
    if exists i :: DomainAt(url, i) {
      var i :| DomainAt(url, i);
      if HasPrefix(url[i..], ".com") {
        ContainsAt(url, ".com", i);
      } else if HasPrefix(url[i..], ".net") {
        ContainsAt(url, ".net", i);
      } else {
        ContainsAt(url, ".org", i);
      }
    }
  }

  // ---------------------------------------------------------------------
  // Facts

  /** A string that is converted is judged by its number alone: two
      strings converting to the same number get the same verdict, whatever
      their text and whatever the string rules say. */
  lemma ConvertedStringIgnoresText(s: string, s': string, c: Filter, converted: Number, floatVerdict: bool)
    requires c.convertStringToNumber == "true"
    ensures Validate(StrValue(s), c, converted, floatVerdict) == Validate(StrValue(s'), c, converted, floatVerdict)
    ensures converted.NumOther? ==> !Validate(StrValue(s), c, converted, floatVerdict)
  {
  }

  /** An empty Contains text and empty or non-string equality bounds
      accept every string. */
  lemma {:induction false} UnconstrainedStringFilter(s: string, c: Filter)
    requires c.contains == "" && ActiveString(c.isEqualTo).None? && ActiveString(c.isNotEqualTo).None?
    ensures ValidateString(s, c)
  {
    assert HasPrefix(s, "");
  }

  /** The integers a filter accepts lie in an interval, except perhaps
      for the one IsNotEqualTo excludes. */
  lemma {:induction false} AcceptedIntsAreAnInterval(lo: int, i: int, hi: int, c: Filter)
    requires lo <= i <= hi && ValidateInt(lo, c) && ValidateInt(hi, c)
    requires ActiveInt(c.isNotEqualTo).Some? ==> i != ActiveInt(c.isNotEqualTo).value
    ensures ValidateInt(i, c)
  {
  }

  /** A number bound of 0 is the same as no bound at all. */
  lemma {:induction false} ZeroBoundIsNoBound(i: int, c: Filter)
    ensures ValidateInt(i, c.(isLessThan := NumBound(0), isGreaterThan := NumBound(0)))
         == ValidateInt(i, c.(isLessThan := NoBound, isGreaterThan := NoBound))
  {
  }

  /** Adding text around a URL keeps it a URL. */
  lemma {:induction false} URLInLongerText(x: string, url: string, y: string)
    requires IsURL(url)
    ensures IsURL(x + url + y)
  {
    var pat := if Contains(url, ".com") then ".com" else if Contains(url, ".net") then ".net" else ".org";
    ContainedInLonger(x, url, pat);
    ContainedPrefixSurvives(x + url, y, pat);
  }

  /** The string case of the filter's own test table: "string", with
      Contains "st", IsEqualTo "string" and IsNotEqualTo "strin", passes. */
  lemma StringFilterExample(c: Filter, converted: Number, floatVerdict: bool)
    requires c == Filter(NoBound, NoBound, StrBound("string"), StrBound("strin"), "st", "false")
    ensures Validate(StrValue("string"), c, converted, floatVerdict)
  {
    assert HasPrefix("string", "st");
  }

  /** Text ending in one of the three domains is a URL. */
  lemma {:induction false} DomainSuffixIsURL(url: string)
    requires HasSuffix(url, ".com") || HasSuffix(url, ".net") || HasSuffix(url, ".org")
    ensures IsURL(url)
  {
    if HasSuffix(url, ".com") {
      SuffixIsContained(url, ".com");
    } else if HasSuffix(url, ".net") {
      SuffixIsContained(url, ".net");
    } else {
      SuffixIsContained(url, ".org");
    }
  }

  /** A plain "google.com" is a URL. */
  lemma GoogleIsURL(u: string)
    requires u == "google.com"
    ensures IsURL(u)
  {
    assert u == "google" + ".com";
    DomainSuffixIsURL(u);
  }

  /** Text too short to hold a domain is not a URL. */
  lemma {:induction false} ShortTextIsNotURL(u: string)
    requires |u| < 4
    ensures !IsURL(u)
  {
    NotContainedInShorter(u, ".com");
    NotContainedInShorter(u, ".net");
    NotContainedInShorter(u, ".org");
  }

  lemma {:induction false} NotContainedInShorter(s: string, sub: string)
    requires |s| < |sub|
    ensures !Contains(s, sub)
    decreases |s|
  {
    if |s| > 0 {
      NotContainedInShorter(s[1..], sub);
    }
  }
}
