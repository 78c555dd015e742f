/** The three ways the code looks up an attribute of a token, which differ
    in what they return when the attribute is absent:

    - extractAttributeValue (current scraper): "" and an error;
    - getHTTPAttributeValueFromToken (old scraper, and its copy in the old
      crawler package): the sentinel "empty string" and errEmptyParameter;
    - getHTTPAttributeValueFromToken of the Amazon client: the value of the
      LAST attribute with the key, and an error whenever that value is "".
 */
module Attributes {
  import opened Outcomes
  import opened Html

  /** `i` is the position of the first attribute whose key is `k`. */
  predicate FirstWithKey(attrs: seq<Attribute>, k: string, i: int) {
    0 <= i < |attrs| && attrs[i].key == k && forall j :: 0 <= j < i ==> attrs[j].key != k
  }

  /** `i` is the position of the last attribute whose key is `k`. */
  predicate LastWithKey(attrs: seq<Attribute>, k: string, i: int) {
    0 <= i < |attrs| && attrs[i].key == k && forall j :: i < j < |attrs| ==> attrs[j].key != k
  }

  predicate HasKey(attrs: seq<Attribute>, k: string) {
    exists i :: 0 <= i < |attrs| && attrs[i].key == k
  }

  /** An attribute with key `k` has a first occurrence. */
  lemma {:induction false} FirstExists(attrs: seq<Attribute>, k: string)
    ensures HasKey(attrs, k) ==> exists i :: FirstWithKey(attrs, k, i)
    decreases |attrs|
  {
    if |attrs| == 0 {
    } else if attrs[0].key == k {
      assert FirstWithKey(attrs, k, 0);
    } else if HasKey(attrs, k) {
      var j :| 0 <= j < |attrs| && attrs[j].key == k;
      assert attrs[1..][j - 1].key == k;
      FirstExists(attrs[1..], k);
      var i :| FirstWithKey(attrs[1..], k, i);
      assert FirstWithKey(attrs, k, i + 1);
    }
  }

  /** How the `for _, a := range token.Attr` loop ends: by returning the
      value of a matching attribute, or by running out of attributes with
      `attributeValue` as the loop left it. */
  datatype Scan = Returned(val: string) | FellThrough(val: string)

  /** The lookup loop shared by extractAttributeValue and the old
      getHTTPAttributeValueFromToken; `acc` is `attributeValue` on entry. */
  function ScanAttrs(attrs: seq<Attribute>, k: string, acc: string): (r: Scan)
    ensures r.Returned? <==> HasKey(attrs, k)
    ensures r.Returned? ==> forall i :: FirstWithKey(attrs, k, i) ==> r.val == attrs[i].val
    ensures r.FellThrough? ==> r.val == acc
    decreases |attrs|
  {
    if |attrs| == 0 then FellThrough(acc)
    else if attrs[0].key == k then Returned(attrs[0].val)
    else
      var r := ScanAttrs(attrs[1..], k, acc);
      assert forall i :: FirstWithKey(attrs, k, i) ==> FirstWithKey(attrs[1..], k, i - 1);
      assert HasKey(attrs[1..], k) ==> HasKey(attrs, k) by {
        if HasKey(attrs[1..], k) {
          var i :| 0 <= i < |attrs[1..]| && attrs[1..][i].key == k;
          assert attrs[i + 1].key == k;
        }
      }
      r
  }

  /** extractAttributeValue (pkg/webScraper/httpExtractor.go). The last
      `return attributeValue, nil` is never reached: the loop only falls
      through with `attributeValue` still "". */
  function ExtractAttributeValue(t: Token, k: string): (r: Ret<string>)
    ensures r.Ok() <==> HasKey(t.Attrs(), k)
    ensures r.Ok() ==> forall i :: FirstWithKey(t.Attrs(), k, i) ==> r.value == t.Attrs()[i].val
    ensures !r.Ok() ==> r == Ret("", Failed(Unnamed))
  {
    match ScanAttrs(t.Attrs(), k, "")
    case Returned(v) => Ret(v, Nil)
    case FellThrough(v) => if v == "" then Ret(v, Failed(Unnamed)) else Ret(v, Nil)
  }

  /** What the old lookup returns for an absent attribute. */
  const Sentinel: string := "empty string"

  /** getHTTPAttributeValueFromToken (webCrawler/webScraper/httpExtractor.go
      and its copy webCrawler/httpAttributeExtractor.go). The final
      `return "does not exist", nil` is never reached, for the same reason as
      in ExtractAttributeValue. */
  function SentinelLookup(t: Token, k: string): (r: Ret<string>)
    ensures k == "" || !HasKey(t.Attrs(), k) ==> r == Ret(Sentinel, Failed(ErrEmptyParameter))
    ensures k != "" && HasKey(t.Attrs(), k) ==>
              r.Ok() && forall i :: FirstWithKey(t.Attrs(), k, i) ==> r.value == t.Attrs()[i].val
  {
    if k == "" then Ret(Sentinel, Failed(ErrEmptyParameter))
    else match ScanAttrs(t.Attrs(), k, "")
      case Returned(v) => Ret(v, Nil)
      case FellThrough(v) => if v == "" then Ret(Sentinel, Failed(ErrEmptyParameter)) else Ret("does not exist", Nil)
  }

  /** The old lookup tells a present but empty attribute ("" and no error)
      apart from an absent one (the sentinel and an error). */
  lemma {:induction false} SentinelLookupEmptyVersusAbsent(t: Token, k: string, i: nat)
    requires k != "" && FirstWithKey(t.Attrs(), k, i) && t.Attrs()[i].val == ""
    ensures SentinelLookup(t, k) == Ret("", Nil)
    ensures SentinelLookup(t, k) != SentinelLookup(t.(attrs := []), k)
  {
    assert HasKey(t.Attrs(), k);
    assert t.StartTag?;
    assert !HasKey(t.(attrs := []).Attrs(), k);
  }

  /** The loop of the Amazon client's lookup: it never breaks, so the last
      matching attribute decides; `acc` is the value before the loop. */
  function LastValue(attrs: seq<Attribute>, k: string, acc: string): (r: string)
    ensures HasKey(attrs, k) ==> forall i :: LastWithKey(attrs, k, i) ==> r == attrs[i].val
    ensures !HasKey(attrs, k) ==> r == acc
    decreases |attrs|
  {
    if |attrs| == 0 then acc
    else
      var n := |attrs| - 1;
      if attrs[n].key == k then attrs[n].val
      else
        LastKeyNotLast(attrs, k);
        LastValue(attrs[..n], k, acc)
  }

  /** When the last attribute has another key, the attributes before it
      hold the key, and its last occurrence, exactly as the whole does. */
  lemma LastKeyNotLast(attrs: seq<Attribute>, k: string)
    requires |attrs| > 0 && attrs[|attrs| - 1].key != k
    ensures forall i :: LastWithKey(attrs, k, i) ==> LastWithKey(attrs[..|attrs| - 1], k, i)
    ensures HasKey(attrs, k) ==> HasKey(attrs[..|attrs| - 1], k)
  {
    var n := |attrs| - 1;
    if HasKey(attrs, k) {
      var i :| 0 <= i < |attrs| && attrs[i].key == k;
      assert attrs[..n][i].key == k;
    }
  }

  /** getHTTPAttributeValueFromToken (codyWebAPI/website/amazon/amazon.go). */
  function LastMatchLookup(t: Token, k: string): (r: Ret<string>)
    ensures HasKey(t.Attrs(), k) ==> forall i :: LastWithKey(t.Attrs(), k, i) ==> r.value == t.Attrs()[i].val
    ensures !HasKey(t.Attrs(), k) ==> r.value == ""
    ensures r.Ok() <==> r.value != ""
  {
    var v := LastValue(t.Attrs(), k, "");
    if v == "" then Ret("", Failed(Unnamed)) else Ret(v, Nil)
  }

  /** With two attributes of the same key, the current lookup takes the
      first and the Amazon lookup the last. */
  lemma {:induction false} FirstAndLastDiffer()
    ensures var t := StartTag("a", [Attribute("href", "/x"), Attribute("href", "/y")]);
            ExtractAttributeValue(t, "href") == Ret("/x", Nil) && LastMatchLookup(t, "href") == Ret("/y", Nil)
  {
    var t := StartTag("a", [Attribute("href", "/x"), Attribute("href", "/y")]);
    assert FirstWithKey(t.Attrs(), "href", 0);
    assert LastWithKey(t.Attrs(), "href", 1);
  }

  /** The old lookup's test case: the class of a token whose only
      attribute is class="a-link-normal". The lookup reads only the
      attributes, so the kind of token does not matter. */
  lemma ClassLookupExample(t: Token)
    requires t.Attrs() == [Attribute("class", "a-link-normal")]
    ensures SentinelLookup(t, "class") == Ret("a-link-normal", Nil)
  {
    assert FirstWithKey(t.Attrs(), "class", 0);
  }
}
