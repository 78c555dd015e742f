/** isBlackListedURLPath of the current scraper (pkg/webScraper/webScraper.go):
    whether the path of a URL starts, segment by segment, with a
    blacklisted path. */
module Blacklist {
  import opened Outcomes
  import opened GoStrings

  /** "/s1/.../si" for the segments s1..sn of a path. */
  function PathPrefix(segs: seq<string>, i: nat): string
    requires 1 <= i <= |segs|
  {
    if i == 1 then "/" + segs[0] else PathPrefix(segs, i - 1) + "/" + segs[i - 1]
  }

  /** The i-th path prefix, with or without a final slash, is blacklisted. */
  predicate HitAt(segs: seq<string>, i: int, bl: set<string>) {
    1 <= i <= |segs| && (PathPrefix(segs, i) in bl || PathPrefix(segs, i) + "/" in bl)
  }

  /** Some path prefix of the segments is blacklisted. */
  ghost predicate Blocked(segs: seq<string>, bl: set<string>) {
    exists i :: HitAt(segs, i, bl)
  }

  /** The loop over the parts of the path, with `acc` the `urlToCheck` built
      so far. */
  function ScanPath(parts: seq<string>, acc: string, bl: set<string>): bool
    decreases |parts|
  {
    if |parts| == 0 then false
    else
      var u := acc + parts[0];
      if u == "" then ScanPath(parts[1..], u + "/", bl)
      else if u in bl then true
      else if u + "/" in bl then true
      else ScanPath(parts[1..], u + "/", bl)
  }

  /** What `urlToCheck` holds before the part of index `j` + 1 of the path. */
  function Acc(segs: seq<string>, j: nat): string
    requires j <= |segs|
  {
    if j == 0 then "/" else PathPrefix(segs, j) + "/"
  }

  /** The loop, started at segment `j`, finds exactly the prefixes beyond
      the first `j`. */
  lemma {:induction false} ScanFindsPrefixes(segs: seq<string>, j: nat, bl: set<string>)
    requires j <= |segs|
    ensures ScanPath(segs[j..], Acc(segs, j), bl) <==> exists i :: j < i && HitAt(segs, i, bl)
    decreases |segs| - j
  {
    if j < |segs| {
      var parts := segs[j..];
      var u := Acc(segs, j) + parts[0];
      assert parts[0] == segs[j];
      assert u == PathPrefix(segs, j + 1);
      assert |u| > 0;
      if u in bl || u + "/" in bl {
        assert HitAt(segs, j + 1, bl);
      } else {
        assert parts[1..] == segs[j + 1..];
        assert Acc(segs, j + 1) == u + "/";
        ScanFindsPrefixes(segs, j + 1, bl);
        assert !HitAt(segs, j + 1, bl);
      }
    }
  }

  /** isBlackListedURLPath: false for a URL with fewer than three slashes;
      otherwise whether a path prefix of the text after the third slash is
      blacklisted. An empty blacklist blocks nothing. */
  function IsBlackListedURLPath(url: string, bl: set<string>): (b: bool)
    ensures AfterNth(url, '/', 3).None? ==> !b
    ensures AfterNth(url, '/', 3).Some? ==> (b <==> Blocked(Split(AfterNth(url, '/', 3).value, '/'), bl))
    ensures bl == {} ==> !b
  {
    match AfterNth(url, '/', 3)
    case None => false
    case Some(rest) =>
      var segs := Split(rest, '/');
      assert Split("/" + rest, '/') == [""] + segs by {
        assert ("/" + rest)[1..] == rest;
      }
      assert ([""] + segs)[0] == "" && ([""] + segs)[1..] == segs == segs[0..];
      assert "" + "" == "" && "" + "/" == "/";
      assert ScanPath([""] + segs, "", bl) == ScanPath(segs[0..], Acc(segs, 0), bl);
      ScanFindsPrefixes(segs, 0, bl);
      ScanPath(Split("/" + rest, '/'), "", bl)
  }

  /** Adding paths to the blacklist never unblocks a URL. */
  lemma {:induction false} BlacklistMonotone(url: string, bl: set<string>, more: set<string>)
    requires bl <= more && IsBlackListedURLPath(url, bl)
    ensures IsBlackListedURLPath(url, more)
  {
    var segs := Split(AfterNth(url, '/', 3).value, '/');
    var i :| HitAt(segs, i, bl);
    assert HitAt(segs, i, more);
  }

  /** The path after "scheme://host/" is the text after the third slash. */
  lemma {:induction false} PathOfURL(scheme: string, host: string, path: string)
    requires '/' !in scheme && '/' !in host
    ensures AfterNth(scheme + "//" + host + "/" + path, '/', 3) == Some(path)
  {
    var r1 := host + "/" + path;
    SkipHost(host, path);
    SkipSlash(r1, path);
    SkipScheme(scheme, "/" + r1, path);
    URLPieces(scheme, host, path);
  }

  lemma SkipHost(host: string, path: string)
    requires '/' !in host
    ensures AfterNth(host + "/" + path, '/', 1) == Some(path)
  {
    AfterNthSkip(host, path, '/', 0);
  }

  lemma SkipSlash(r: string, path: string)
    requires AfterNth(r, '/', 1) == Some(path)
    ensures AfterNth("/" + r, '/', 2) == Some(path)
  {
    assert ("/" + r)[0] == '/' && ("/" + r)[1..] == r;
  }

  lemma SkipScheme(scheme: string, r: string, path: string)
    requires '/' !in scheme && AfterNth(r, '/', 2) == Some(path)
    ensures AfterNth(scheme + "/" + r, '/', 3) == Some(path)
  {
    AfterNthSkip(scheme, r, '/', 2);
  }

  lemma URLPieces(scheme: string, host: string, path: string)
    ensures scheme + "/" + ("/" + (host + "/" + path)) == scheme + "//" + host + "/" + path
  {
  }

  /** A URL "scheme://host/s1/.../sn" is blocked exactly when a path
      prefix of its segments is. */
  lemma {:induction false} SegmentedURL(url: string, scheme: string, host: string, segs: seq<string>, bl: set<string>)
    requires '/' !in scheme && '/' !in host && |segs| >= 1
    requires forall i :: 0 <= i < |segs| ==> '/' !in segs[i]
    requires url == scheme + "//" + host + "/" + Join(segs, '/')
    ensures IsBlackListedURLPath(url, bl) <==> Blocked(segs, bl)
  {
    PathOfURL(scheme, host, Join(segs, '/'));
    SplitJoin(segs, '/');
  }

  /** The two cases of the scraper's test table. Each literal equality is
      its own small lemma: together in one context they exceed the
      solver's budget. */
  lemma {:induction false} AmazonCartExample(bl: set<string>, cart: string, other: string)
    requires bl == {"/gp/cart"}
    requires cart == "https://www.amazon.com/gp/cart/view.html?ref_=nav_cart"
    requires other == "https://www.amazon.com/gp/view.html?ref_=nav_cart"
    ensures IsBlackListedURLPath(cart, bl)
    ensures !IsBlackListedURLPath(other, bl)
  {
    var scheme, host, segs1, segs2 := ExamplePieces(cart, other);
    SegmentedURL(cart, scheme, host, segs1, bl);
    SegmentedURL(other, scheme, host, segs2, bl);
    ExampleBlocked(segs1, bl);
    ExampleNotBlocked(segs2, bl);
  }

  lemma ExamplePieces(cart: string, other: string) returns (scheme: string, host: string, segs1: seq<string>, segs2: seq<string>)
    requires cart == "https://www.amazon.com/gp/cart/view.html?ref_=nav_cart"
    requires other == "https://www.amazon.com/gp/view.html?ref_=nav_cart"
    ensures '/' !in scheme && '/' !in host && |segs1| >= 1 && |segs2| >= 1
    ensures forall i :: 0 <= i < |segs1| ==> '/' !in segs1[i]
    ensures forall i :: 0 <= i < |segs2| ==> '/' !in segs2[i]
    ensures cart == scheme + "//" + host + "/" + Join(segs1, '/')
    ensures other == scheme + "//" + host + "/" + Join(segs2, '/')
    ensures segs1 == ["gp", "cart", "view.html?ref_=nav_cart"] && segs2 == ["gp", "view.html?ref_=nav_cart"]
  {
    var site := "https://www.amazon.com/";
    scheme, host := "https:", "www.amazon.com";
    var gp, cartSeg, page := "gp", "cart", "view.html?ref_=nav_cart";
    var path1, tail1, path2 := "gp/cart/view.html?ref_=nav_cart", "cart/view.html?ref_=nav_cart", "gp/view.html?ref_=nav_cart";
    ExampleSite(site, scheme, host);
    ExampleURL(cart, site, path1);
    ExampleOtherURL(other, site, path2);
    ExampleSegment(path1, gp, tail1);
    ExampleCartSegment(tail1, cartSeg, page);
    ExampleOtherSegment(path2, gp, page);
    ExampleSegmentsFree(gp, cartSeg, page);
    segs1, segs2 := [gp, cartSeg, page], [gp, page];
    assert segs1[1..] == [cartSeg, page] && segs1[1..][1..] == [page] && segs2[1..] == [page];
    assert Join(segs1[1..], '/') == cartSeg + "/" + page == tail1;
    assert Join(segs1, '/') == gp + "/" + tail1 == path1;
    assert Join(segs2, '/') == gp + "/" + page == path2;
  }

  lemma ExampleSite(site: string, scheme: string, host: string)
    requires site == "https://www.amazon.com/" && scheme == "https:" && host == "www.amazon.com"
    ensures site == scheme + "//" + host + "/" && '/' !in scheme && '/' !in host
  {
  }

  lemma ExampleURL(url: string, site: string, path: string)
    requires site == "https://www.amazon.com/"
    requires url == "https://www.amazon.com/gp/cart/view.html?ref_=nav_cart" && path == "gp/cart/view.html?ref_=nav_cart"
    ensures url == site + path
  {
  }

  lemma ExampleOtherURL(url: string, site: string, path: string)
    requires site == "https://www.amazon.com/"
    requires url == "https://www.amazon.com/gp/view.html?ref_=nav_cart" && path == "gp/view.html?ref_=nav_cart"
    ensures url == site + path
  {
  }

  lemma ExampleSegment(s: string, seg: string, rest: string)
    requires s == "gp/cart/view.html?ref_=nav_cart" && seg == "gp" && rest == "cart/view.html?ref_=nav_cart"
    ensures s == seg + "/" + rest
  {
  }

  lemma ExampleCartSegment(s: string, seg: string, rest: string)
    requires s == "cart/view.html?ref_=nav_cart" && seg == "cart" && rest == "view.html?ref_=nav_cart"
    ensures s == seg + "/" + rest
  {
  }

  lemma ExampleOtherSegment(s: string, seg: string, rest: string)
    requires s == "gp/view.html?ref_=nav_cart" && seg == "gp" && rest == "view.html?ref_=nav_cart"
    ensures s == seg + "/" + rest
  {
  }

  lemma ExampleSegmentsFree(a: string, b: string, c: string)
    requires a == "gp" && b == "cart" && c == "view.html?ref_=nav_cart"
    ensures '/' !in a && '/' !in b && '/' !in c
  {
  }

  lemma ExampleBlocked(segs: seq<string>, bl: set<string>)
    requires segs == ["gp", "cart", "view.html?ref_=nav_cart"] && bl == {"/gp/cart"}
    ensures Blocked(segs, bl)
  {
    assert PathPrefix(segs, 2) == "/gp/cart";
    assert HitAt(segs, 2, bl);
  }

  lemma ExampleNotBlocked(segs: seq<string>, bl: set<string>)
    requires segs == ["gp", "view.html?ref_=nav_cart"] && bl == {"/gp/cart"}
    ensures !Blocked(segs, bl)
  {
    assert PathPrefix(segs, 1) == "/gp";
    assert PathPrefix(segs, 2) == "/gp/view.html?ref_=nav_cart";
    assert |"/gp/view.html?ref_=nav_cart"| != |"/gp/cart"|;
    assert forall i :: 1 <= i <= 2 ==> !HitAt(segs, i, bl);
  }
}
