/** How both crawlers read a site's robots.txt: where they fetch it from,
    and which Disallow lines become blacklisted paths
    (initRobotsTxtRestrictions in pkg/webCrawler.go and
    webCrawler/webCrawler.go, which agree line for line). */
module Robots {
  import opened Outcomes
  import opened GoStrings
  import opened Blacklist

  // ---------------------------------------------------------------------
  // Where robots.txt is fetched from

  /** The text the robots.txt URL is built around: after the third slash
      for an http:// or https:// URL, after the first slash otherwise;
      `None` where the Go code indexes past the end of strings.SplitAfterN
      and panics. */
  function RobotsPath(url: string): (r: Option<string>)
    ensures r.Some? ==> HasSuffix(url, r.value) && |r.value| < |url|
  {
    if HasPrefix(url, "http://") || HasPrefix(url, "https://") then AfterNth(url, '/', 3)
    else AfterNth(url, '/', 1)
  }

  /** generateRobotsTxtURLPath as written: the first occurrence of that
      text anywhere in the URL is replaced by "robots.txt". */
  function RobotsTxtURLAsWritten(url: string): (r: Option<string>)
    ensures r.Some? <==> RobotsPath(url).Some?
  {
    match RobotsPath(url)
    case None => None
    case Some(path) => Some(ReplaceFirst(url, path, "robots.txt"))
  }

  /** generateRobotsTxtURLPath as intended: the path at the end of the URL
      is replaced by "robots.txt", so that for an http(s) URL the path of
      the result is exactly "robots.txt" on the same host. */
  function RobotsTxtURL(url: string): (r: Option<string>)
    ensures r.Some? <==> RobotsPath(url).Some?
    ensures r.Some? ==> HasSuffix(r.value, "robots.txt")
    ensures r.Some? ==> r.value[..|r.value| - |"robots.txt"|] == url[..|url| - |RobotsPath(url).value|]
  {
    match RobotsPath(url)
    case None => None
    case Some(path) => Some(url[..|url| - |path|] + "robots.txt")
  }

  /** For an http(s) URL, the text after the third slash of the intended
      robots.txt URL is "robots.txt": same scheme and host, path robots.txt. */
  lemma {:induction false} RobotsTxtURLPath(url: string)
    requires HasPrefix(url, "http://") || HasPrefix(url, "https://")
    requires RobotsTxtURL(url).Some?
    ensures AfterNth(RobotsTxtURL(url).value, '/', 3) == Some("robots.txt")
  {
    AfterNthReplaceTail(url, '/', 3, "robots.txt");
  }

  /** The code as written agrees with the intended URL exactly when the
      path does not occur earlier in the URL. */
  lemma {:induction false} AsWrittenAgreesWhenPathFirst(url: string)
    requires RobotsPath(url).Some?
    requires FirstAt(url, RobotsPath(url).value, |url| - |RobotsPath(url).value|)
    ensures RobotsTxtURLAsWritten(url) == RobotsTxtURL(url)
  {
    var path := RobotsPath(url).value;
    var k := |url| - |path|;
    ReplaceFirstAt(url, path, "robots.txt", k);
    assert url[k + |path|..] == [];
    assert url[..k] + "robots.txt" + url[k + |path|..] == url[..k] + "robots.txt";
    assert RobotsTxtURL(url) == Some(url[..k] + "robots.txt");
    assert RobotsTxtURLAsWritten(url) == Some(ReplaceFirst(url, path, "robots.txt"));
  }

  /** A page path that also appears in the host is replaced in the host:
      "http://a/a" gives "http://robots.txt/a", not "http://a/robots.txt". */
  lemma PathInHostReplacesHost(url: string)
    requires url == "http://a/a"
    ensures RobotsTxtURLAsWritten(url) == Some("http://robots.txt/a")
    ensures RobotsTxtURL(url) == Some("http://a/robots.txt")
  {
    var path := PathAfterHost(url);
    assert ReplaceFirst(url, path, "robots.txt") == "http://robots.txt/a" by {
      ReplaceFirstAt(url, path, "robots.txt", 7);
      assert url[..7] == "http://" && url[8..] == "/a";
    }
    assert url[..|url| - |path|] == "http://a/";
    assert "http://a/" + "robots.txt" == "http://a/robots.txt";
  }

  lemma PathAfterHost(url: string) returns (path: string)
    requires url == "http://a/a"
    ensures RobotsPath(url) == Some(path) && path == "a"
    ensures FirstAt(url, path, 7)
  {
    path := "a";
    HttpPath(url, "a", path);
    assert FirstAt(url, path, 7) by {
      assert forall j :: 0 <= j < 7 ==> url[j] != 'a';
      FirstCharAt(url, 'a', 7);
    }
  }

  /** The path of "http://host/path" is the text after the host's slash. */
  lemma HttpPath(url: string, host: string, path: string)
    requires '/' !in host && url == "http://" + host + "/" + path
    ensures RobotsPath(url) == Some(path)
    ensures url[..|url| - |path|] == "http://" + host + "/"
  {
    assert url == "http:" + "//" + host + "/" + path;
    PathOfURL("http:", host, path);
    assert url[..7] == "http://";
  }

  /** The first occurrence of a character is where it first appears. */
  lemma FirstCharAt(s: string, ch: char, k: nat)
    requires k < |s| && s[k] == ch && forall j :: 0 <= j < k ==> s[j] != ch
    ensures FirstAt(s, [ch], k)
  {
    assert s[k..][..1] == [ch];
    forall j | 0 <= j < k
      ensures !HasPrefix(s[j..], [ch])
    {
      assert s[j..][0] == s[j];
    }
  }

  /** A URL that is only a host and a slash gets "robots.txt" in front:
      the path is empty, and the empty text occurs at the very start. */
  lemma EmptyPathPrefixesURL(url: string)
    requires url == "http://a/"
    ensures RobotsTxtURLAsWritten(url) == Some("robots.txt" + url)
    ensures RobotsTxtURL(url) == Some("http://a/robots.txt")
  {
    HttpPath(url, "a", "");
    assert url[..|url| - 0] == url;
    assert HasPrefix(url, "");
    assert url + "robots.txt" == "http://a/robots.txt";
  }

  // ---------------------------------------------------------------------
  // Reading robots.txt

  /** The blacklisted path of a Disallow line: the word after the first
      space, with every '*' removed. */
  function RobotsKey(line: string): (k: string)
    requires Contains(line, "Disallow: ")
    ensures '*' !in k
  {
    ContainsChar(line, "Disallow: ", ' ');
    SplitAtSeparator(line, ' ');
    ReplaceAllRemovesChar(Split(line, ' ')[1], '*');
    ReplaceAll(Split(line, ' ')[1], "*", "")
  }

  /** The loop over the lines of robots.txt, with `addRule` set once a
      "User-agent: *" line was seen: such lines are skipped, another
      "User-agent: " line ends the loop, and while `addRule` is set each
      "Disallow: " line adds its path to the blacklist `bl`. */
  function ParseRobots(lines: seq<string>, addRule: bool, bl: set<string>): (r: set<string>)
    ensures bl <= r
    ensures forall k :: k in r && k !in bl ==> '*' !in k
    decreases |lines|
  {
    if |lines| == 0 then bl
    else
      var line := lines[0];
      if Contains(line, "User-agent: *") then ParseRobots(lines[1..], true, bl)
      else if Contains(line, "User-agent: ") && addRule then bl
      else if addRule && Contains(line, "Disallow: ") then ParseRobots(lines[1..], addRule, bl + {RobotsKey(line)})
      else ParseRobots(lines[1..], addRule, bl)
  }

  /** initRobotsTxtRestrictions after the fetch: the body is split into
      lines and parsed into the existing blacklist. */
  function RobotsRestrictions(body: string, bl: set<string>): (r: set<string>)
    ensures bl <= r
    ensures forall k :: k in r && k !in bl ==> '*' !in k
  {
    ParseRobots(Split(body, '\n'), false, bl)
  }

  // A reference reading: the rules of the first group for all agents.

  /** The lines after the first "User-agent: *" line, if there is one. */
  function AfterAnyAgent(lines: seq<string>): Option<seq<string>>
    decreases |lines|
  {
    if |lines| == 0 then None
    else if Contains(lines[0], "User-agent: *") then Some(lines[1..])
    else AfterAnyAgent(lines[1..])
  }

  /** A line naming some other agent. */
  predicate OtherAgent(line: string) {
    Contains(line, "User-agent: ") && !Contains(line, "User-agent: *")
  }

  /** The lines up to the first line naming another agent. */
  function Group(lines: seq<string>): (g: seq<string>)
    ensures |g| <= |lines| && g == lines[..|g|]
    ensures forall i :: 0 <= i < |g| ==> !OtherAgent(g[i])
    decreases |lines|
  {
    if |lines| == 0 || OtherAgent(lines[0]) then []
    else
      var rest := Group(lines[1..]);
      assert forall i :: 1 <= i < |rest| + 1 ==> ([lines[0]] + rest)[i] == rest[i - 1];
      [lines[0]] + rest
  }

  /** The paths of the Disallow lines among `lines`, agent lines aside. */
  function DisallowKeys(lines: seq<string>): set<string>
    decreases |lines|
  {
    if |lines| == 0 then {}
    else
      var line := lines[0];
      (if Contains(line, "Disallow: ") && !Contains(line, "User-agent: *") then {RobotsKey(line)} else {})
      + DisallowKeys(lines[1..])
  }

  lemma {:induction false} ParseInGroup(lines: seq<string>, bl: set<string>)
    ensures ParseRobots(lines, true, bl) == bl + DisallowKeys(Group(lines))
    decreases |lines|
  {
    if |lines| > 0 {
      var line := lines[0];
      if Contains(line, "User-agent: *") {
        ParseInGroup(lines[1..], bl);
      } else if Contains(line, "User-agent: ") {
      } else if Contains(line, "Disallow: ") {
        ParseInGroup(lines[1..], bl + {RobotsKey(line)});
      } else {
        ParseInGroup(lines[1..], bl);
      }
    }
  }

  lemma {:induction false} ParseBeforeGroup(lines: seq<string>, bl: set<string>)
    ensures AfterAnyAgent(lines).None? ==> ParseRobots(lines, false, bl) == bl
    ensures AfterAnyAgent(lines).Some? ==>
              ParseRobots(lines, false, bl) == bl + DisallowKeys(Group(AfterAnyAgent(lines).value))
    decreases |lines|
  {
    if |lines| > 0 {
      if Contains(lines[0], "User-agent: *") {
        ParseInGroup(lines[1..], bl);
      } else {
        ParseBeforeGroup(lines[1..], bl);
      }
    }
  }

  /** robots.txt adds to the blacklist exactly the Disallow paths of the
      first group for all agents, up to the next line naming another
      agent; without a "User-agent: *" line it adds nothing. */
  lemma {:induction false} RobotsFollowFirstGroup(body: string, bl: set<string>)
    ensures var lines := Split(body, '\n');
            RobotsRestrictions(body, bl)
            == bl + (if AfterAnyAgent(lines).None? then {} else DisallowKeys(Group(AfterAnyAgent(lines).value)))
  {
    ParseBeforeGroup(Split(body, '\n'), bl);
  }

  /** A Disallow line for the path "/" with a trailing star blacklists "/". */
  lemma DisallowKeyExample(line: string)
    requires line == "Disallow: /*"
    ensures Contains(line, "Disallow: ") && RobotsKey(line) == "/"
  {
    assert HasPrefix(line, "Disallow: ");
    assert line == "Disallow:" + [' '] + "/*";
    SplitWord("Disallow:", "/*", ' ');
    assert "/*"[..1] == "/" && "/*"[1..] == "*" && "*"[1..] == "";
    assert ReplaceAll("*", "*", "") == "";
    assert ReplaceAll("/*", "*", "") == "/" + ReplaceAll("*", "*", "");
  }

  /** Splitting "a b", where neither word holds the separator, gives the
      two words. */
  lemma SplitWord(a: string, b: string, c: char)
    requires c !in a && c !in b
    ensures Split(a + [c] + b, c) == [a, b]
  {
    assert a + [c] + b == Join([a, b], c);
    SplitJoin([a, b], c);
  }

  /** "/", the key that robots.txt uses to disallow a whole site, blocks
      only URLs whose path starts with an empty segment, such as the root
      "scheme://host/" itself: it is compared with each path prefix, never
      taken as a prefix of every path. */
  lemma {:induction false} RootKeyBlocksOnlyEmptyFirstSegment(url: string, scheme: string, host: string, segs: seq<string>)
    requires '/' !in scheme && '/' !in host && |segs| >= 1
    requires forall i :: 0 <= i < |segs| ==> '/' !in segs[i]
    requires url == scheme + "//" + host + "/" + Join(segs, '/')
    ensures IsBlackListedURLPath(url, {"/"}) <==> segs[0] == ""
  {
    SegmentedURL(url, scheme, host, segs, {"/"});
    if segs[0] == "" {
      assert PathPrefix(segs, 1) == "/";
      assert HitAt(segs, 1, {"/"});
    } else {
      forall i | 1 <= i <= |segs| ensures !HitAt(segs, i, {"/"}) {
        PathPrefixLength(segs, i);
      }
    }
  }

  lemma {:induction false} PathPrefixLength(segs: seq<string>, i: nat)
    requires 1 <= i <= |segs| && segs[0] != ""
    ensures |PathPrefix(segs, i)| >= 2
    decreases i
  {
    if i > 1 {
      PathPrefixLength(segs, i - 1);
    }
  }
}
