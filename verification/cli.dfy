/** The command-line front end of codyWebAPI (codyWebAPI/codyWebAPI.go):
    a line such as "codyWebAPI search --website amazon --item GTX 1080" is
    split into words, checked, and its flags set the search parameters.
    The directory listing that says which websites exist is the parameter
    `supported`. */
module Cli {
  import opened Outcomes
  import opened GoStrings

  const ComponentName := "codyWebAPI"
  const SearchAction := "search"
  const MinimumInputLength := 3

  /** applicationCommands */
  const ApplicationCommands: map<string, string> := map["search" := "search"]

  /** inputParameters: the package-level `test` value the flags update. */
  datatype Params = Params(website: string, item: string)

  /** What parsing leaves behind: the error returned and the parameters,
      updated by every flag that was set before the error. */
  datatype Parsed = Parsed(err: Status, params: Params)

  /** A word that names a flag. */
  predicate IsFlag(w: string) {
    HasPrefix(w, "--")
  }

  /** The errors the flag parser can return. */
  predicate FlagError(s: Status) {
    s == Nil || s == Failed(ErrParseFlag) || s == Failed(ErrFlagNotSet) || s == Failed(ErrUnsupportedFlag)
  }

  /** The website parameter is unchanged or names a supported website. */
  predicate WebsiteKept(before: Params, after: Params, supported: set<string>) {
    after.website == before.website || TrimSpace(after.website) in supported
  }

  /** setParameters: "website" takes the value when the trimmed value is a
      supported website and fails with errWebsiteFlag otherwise; "item"
      always takes it; any other name fails with errUnsupportedFlag. A
      failure changes nothing. */
  function SetParameters(name: string, value: string, p: Params, supported: set<string>): (r: Parsed)
    ensures r.err.Nil? <==> name == "item" || (name == "website" && TrimSpace(value) in supported)
    ensures r.err.Failed? ==> r.params == p
    ensures r.err.Failed? ==> r.err.error == (if name == "website" then ErrWebsiteFlag else ErrUnsupportedFlag)
    ensures r.err.Nil? && name == "item" ==> r.params == p.(item := value)
    ensures r.err.Nil? && name == "website" ==> r.params == p.(website := value)
    ensures WebsiteKept(p, r.params, supported)
  {
    if name == "website" then
      if TrimSpace(value) in supported then Parsed(Nil, p.(website := value))
      else Parsed(Failed(ErrWebsiteFlag), p)
    else if name == "item" then Parsed(Nil, p.(item := value))
    else Parsed(Failed(ErrUnsupportedFlag), p)
  }

  /** The loop of parseFlags over the words still to read, `rest`, with the
      current flag name and the value gathered for it so far. A value is
      handed to setParameters at the last word and before every flag. */
  function Scan(rest: seq<string>, flag: string, value: string, p: Params, supported: set<string>): (r: Parsed)
    ensures FlagError(r.err) && r.err != Failed(ErrParseFlag)
    ensures WebsiteKept(p, r.params, supported)
    decreases |rest|
  {
    if |rest| == 0 then Parsed(Nil, p)
    else
      var word := rest[0];
      var last := |rest| == 1;
      if IsFlag(word) then
        if !last && IsFlag(rest[1]) then Parsed(Failed(ErrFlagNotSet), p)
        else Scan(rest[1..], TrimChar(word, '-'), value, p, supported)
      else
        var v := value + " " + word;
        if last || IsFlag(rest[1]) then
          var s := SetParameters(flag, TrimSpace(v), p, supported);
          if s.err.Failed? then Parsed(Failed(ErrUnsupportedFlag), s.params)
          else Scan(rest[1..], flag, "", s.params, supported)
        else Scan(rest[1..], flag, v, p, supported)
  }

  /** parseFlags: the first word must be a flag. Called only with the
      words after the command, of which there is at least one. */
  function ParseFlags(input: seq<string>, p: Params, supported: set<string>): (r: Parsed)
    requires |input| >= 1
    ensures FlagError(r.err)
    ensures r.err == Failed(ErrParseFlag) <==> !IsFlag(input[0])
    ensures r.err == Failed(ErrParseFlag) ==> r.params == p
    ensures WebsiteKept(p, r.params, supported)
  {
    if !IsFlag(input[0]) then Parsed(Failed(ErrParseFlag), p)
    else Scan(input, "", "", p, supported)
  }

  /** The result of parseInput together with the package-level
      `applicationCommand`, which it sets once the command is recognised. */
  datatype Input = Input(err: Status, command: Option<string>, params: Params)

  /** parseInput: at least three space-separated words, the first the
      component's name and the second a known command; the rest are flags. */
  function ParseInput(line: string, p: Params, supported: set<string>): (r: Input)
    ensures var words := Split(line, ' ');
            r.err == Failed(ErrInput) <==>
              |words| < MinimumInputLength || words[0] != ComponentName || words[1] !in ApplicationCommands
    ensures r.err == Failed(ErrInput) ==> r.command.None? && r.params == p
    ensures r.err != Failed(ErrInput) ==> r.command == Some(SearchAction) && FlagError(r.err)
    ensures WebsiteKept(p, r.params, supported)
  {
    var words := Split(line, ' ');
    if |words| < MinimumInputLength then Input(Failed(ErrInput), None, p)
    else if words[0] != ComponentName then Input(Failed(ErrInput), None, p)
    else if words[1] !in ApplicationCommands then Input(Failed(ErrInput), None, p)
    else
      var command := ApplicationCommands[words[1]];
      var f := ParseFlags(words[2..], p, supported);
      Input(f.err, Some(command), f.params)
  }

  /** callWebsiteFunction: "search" searches the website for the item (the
      search itself is a network call, so the model records the item it
      would search for); any other action fails with errUnsupportedAction. */
  datatype Call = Call(err: Status, searched: Option<string>)

  function CallWebsiteFunction(action: string, params: Params): (r: Call)
    ensures r.err.Nil? <==> action == SearchAction
    ensures r.err.Failed? ==> r.err.error == ErrUnsupportedAction && r.searched.None?
    ensures r.err.Nil? ==> r.searched == Some(params.item)
  {
    if action == SearchAction then Call(Nil, Some(params.item))
    else Call(Failed(ErrUnsupportedAction), None)
  }

  // ---------------------------------------------------------------------
  // A reference reading of the flags: groups of one flag and its values

  /** A flag word and the value words that follow it. */
  datatype Group = Group(flag: string, values: seq<string>)

  predicate WellFormed(gs: seq<Group>) {
    forall i :: 0 <= i < |gs| ==>
      IsFlag(gs[i].flag) && forall j :: 0 <= j < |gs[i].values| ==> !IsFlag(gs[i].values[j])
  }

  /** The words of the groups, in order. */
  function Flatten(gs: seq<Group>): seq<string> {
    if |gs| == 0 then [] else [gs[0].flag] + gs[0].values + Flatten(gs[1..])
  }

  /** The flag name: the word without its leading and trailing dashes. */
  function FlagName(g: Group): string {
    TrimChar(g.flag, '-')
  }

  /** The value: the words joined by single spaces, trimmed. */
  function FlagValue(g: Group): string {
    TrimSpace(Join(g.values, ' '))
  }

  /** The groups applied in order: a group without values fails with
      errFlagNotSet unless it is the last one, which is then ignored; a
      value that setParameters refuses fails with errUnsupportedFlag. */
  function ApplyGroups(gs: seq<Group>, p: Params, supported: set<string>): Parsed
    decreases |gs|
  {
    if |gs| == 0 then Parsed(Nil, p)
    else if |gs[0].values| == 0 then
      if |gs| > 1 then Parsed(Failed(ErrFlagNotSet), p) else Parsed(Nil, p)
    else
      var s := SetParameters(FlagName(gs[0]), FlagValue(gs[0]), p, supported);
      if s.err.Failed? then Parsed(Failed(ErrUnsupportedFlag), p)
      else ApplyGroups(gs[1..], s.params, supported)
  }

  /** The number of words before the next flag. */
  function LeadingValues(ws: seq<string>): (n: nat)
    ensures n <= |ws|
    ensures forall i :: 0 <= i < n ==> !IsFlag(ws[i])
    ensures n < |ws| ==> IsFlag(ws[n])
    decreases |ws|
  {
    if |ws| == 0 || IsFlag(ws[0]) then 0 else 1 + LeadingValues(ws[1..])
  }

  /** The words cut into groups, each starting at a flag. */
  function GroupWords(input: seq<string>): (gs: seq<Group>)
    requires |input| >= 1 && IsFlag(input[0])
    ensures |gs| >= 1 && WellFormed(gs) && Flatten(gs) == input
    decreases |input|
  {
    var n := LeadingValues(input[1..]);
    var g := Group(input[0], input[1..1 + n]);
    var rest := input[1 + n..];
    assert input == [input[0]] + input[1..1 + n] + rest;
    assert forall j :: 0 <= j < n ==> g.values[j] == input[1..][j];
    assert WellFormed([g]);
    if |rest| == 0 then
      assert Flatten([g]) == [g.flag] + g.values + [];
      [g]
    else
      var more := GroupWords(rest);
      assert ([g] + more)[1..] == more;
      [g] + more
  }

  lemma TrimLeadingSpace(x: string)
    ensures TrimSpace(" " + x) == TrimSpace(x)
  {
    assert (" " + x)[1..] == x;
  }

  /** The value words up to the next flag are gathered, joined by spaces,
      and handed to setParameters once. */
  lemma {:induction false} ScanValues(vs: seq<string>, next: seq<string>, flag: string, acc: string, p: Params, supported: set<string>)
    requires |vs| >= 1 && forall j :: 0 <= j < |vs| ==> !IsFlag(vs[j])
    requires |next| == 0 || IsFlag(next[0])
    ensures Scan(vs + next, flag, acc, p, supported) ==
              var s := SetParameters(flag, TrimSpace(acc + " " + Join(vs, ' ')), p, supported);
              if s.err.Failed? then Parsed(Failed(ErrUnsupportedFlag), s.params)
              else Scan(next, flag, "", s.params, supported)
    decreases |vs|
  {
    var rest := vs + next;
    assert rest[0] == vs[0];
    if |vs| == 1 {
      assert rest[1..] == next;
      assert Join(vs, ' ') == vs[0];
    } else {
      assert rest[1] == vs[1] && rest[1..] == vs[1..] + next;
      ScanValues(vs[1..], next, flag, acc + " " + vs[0], p, supported);
      assert Join(vs, ' ') == vs[0] + [' '] + Join(vs[1..], ' ');
      assert acc + " " + vs[0] + " " + Join(vs[1..], ' ') == acc + " " + Join(vs, ' ');
    }
  }

  /** A flag followed by a value, or last: the flag becomes current. */
  lemma ScanAtFlag(rest: seq<string>, flag: string, value: string, p: Params, supported: set<string>)
    requires |rest| >= 1 && IsFlag(rest[0]) && (|rest| == 1 || !IsFlag(rest[1]))
    ensures Scan(rest, flag, value, p, supported) == Scan(rest[1..], TrimChar(rest[0], '-'), value, p, supported)
  {
  }

  /** A flag followed by a flag: errFlagNotSet. */
  lemma ScanFlagPair(rest: seq<string>, flag: string, value: string, p: Params, supported: set<string>)
    requires |rest| >= 2 && IsFlag(rest[0]) && IsFlag(rest[1])
    ensures Scan(rest, flag, value, p, supported) == Parsed(Failed(ErrFlagNotSet), p)
  {
  }

  lemma FlattenCons(gs: seq<Group>)
    requires |gs| > 0
    ensures Flatten(gs) == [gs[0].flag] + (gs[0].values + Flatten(gs[1..]))
    ensures |gs| > 1 ==> Flatten(gs[1..])[0] == gs[1].flag
    ensures |gs| == 1 ==> Flatten(gs[1..]) == []
  {
    FlattenSplit(gs);
    if |gs| > 1 {
      FlattenHead(gs[1..]);
    }
  }

  lemma FlattenSplit(gs: seq<Group>)
    requires |gs| > 0
    ensures Flatten(gs) == [gs[0].flag] + (gs[0].values + Flatten(gs[1..]))
  {
    assert Flatten(gs) == [gs[0].flag] + gs[0].values + Flatten(gs[1..]);
  }

  lemma FlattenHead(gs: seq<Group>)
    requires |gs| > 0
    ensures Flatten(gs)[0] == gs[0].flag
  {
    assert Flatten(gs) == [gs[0].flag] + gs[0].values + Flatten(gs[1..]);
  }

  /** A first group without values. */
  lemma ScanEmptyGroup(gs: seq<Group>, flag: string, p: Params, supported: set<string>)
    requires WellFormed(gs) && |gs| > 0 && |gs[0].values| == 0
    ensures Scan(Flatten(gs), flag, "", p, supported) == ApplyGroups(gs, p, supported)
  {
    var rest := Flatten(gs);
    FlattenCons(gs);
    assert rest[1..] == Flatten(gs[1..]);
    if |gs| > 1 {
      ScanFlagPair(rest, flag, "", p, supported);
    } else {
      ScanAtFlag(rest, flag, "", p, supported);
    }
  }

  /** Value words read with nothing gathered yet: their trimmed join is set. */
  lemma ScanFreshValues(vs: seq<string>, next: seq<string>, flag: string, p: Params, supported: set<string>)
    requires |vs| >= 1 && forall j :: 0 <= j < |vs| ==> !IsFlag(vs[j])
    requires |next| == 0 || IsFlag(next[0])
    ensures Scan(vs + next, flag, "", p, supported) ==
              var s := SetParameters(flag, TrimSpace(Join(vs, ' ')), p, supported);
              if s.err.Failed? then Parsed(Failed(ErrUnsupportedFlag), p)
              else Scan(next, flag, "", s.params, supported)
  {
    ScanValues(vs, next, flag, "", p, supported);
    assert "" + " " + Join(vs, ' ') == " " + Join(vs, ' ');
    TrimLeadingSpace(Join(vs, ' '));
  }

  /** A first group with values: they are set, then the other groups are
      read with the value reset. */
  lemma ScanFullGroup(gs: seq<Group>, flag: string, p: Params, supported: set<string>)
    requires WellFormed(gs) && |gs| > 0 && |gs[0].values| > 0
    ensures var s := SetParameters(FlagName(gs[0]), FlagValue(gs[0]), p, supported);
            Scan(Flatten(gs), flag, "", p, supported) ==
              if s.err.Failed? then Parsed(Failed(ErrUnsupportedFlag), p)
              else Scan(Flatten(gs[1..]), FlagName(gs[0]), "", s.params, supported)
  {
    var g := gs[0];
    var tail := Flatten(gs[1..]);
    var rest := Flatten(gs);
    FlattenCons(gs);
    assert rest[1..] == g.values + tail && rest[1] == g.values[0];
    ScanAtFlag(rest, flag, "", p, supported);
    ScanFreshValues(g.values, tail, FlagName(g), p, supported);
  }

  /** The parser's loop reads well-formed groups exactly as ApplyGroups
      applies them. */
  lemma {:induction false} ScanGroups(gs: seq<Group>, flag: string, p: Params, supported: set<string>)
    requires WellFormed(gs)
    ensures Scan(Flatten(gs), flag, "", p, supported) == ApplyGroups(gs, p, supported)
    decreases |gs|
  {
    if |gs| > 0 {
      if |gs[0].values| == 0 {
        ScanEmptyGroup(gs, flag, p, supported);
      } else {
        ScanFullGroup(gs, flag, p, supported);
        var s := SetParameters(FlagName(gs[0]), FlagValue(gs[0]), p, supported);
        if s.err.Nil? {
          assert WellFormed(gs[1..]);
          ScanGroups(gs[1..], FlagName(gs[0]), s.params, supported);
        }
      }
    }
  }

  /** parseFlags agrees with the reference reading: a first word that is
      not a flag fails with errParseFlag, anything else is the groups it is
      made of, applied in order. */
  lemma ParseFlagsByGroups(input: seq<string>, p: Params, supported: set<string>)
    requires |input| >= 1
    ensures ParseFlags(input, p, supported) ==
              if !IsFlag(input[0]) then Parsed(Failed(ErrParseFlag), p)
              else ApplyGroups(GroupWords(input), p, supported)
  {
    if IsFlag(input[0]) {
      ScanGroups(GroupWords(input), "", p, supported);
    }
  }

  /** Every command parseInput accepts is one callWebsiteFunction
      dispatches: an accepted line leads to a search for the item. */
  lemma AcceptedCommandIsDispatched(line: string, p: Params, supported: set<string>)
    ensures var r := ParseInput(line, p, supported);
            r.command.Some? ==> CallWebsiteFunction(r.command.value, r.params) == Call(Nil, Some(r.params.item))
  {
  }

  // ---------------------------------------------------------------------
  // The cases of the parser's test tables

  lemma FlagWords()
    ensures IsFlag("--website") && IsFlag("--item") && IsFlag("--i") && IsFlag("--w")
    ensures IsFlag("--novalue1") && IsFlag("--novalue2")
    ensures !IsFlag("amazon") && !IsFlag("GTX") && !IsFlag("1080")
  {
    assert "amazon"[0] == 'a' && "GTX"[0] == 'G' && "1080"[0] == '1';
  }

  /** Trimming the dashes off "--" + name, for a name that neither starts
      nor ends with a dash. */
  lemma TrimDashes(w: string, name: string)
    requires |name| > 0 && name[0] != '-' && name[|name| - 1] != '-' && w == "--" + name
    ensures TrimChar(w, '-') == name
  {
    assert w[0] == '-' && w[1..] == "-" + name;
    assert w[1..][0] == '-' && w[1..][1..] == name;
    assert TrimChar(w, '-') == TrimChar(w[1..], '-') == TrimChar(name, '-');
  }

  lemma FlagNames()
    ensures TrimChar("--website", '-') == "website" && TrimChar("--item", '-') == "item"
    ensures TrimChar("--i", '-') == "i" && TrimChar("--w", '-') == "w"
  {
    TrimDashes("--website", "website");
    TrimDashes("--item", "item");
    TrimDashes("--i", "i");
    TrimDashes("--w", "w");
  }

  /** Text without space at either end is its own trimming. */
  lemma TrimSpaceUnchanged(s: string)
    requires |s| > 0 && !IsSpace(s[0]) && !IsSpace(s[|s| - 1])
    ensures TrimSpace(s) == s
  {
  }

  lemma JoinStep(a: string, rest: seq<string>, tail: string)
    requires |rest| >= 1 && tail == Join(rest, ' ')
    ensures Join([a] + rest, ' ') == a + " " + tail
  {
    assert ([a] + rest)[1..] == rest;
  }

  lemma OneWordValue(w: string)
    requires w == "amazon" || w == "notsupported"
    ensures TrimSpace(Join([w], ' ')) == w
  {
    TrimSpaceUnchanged(w);
  }

  lemma TwoWordValue()
    ensures TrimSpace(Join(["GTX", "1080"], ' ')) == "GTX 1080"
  {
    JoinStep("GTX", ["1080"], "1080");
    assert ["GTX"] + ["1080"] == ["GTX", "1080"];
    assert "GTX" + " " + "1080" == "GTX 1080";
    TrimSpaceUnchanged("GTX 1080");
  }

  lemma FlattenTwo(g1: Group, g2: Group)
    ensures Flatten([g1, g2]) == [g1.flag] + g1.values + [g2.flag] + g2.values
  {
    assert [g1, g2][0] == g1 && [g1, g2][1..] == [g2];
    assert [g2][0] == g2 && [g2][1..] == [];
    assert Flatten([g2]) == [g2.flag] + g2.values + [];
  }

  /** Two groups with values: the first is set, then the second. */
  lemma ApplyTwo(g1: Group, g2: Group, p: Params, supported: set<string>)
    requires |g1.values| > 0 && |g2.values| > 0
    ensures var s1 := SetParameters(FlagName(g1), FlagValue(g1), p, supported);
            var s2 := SetParameters(FlagName(g2), FlagValue(g2), s1.params, supported);
            ApplyGroups([g1, g2], p, supported) ==
              if s1.err.Failed? || s2.err.Failed? then Parsed(Failed(ErrUnsupportedFlag), s1.params)
              else Parsed(Nil, s2.params)
  {
    assert [g1, g2][0] == g1 && [g1, g2][1..] == [g2];
    assert [g2][0] == g2 && [g2][1..] == [];
    var s1 := SetParameters(FlagName(g1), FlagValue(g1), p, supported);
    assert ApplyGroups([g1, g2], p, supported) ==
      if s1.err.Failed? then Parsed(Failed(ErrUnsupportedFlag), p) else ApplyGroups([g2], s1.params, supported);
    if s1.err.Nil? {
      var s2 := SetParameters(FlagName(g2), FlagValue(g2), s1.params, supported);
      assert ApplyGroups([g2], s1.params, supported) ==
        if s2.err.Failed? then Parsed(Failed(ErrUnsupportedFlag), s1.params) else ApplyGroups([], s2.params, supported);
    }
  }

  /** Words that are two groups are parsed as those groups. */
  lemma TwoGroupsParsed(g1: Group, g2: Group, input: seq<string>, p: Params, supported: set<string>)
    requires WellFormed([g1, g2]) && input == [g1.flag] + g1.values + [g2.flag] + g2.values
    ensures ParseFlags(input, p, supported) == ApplyGroups([g1, g2], p, supported)
  {
    FlattenTwo(g1, g2);
    ScanGroups([g1, g2], "", p, supported);
  }

  /** "--website amazon --item GTX 1080" sets both parameters. */
  lemma SupportedFlagsExample(input: seq<string>, p: Params, supported: set<string>)
    requires input == ["--website", "amazon", "--item", "GTX", "1080"] && "amazon" in supported
    ensures ParseFlags(input, p, supported) == Parsed(Nil, Params("amazon", "GTX 1080"))
  {
    var g1, g2 := Group("--website", ["amazon"]), Group("--item", ["GTX", "1080"]);
    assert WellFormed([g1, g2]) by {
      FlagWords();
    }
    TwoGroupsParsed(g1, g2, input, p, supported);
    assert ApplyGroups([g1, g2], p, supported) == Parsed(Nil, Params("amazon", "GTX 1080")) by {
      FlagNames();
      OneWordValue("amazon");
      TwoWordValue();
      ApplyTwo(g1, g2, p, supported);
    }
  }

  /** "--item GTX 1080 --website amazon", the flags the other way round,
      sets the same parameters. */
  lemma SwappedFlagsExample(input: seq<string>, p: Params, supported: set<string>)
    requires input == ["--item", "GTX", "1080", "--website", "amazon"] && "amazon" in supported
    ensures ParseFlags(input, p, supported) == Parsed(Nil, Params("amazon", "GTX 1080"))
  {
    var g1, g2 := Group("--item", ["GTX", "1080"]), Group("--website", ["amazon"]);
    assert WellFormed([g1, g2]) by {
      FlagWords();
    }
    TwoGroupsParsed(g1, g2, input, p, supported);
    assert ApplyGroups([g1, g2], p, supported) == Parsed(Nil, Params("amazon", "GTX 1080")) by {
      FlagNames();
      OneWordValue("amazon");
      TwoWordValue();
      ApplyTwo(g1, g2, p, supported);
    }
  }

  /** A first word that is not a flag: errParseFlag. */
  lemma NoFlagExample(input: seq<string>, p: Params, supported: set<string>)
    requires input == ["amazon", "--i", "GTX", "1080"]
    ensures ParseFlags(input, p, supported) == Parsed(Failed(ErrParseFlag), p)
  {
    FlagWords();
  }

  /** A flag followed by a flag: errFlagNotSet, whatever the flag. */
  lemma FlagNotSetExample(input: seq<string>, p: Params, supported: set<string>)
    requires input == ["--novalue1", "--novalue2"] || input == ["--website", "--novalue2"]
    ensures ParseFlags(input, p, supported) == Parsed(Failed(ErrFlagNotSet), p)
  {
    FlagWords();
    ScanFlagPair(input, "", "", p, supported);
  }

  /** An unknown first flag: errUnsupportedFlag. */
  lemma UnknownFirstFlagExample(input: seq<string>, p: Params, supported: set<string>)
    requires input == ["--w", "amazon", "--i", "GTX", "1080"]
    ensures ParseFlags(input, p, supported) == Parsed(Failed(ErrUnsupportedFlag), p)
  {
    var g1, g2 := Group("--w", ["amazon"]), Group("--i", ["GTX", "1080"]);
    assert WellFormed([g1, g2]) by {
      FlagWords();
    }
    TwoGroupsParsed(g1, g2, input, p, supported);
    assert FlagName(g1) == "w" by {
      FlagNames();
    }
    ApplyTwo(g1, g2, p, supported);
  }

  /** An unknown flag after a good one: errUnsupportedFlag, with the
      website already set. */
  lemma UnknownSecondFlagExample(input: seq<string>, p: Params, supported: set<string>)
    requires input == ["--website", "amazon", "--i", "GTX", "1080"] && "amazon" in supported
    ensures ParseFlags(input, p, supported) == Parsed(Failed(ErrUnsupportedFlag), p.(website := "amazon"))
  {
    var g1, g2 := Group("--website", ["amazon"]), Group("--i", ["GTX", "1080"]);
    assert WellFormed([g1, g2]) by {
      FlagWords();
    }
    TwoGroupsParsed(g1, g2, input, p, supported);
    assert ApplyGroups([g1, g2], p, supported) == Parsed(Failed(ErrUnsupportedFlag), p.(website := "amazon")) by {
      FlagNames();
      OneWordValue("amazon");
      ApplyTwo(g1, g2, p, supported);
    }
  }

  /** parseInput on words without spaces joined by spaces: the checks are
      made on those words, and the flags are the words after the second. */
  lemma ParseInputOfWords(words: seq<string>, p: Params, supported: set<string>)
    requires |words| >= 1 && forall i :: 0 <= i < |words| ==> ' ' !in words[i]
    ensures ParseInput(Join(words, ' '), p, supported) ==
              if |words| < MinimumInputLength || words[0] != ComponentName || words[1] !in ApplicationCommands
              then Input(Failed(ErrInput), None, p)
              else var f := ParseFlags(words[2..], p, supported); Input(f.err, Some(SearchAction), f.params)
  {
    SplitJoin(words, ' ');
  }

  /** The lines "codyWebAPI" and "codyWebAPI notsupported": errInput, the
      second already because it has fewer than three words. */
  lemma ShortLineExample(words: seq<string>, p: Params, supported: set<string>)
    requires words == ["codyWebAPI"] || words == ["codyWebAPI", "notsupported"]
    ensures ParseInput(Join(words, ' '), p, supported) == Input(Failed(ErrInput), None, p)
  {
    ParseInputOfWords(words, p, supported);
  }

  /** The line "codyWebAPI search --website amazon --item GTX 1080". */
  lemma SearchLineExample(words: seq<string>, p: Params, supported: set<string>)
    requires words == ["codyWebAPI", "search", "--website", "amazon", "--item", "GTX", "1080"]
    requires "amazon" in supported
    ensures ParseInput(Join(words, ' '), p, supported) == Input(Nil, Some("search"), Params("amazon", "GTX 1080"))
  {
    ParseInputOfWords(words, p, supported);
    SupportedFlagsExample(words[2..], p, supported);
  }

  /** The line "codyWebAPI search --website notsupported", with
      "notsupported" not a website: errUnsupportedFlag. */
  lemma UnsupportedWebsiteLineExample(words: seq<string>, p: Params, supported: set<string>)
    requires words == ["codyWebAPI", "search", "--website", "notsupported"]
    requires "notsupported" !in supported
    ensures ParseInput(Join(words, ' '), p, supported) == Input(Failed(ErrUnsupportedFlag), Some("search"), p)
  {
    ParseInputOfWords(words, p, supported);
    UnsupportedWebsiteFlags(words[2..], p, supported);
  }

  lemma UnsupportedWebsiteFlags(input: seq<string>, p: Params, supported: set<string>)
    requires input == ["--website", "notsupported"] && "notsupported" !in supported
    ensures ParseFlags(input, p, supported) == Parsed(Failed(ErrUnsupportedFlag), p)
  {
    var g1 := Group("--website", ["notsupported"]);
    assert [g1][1..] == [] && Flatten([g1]) == input;
    assert WellFormed([g1]) by {
      assert "notsupported"[0] == 'n';
    }
    ScanGroups([g1], "", p, supported);
    assert FlagName(g1) == "website" by {
      FlagNames();
    }
    assert FlagValue(g1) == "notsupported" by {
      OneWordValue("notsupported");
    }
  }

  /** The two dispatch cases: "search" searches, anything else fails. */
  lemma CallExamples(params: Params)
    requires params.item == "GTX 1080"
    ensures CallWebsiteFunction("unsupported", params) == Call(Failed(ErrUnsupportedAction), None)
    ensures CallWebsiteFunction("search", params) == Call(Nil, Some("GTX 1080"))
  {
  }
}

/** The URL builders of the Amazon website (codyWebAPI/website/amazon/amazon.go). */
module Amazon {
  import opened Outcomes
  import opened GoStrings

  const SearchPrefix := "https://www.amazon.com/s?k="
  const SearchSuffix := "&ref=nb_sb_noss_2"
  const Site := "https://www.amazon.com"

  /** generateSearchURL: the item with its spaces written as '+', inside
      the search address; an empty item gives "" with no error. */
  function GenerateSearchURL(item: string): (r: Ret<string>)
    ensures r.err == Nil
    ensures item == "" <==> r.value == ""
    ensures item != "" ==> HasPrefix(r.value, SearchPrefix) && HasSuffix(r.value, SearchSuffix)
    ensures item != "" ==> ' ' !in r.value
  {
    if item == "" then Ret(item, Nil)
    else
      var query := ReplaceAll(item, " ", "+");
      ReplaceCharRemoves(item, ' ', '+');
      assert ' ' !in SearchPrefix && ' ' !in SearchSuffix;
      var url := SearchPrefix + query + SearchSuffix;
      assert url[..|SearchPrefix|] == SearchPrefix;
      assert url[|url| - |SearchSuffix|..] == SearchSuffix;
      Ret(url, Nil)
  }

  /** The query of a search URL. */
  function Query(url: string): string
    requires |url| >= |SearchPrefix| + |SearchSuffix|
  {
    url[|SearchPrefix|..|url| - |SearchSuffix|]
  }

  /** An item without '+' is recovered from its search URL by turning
      every '+' of the query back into a space. */
  lemma SearchURLRoundTrip(item: string)
    requires item != "" && '+' !in item
    ensures ReplaceAll(Query(GenerateSearchURL(item).value), "+", " ") == item
  {
    var query := ReplaceAll(item, " ", "+");
    var url := SearchPrefix + query + SearchSuffix;
    assert Query(url) == query;
    ReplaceCharRoundTrip(item, ' ', '+');
  }

  /** The case of amazon_test.go: "RTX 3080". */
  lemma SearchURLExample(item: string)
    requires item == "RTX 3080"
    ensures GenerateSearchURL(item).value == "https://www.amazon.com/s?k=RTX+3080&ref=nb_sb_noss_2"
  {
    SearchQueryExample(item);
    assert SearchPrefix + "RTX+3080" + SearchSuffix == "https://www.amazon.com/s?k=RTX+3080&ref=nb_sb_noss_2";
  }

  lemma SearchQueryExample(item: string)
    requires item == "RTX 3080"
    ensures ReplaceAll(item, " ", "+") == "RTX+3080"
  {
    var x, y := "RTX", "3080";
    assert item == x + [' '] + y;
    ReplaceCharAfter(x, y, ' ', '+');
    ReplaceCharAbsent(y, ' ', '+');
  }

  /** generateItemURLFromHref: the site address before the href; an empty
      href gives "" with no error. */
  function GenerateItemURLFromHref(href: string): (r: Ret<string>)
    ensures r.err == Nil
    ensures href == "" <==> r.value == ""
    ensures href != "" ==> HasPrefix(r.value, Site) && TrimPrefix(r.value, Site) == href
  {
    if href == "" then Ret(href, Nil)
    else
      var url := Site + href;
      assert url[..|Site|] == Site && url[|Site|..] == href;
      Ret(url, Nil)
  }

  /** Different hrefs give different item URLs. */
  lemma ItemURLInjective(h1: string, h2: string)
    requires GenerateItemURLFromHref(h1).value == GenerateItemURLFromHref(h2).value
    ensures h1 == h2
  {
  }
}
