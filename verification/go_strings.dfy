/** The functions of Go's `strings` package that the crawler uses, over
    `seq<char>`, with the facts about them that the rest of the model needs. */
module GoStrings {
  import opened Outcomes

  /** strings.HasPrefix */
  predicate HasPrefix(s: string, p: string) {
    |p| <= |s| && s[..|p|] == p
  }

  /** strings.HasSuffix */
  predicate HasSuffix(s: string, p: string) {
    |p| <= |s| && s[|s| - |p|..] == p
  }

  /** strings.Contains: `sub` starts at some position of `s`. */
  predicate Contains(s: string, sub: string)
    decreases |s|
  {
    HasPrefix(s, sub) || (|s| > 0 && Contains(s[1..], sub))
  }

  /** strings.TrimPrefix */
  function TrimPrefix(s: string, p: string): (r: string)
    ensures HasSuffix(s, r)
  {
    if HasPrefix(s, p) then s[|p|..] else s
  }

  /** strings.TrimSuffix */
  function TrimSuffix(s: string, p: string): (r: string)
    ensures HasPrefix(s, r)
  {
    if HasSuffix(s, p) then s[..|s| - |p|] else s
  }

  /** strings.ReplaceAll for a non-empty `pat`: every non-overlapping
      occurrence, scanned left to right, is replaced by `rep`. */
  function ReplaceAll(s: string, pat: string, rep: string): string
    requires pat != ""
    decreases |s|
  {
    if |s| == 0 then ""
    else if HasPrefix(s, pat) then rep + ReplaceAll(s[|pat|..], pat, rep)
    else [s[0]] + ReplaceAll(s[1..], pat, rep)
  }

  /** strings.Replace(s, pat, rep, 1): the first occurrence only. An empty
      `pat` matches at the very start, so `rep` is put in front of `s`. */
  function ReplaceFirst(s: string, pat: string, rep: string): string
    decreases |s|
  {
    if HasPrefix(s, pat) then rep + s[|pat|..]
    else if |s| == 0 then s
    else [s[0]] + ReplaceFirst(s[1..], pat, rep)
  }

  /** strings.Split with a one-character separator. */
  function Split(s: string, c: char): (parts: seq<string>)
    ensures |parts| >= 1
    decreases |s|
  {
    if |s| == 0 then [""]
    else
      var rest := Split(s[1..], c);
      if s[0] == c then [""] + rest else [[s[0]] + rest[0]] + rest[1..]
  }

  /** strings.Join with a one-character separator. */
  function Join(parts: seq<string>, c: char): string
  {
    if |parts| == 0 then ""
    else if |parts| == 1 then parts[0]
    else parts[0] + [c] + Join(parts[1..], c)
  }

  /** The text after the `n`-th occurrence of `c`; `None` when `s` holds
      fewer than `n` of them. `strings.SplitN(s, "/", n + 1)` has `n + 1`
      parts exactly when this is `Some`, and its last part is this text;
      the same holds for `strings.SplitAfterN`. */
  function AfterNth(s: string, c: char, n: nat): (r: Option<string>)
    ensures r.Some? ==> HasSuffix(s, r.value)
    ensures r.Some? && n > 0 ==> |r.value| < |s| && s[|s| - |r.value| - 1] == c
    decreases |s|
  {
    if n == 0 then Some(s)
    else if |s| == 0 then None
    else if s[0] == c then AfterNth(s[1..], c, n - 1)
    else AfterNth(s[1..], c, n)
  }

  /** unicode.IsSpace */
  predicate IsSpace(ch: char) {
    || ch == ' ' || ch == '\t' || ch == '\n' || ch == '\r'
    || ch as int == 0x0B || ch as int == 0x0C || ch as int == 0x85 || ch as int == 0xA0
    || ch as int == 0x1680 || (0x2000 <= ch as int <= 0x200A)
    || ch as int == 0x2028 || ch as int == 0x2029 || ch as int == 0x202F
    || ch as int == 0x205F || ch as int == 0x3000
  }

  function TrimLeftSpace(s: string): (r: string)
    ensures HasSuffix(s, r)
    ensures |r| > 0 ==> !IsSpace(r[0])
    decreases |s|
  {
    if |s| > 0 && IsSpace(s[0]) then TrimLeftSpace(s[1..]) else s
  }

  function TrimRightSpace(s: string): (r: string)
    ensures HasPrefix(s, r)
    ensures |r| > 0 ==> !IsSpace(r[|r| - 1])
    decreases |s|
  {
    if |s| > 0 && IsSpace(s[|s| - 1]) then TrimRightSpace(s[..|s| - 1]) else s
  }

  /** strings.TrimSpace */
  function TrimSpace(s: string): (r: string)
    ensures |r| > 0 ==> !IsSpace(r[0]) && !IsSpace(r[|r| - 1])
  {
    TrimRightSpace(TrimLeftSpace(s))
  }

  /** strings.Trim(s, cutset) for a cutset made of the single character `c`
      (Go's `strings.Trim(word, "--")` has the cutset {'-'}). */
  function TrimChar(s: string, c: char): (r: string)
    ensures |r| > 0 ==> r[0] != c && r[|r| - 1] != c
    decreases |s|
  {
    if |s| > 0 && s[0] == c then TrimChar(s[1..], c)
    else if |s| > 0 && s[|s| - 1] == c then TrimChar(s[..|s| - 1], c)
    else s
  }

  // ---------------------------------------------------------------------
  // Facts

  lemma ContainsAt(s: string, sub: string, i: nat)
    requires i <= |s| && HasPrefix(s[i..], sub)
    ensures Contains(s, sub)
    decreases i
  {
    if i > 0 {
      assert s[1..][i - 1..] == s[i..];
      ContainsAt(s[1..], sub, i - 1);
    }
  }

  /** The converse of ContainsAt: a string containing `sub` has a position
      where `sub` starts. */
  lemma {:induction false} ContainsFound(s: string, sub: string) returns (i: nat)
    requires Contains(s, sub)
    ensures i <= |s| && HasPrefix(s[i..], sub)
    decreases |s|
  {
    if HasPrefix(s, sub) {
      i := 0;
      assert s[0..] == s;
    } else {
      var j := ContainsFound(s[1..], sub);
      i := j + 1;
      assert s[1..][j..] == s[i..];
    }
  }

  /** A string ending in `p` contains `p`. */
  lemma {:induction false} SuffixIsContained(s: string, p: string)
    requires HasSuffix(s, p)
    ensures Contains(s, p)
  {
    ContainsAt(s, p, |s| - |p|);
  }

  lemma {:induction false} ContainedInLonger(a: string, b: string, sub: string)
    requires Contains(b, sub)
    ensures Contains(a + b, sub)
    decreases |a|
  {
    if |a| > 0 {
      assert (a + b)[1..] == a[1..] + b;
      ContainedInLonger(a[1..], b, sub);
    } else {
      assert a + b == b;
    }
  }

  lemma {:induction false} ContainedPrefixSurvives(a: string, b: string, sub: string)
    requires Contains(a, sub)
    ensures Contains(a + b, sub)
    decreases |a|
  {
    if HasPrefix(a, sub) {
      assert (a + b)[..|sub|] == a[..|sub|];
    } else {
      assert (a + b)[1..] == a[1..] + b;
      ContainedPrefixSurvives(a[1..], b, sub);
    }
  }

  /** Without an occurrence of `pat`, ReplaceAll changes nothing. */
  lemma {:induction false} ReplaceAllAbsent(s: string, pat: string, rep: string)
    requires pat != "" && !Contains(s, pat)
    ensures ReplaceAll(s, pat, rep) == s
    decreases |s|
  {
    if |s| > 0 {
      ReplaceAllAbsent(s[1..], pat, rep);
    }
  }

  /** Replacing a one-character string by "" removes that character. */
  lemma {:induction false} ReplaceAllRemovesChar(s: string, c: char)
    ensures c !in ReplaceAll(s, [c], "")
    decreases |s|
  {
    if |s| > 0 {
      ReplaceAllRemovesChar(s[1..], c);
    }
  }

  /** No part of a split holds the separator. */
  lemma {:induction false} SplitPartsLackSeparator(s: string, c: char)
    ensures forall i :: 0 <= i < |Split(s, c)| ==> c !in Split(s, c)[i]
    decreases |s|
  {
    if |s| > 0 {
      SplitPartsLackSeparator(s[1..], c);
    }
  }

  /** A string holding the separator splits into at least two parts. */
  lemma {:induction false} SplitAtSeparator(s: string, c: char)
    requires c in s
    ensures |Split(s, c)| >= 2
    decreases |s|
  {
    if s[0] != c {
      SplitAtSeparator(s[1..], c);
    }
  }

  /** Joining the parts of a split gives the string back. */
  lemma {:induction false} JoinSplit(s: string, c: char)
    ensures Join(Split(s, c), c) == s
    decreases |s|
  {
    if |s| > 0 {
      var rest := Split(s[1..], c);
      JoinSplit(s[1..], c);
      if s[0] == c {
        assert Split(s, c) == [""] + rest;
        assert ([""] + rest)[1..] == rest;
        assert s == [c] + s[1..];
      } else if |rest| == 1 {
        assert s == [s[0]] + s[1..];
      } else {
        var parts := [[s[0]] + rest[0]] + rest[1..];
        assert parts[1..] == rest[1..];
        assert Join(rest, c) == rest[0] + [c] + Join(rest[1..], c);
        assert s == [s[0]] + s[1..];
      }
    }
  }

  /** Splitting a join of separator-free parts gives the parts back. */
  lemma {:induction false} SplitJoin(parts: seq<string>, c: char)
    requires |parts| >= 1
    requires forall i :: 0 <= i < |parts| ==> c !in parts[i]
    ensures Split(Join(parts, c), c) == parts
    decreases |parts|, |parts[0]|
  {
    var p := parts[0];
    if |p| == 0 {
      if |parts| > 1 {
        SplitJoin(parts[1..], c);
        assert Join(parts, c) == [c] + Join(parts[1..], c);
        assert (Join(parts, c))[1..] == Join(parts[1..], c);
      }
    } else {
      var parts' := [p[1..]] + parts[1..];
      assert forall i :: 0 <= i < |parts'| ==> c !in parts'[i] by {
        forall i | 0 <= i < |parts'| ensures c !in parts'[i] {
          if i == 0 {
            assert forall x :: x in p[1..] ==> x in p;
          } else {
            assert parts'[i] == parts[i];
          }
        }
      }
      SplitJoin(parts', c);
      assert parts'[1..] == parts[1..];
      assert Join(parts, c) == [p[0]] + Join(parts', c);
      assert Join(parts, c)[1..] == Join(parts', c);
      assert p[0] in p;
      assert [p[0]] + p[1..] == p;
    }
  }

  /** Text free of `c` before an occurrence of `c` only passes by. */
  lemma {:induction false} AfterNthSkip(x: string, y: string, c: char, n: nat)
    requires c !in x
    ensures AfterNth(x + [c] + y, c, n + 1) == AfterNth(y, c, n)
    decreases |x|
  {
    if |x| == 0 {
      assert x + [c] + y == [c] + y;
      assert ([c] + y)[1..] == y;
    } else {
      assert (x + [c] + y)[1..] == x[1..] + [c] + y;
      assert c !in x[1..];
      AfterNthSkip(x[1..], y, c, n);
    }
  }

  /** `pat` occurs at `k` and nowhere before. */
  predicate FirstAt(s: string, pat: string, k: nat) {
    k + |pat| <= |s| && HasPrefix(s[k..], pat) && forall j :: 0 <= j < k ==> !HasPrefix(s[j..], pat)
  }

  /** Dropping a first character that does not start `pat` moves its
      first occurrence one place left. */
  lemma FirstAtTail(s: string, pat: string, k: nat)
    requires k > 0 && FirstAt(s, pat, k)
    ensures FirstAt(s[1..], pat, k - 1) && !HasPrefix(s, pat)
  {
    var t := s[1..];
    assert s[0..] == s;
    assert t[k - 1..] == s[k..];
    forall j | 0 <= j < k - 1
      ensures !HasPrefix(t[j..], pat)
    {
      assert t[j..] == s[j + 1..];
    }
  }

  lemma ReplaceFirstSkip(s: string, pat: string, rep: string)
    requires |s| > 0 && !HasPrefix(s, pat)
    ensures ReplaceFirst(s, pat, rep) == [s[0]] + ReplaceFirst(s[1..], pat, rep)
  {
  }

  /** ReplaceFirst replaces the first occurrence. */
  lemma {:induction false} ReplaceFirstAt(s: string, pat: string, rep: string, k: nat)
    requires FirstAt(s, pat, k)
    ensures ReplaceFirst(s, pat, rep) == s[..k] + rep + s[k + |pat|..]
    decreases k
  {
    if k == 0 {
      assert s[0..] == s;
    } else {
      var t := s[1..];
      FirstAtTail(s, pat, k);
      ReplaceFirstAt(t, pat, rep, k - 1);
      ReplaceFirstSkip(s, pat, rep);
      var a, b := t[..k - 1], t[k - 1 + |pat|..];
      assert [s[0]] + a == s[..k];
      assert b == s[k + |pat|..];
      assert [s[0]] + (a + rep + b) == ([s[0]] + a) + rep + b;
    }
  }

  /** A string that contains `sub` contains each character of it. */
  lemma {:induction false} ContainsChar(s: string, sub: string, ch: char)
    requires Contains(s, sub) && ch in sub
    ensures ch in s
    decreases |s|
  {
    if HasPrefix(s, sub) {
      assert ch in s[..|sub|];
    } else {
      ContainsChar(s[1..], sub, ch);
    }
  }

  /** AfterNth past a first character: the count drops when it is `c`. */
  lemma AfterNthStep(s: string, c: char, n: nat)
    requires n > 0 && |s| > 0
    ensures AfterNth(s, c, n) == AfterNth(s[1..], c, if s[0] == c then n - 1 else n)
  {
  }

  /** Replacing the text after the `n`-th occurrence of `c` by `q` puts `q`
      after the `n`-th occurrence. */
  lemma {:induction false} AfterNthReplaceTail(s: string, c: char, n: nat, q: string)
    requires n > 0 && AfterNth(s, c, n).Some?
    ensures var p := AfterNth(s, c, n).value;
            AfterNth(s[..|s| - |p|] + q, c, n) == Some(q)
    decreases |s|
  {
    var p := AfterNth(s, c, n).value;
    var t := s[1..];
    var m := if s[0] == c then n - 1 else n;
    AfterNthStep(s, c, n);
    var u := s[..|s| - |p|] + q;
    assert u[0] == s[0];
    AfterNthStep(u, c, n);
    if m == 0 {
      assert p == t;
      assert u[1..] == q;
    } else {
      AfterNthReplaceTail(t, c, m, q);
      assert u[1..] == t[..|t| - |p|] + q;
    }
  }

  /** Replacing one character by another leaves none of the first. */
  lemma {:induction false} ReplaceCharRemoves(s: string, a: char, b: char)
    requires a != b
    ensures a !in ReplaceAll(s, [a], [b])
    decreases |s|
  {
    if |s| > 0 {
      ReplaceCharRemoves(s[1..], a, b);
      assert HasPrefix(s, [a]) <==> s[0] == a;
    }
  }

  /** Replacing `a` by a character `b` that `s` lacks can be undone. */
  lemma {:induction false} ReplaceCharRoundTrip(s: string, a: char, b: char)
    requires b !in s
    ensures ReplaceAll(ReplaceAll(s, [a], [b]), [b], [a]) == s
    decreases |s|
  {
    if |s| > 0 {
      var t := ReplaceAll(s[1..], [a], [b]);
      ReplaceCharRoundTrip(s[1..], a, b);
      assert HasPrefix(s, [a]) <==> s[0] == a;
      var head := if s[0] == a then b else s[0];
      assert ReplaceAll(s, [a], [b]) == [head] + t;
      assert ([head] + t)[1..] == t;
      assert HasPrefix([head] + t, [b]) <==> head == b;
      assert s == [s[0]] + s[1..];
    }
  }

  /** Text before the first `a` is kept as it is. */
  lemma {:induction false} ReplaceCharAfter(x: string, y: string, a: char, b: char)
    requires a !in x
    ensures ReplaceAll(x + [a] + y, [a], [b]) == x + [b] + ReplaceAll(y, [a], [b])
    decreases |x|
  {
    var s := x + [a] + y;
    if |x| == 0 {
      assert s == [a] + y && HasPrefix(s, [a]) && s[1..] == y;
    } else {
      assert s[0] == x[0] && !HasPrefix(s, [a]);
      assert s[1..] == x[1..] + [a] + y;
      ReplaceCharAfter(x[1..], y, a, b);
      assert [x[0]] + (x[1..] + [b] + ReplaceAll(y, [a], [b])) == x + [b] + ReplaceAll(y, [a], [b]);
    }
  }

  /** Text without `a` is kept as it is. */
  lemma ReplaceCharAbsent(s: string, a: char, b: char)
    requires a !in s
    ensures ReplaceAll(s, [a], [b]) == s
  {
    if Contains(s, [a]) {
      ContainsChar(s, [a], a);
    }
    ReplaceAllAbsent(s, [a], [b]);
  }
}
