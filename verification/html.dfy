/** HTML tokens and the token stream, standing in for the tokenizer of
    golang.org/x/net/html.

    A page is a finite sequence of tokens. Reading past its end yields an
    `Error` token, and an `Error` token is never stepped over: the tokenizer
    keeps returning it. Comments, doctypes and self-closing tags are folded
    into `Other`, which every switch in the crawler ignores.
 */
module Html {

  datatype Attribute = Attribute(key: string, val: string)

  datatype Token =
    | StartTag(name: string, attrs: seq<Attribute>)
    | EndTag(name: string)
    | Text(text: string)
    | Other(raw: string)
    | Error
  {
    /** html.Token.Data: the tag name, or the text. */
    function Data(): string {
      match this
      case StartTag(n, _) => n
      case EndTag(n) => n
      case Text(s) => s
      case Other(d) => d
      case Error => ""
    }

    /** html.Token.Attr */
    function Attrs(): seq<Attribute> {
      if StartTag? then attrs else []
    }
  }

  /** The zero value `html.Token{}`: its type is ErrorToken. */
  const ZeroToken: Token := Error

  function RenderAttrs(attrs: seq<Attribute>): string {
    if |attrs| == 0 then ""
    else " " + attrs[0].key + "=\"" + attrs[0].val + "\"" + RenderAttrs(attrs[1..])
  }

  /** html.Token.String, without the escaping of special characters. */
  function Render(t: Token): string {
    match t
    case StartTag(n, a) => "<" + n + RenderAttrs(a) + ">"
    case EndTag(n) => "</" + n + ">"
    case Text(s) => s
    case Other(d) => d
    case Error => ""
  }

  /** A second call of `Tokenizer.Token()` without an intervening `Next()`:
      the tokenizer has already handed out the tag name, the attributes and
      the text of the current token, so it yields the same kind of token
      with all of them empty. */
  function Reread(t: Token): (r: Token)
    ensures r.Data() == "" && r.Attrs() == []
    ensures r.StartTag? == t.StartTag? && r.EndTag? == t.EndTag? && r.Text? == t.Text?
    ensures r.Error? == t.Error?
  {
    match t
    case StartTag(_, _) => StartTag("", [])
    case EndTag(_) => EndTag("")
    case Text(_) => Text("")
    case Other(_) => Other("")
    case Error => Error
  }

  datatype Step = Step(token: Token, rest: seq<Token>)

  /** `Tokenizer.Next()` followed by `Tokenizer.Token()`. */
  function Next(s: seq<Token>): (r: Step)
    ensures r.token.Error? <==> (|s| == 0 || s[0].Error?)
    ensures r.token.Error? ==> r.rest == s
    ensures !r.token.Error? ==> |s| > 0 && r.token == s[0] && r.rest == s[1..]
  {
    if |s| == 0 || s[0].Error? then Step(Error, s) else Step(s[0], s[1..])
  }

  /** `b` is what is left of `a` after some tokens were read. */
  predicate IsRest(b: seq<Token>, a: seq<Token>) {
    |b| <= |a| && a[|a| - |b|..] == b
  }

  /** The tokens read in going from `a` to its rest `b`. */
  function Consumed(a: seq<Token>, b: seq<Token>): seq<Token>
    requires IsRest(b, a)
  {
    a[..|a| - |b|]
  }

  /** The tokens read contain no `Error`: the stream was never stuck. */
  predicate ErrorFree(ts: seq<Token>) {
    forall i :: 0 <= i < |ts| ==> !ts[i].Error?
  }

  lemma IsRestTrans(c: seq<Token>, b: seq<Token>, a: seq<Token>)
    requires IsRest(c, b) && IsRest(b, a)
    ensures IsRest(c, a)
    ensures Consumed(a, c) == Consumed(a, b) + Consumed(b, c)
  {
    assert a[|a| - |c|..] == b[|b| - |c|..];
  }

  /** Reading one token that is not `Error` extends the read part by it. */
  lemma ConsumedStep(s: seq<Token>, b: seq<Token>)
    requires !Next(s).token.Error? && IsRest(b, Next(s).rest)
    ensures IsRest(b, s)
    ensures Consumed(s, b) == [Next(s).token] + Consumed(Next(s).rest, b)
  {
    assert s[1..][|s| - 1 - |b|..] == s[|s| - |b|..];
  }

  /** Two stretches of reading without an `Error` make one. */
  lemma ErrorFreeTrans(c: seq<Token>, b: seq<Token>, a: seq<Token>)
    requires IsRest(c, b) && IsRest(b, a)
    requires ErrorFree(Consumed(a, b)) && ErrorFree(Consumed(b, c))
    ensures IsRest(c, a) && ErrorFree(Consumed(a, c))
  {
    IsRestTrans(c, b, a);
  }

  /** The tokens a reader can take from `s` before it gets stuck. */
  function Readable(s: seq<Token>): (r: seq<Token>)
    ensures ErrorFree(r) && |r| <= |s| && r == s[..|r|]
    ensures |r| < |s| ==> s[|r|].Error?
    decreases |s|
  {
    if |s| == 0 || s[0].Error? then [] else [s[0]] + Readable(s[1..])
  }

  /** The number of text tokens in `ts`. */
  function CountTexts(ts: seq<Token>): nat
    decreases |ts|
  {
    if |ts| == 0 then 0 else (if ts[0].Text? then 1 else 0) + CountTexts(ts[1..])
  }

  /** The last token read in going from `a` to its rest `b` is an end tag. */
  predicate EndedByEndTag(a: seq<Token>, b: seq<Token>) {
    |b| < |a| && a[|a| - |b| - 1].EndTag?
  }

  /** Reading more tokens before a stretch keeps its last token. */
  lemma EndedByEndTagLonger(x: seq<Token>, a: seq<Token>, b: seq<Token>)
    requires IsRest(a, x) && IsRest(b, a) && EndedByEndTag(a, b)
    ensures IsRest(b, x) && EndedByEndTag(x, b)
  {
    IsRestTrans(b, a, x);
    assert x[|x| - |a|..][|a| - |b| - 1] == x[|x| - |b| - 1];
  }

  /** What a token does to the depth of open tags: a start tag opens one,
      an end tag closes one. */
  function Delta(t: Token): int {
    if t.StartTag? then 1 else if t.EndTag? then -1 else 0
  }

  /** Start tags minus end tags among `ts`. */
  function Balance(ts: seq<Token>): int
    decreases |ts|
  {
    if |ts| == 0 then 0 else Delta(ts[0]) + Balance(ts[1..])
  }

  /** With `depth` tags open, every proper prefix of `c` leaves some open. */
  predicate OpenThroughout(depth: int, c: seq<Token>) {
    forall k :: 0 <= k < |c| ==> depth + Balance(c[..k]) > 0
  }

  /** `c` is what a reader with `depth` open tags takes from `s` before it
      stops: the tokens up to and including the end tag that closes the
      last open tag, or, when no end tag does, all of the readable stream. */
  predicate ReadsElement(depth: int, s: seq<Token>, c: seq<Token>) {
    && OpenThroughout(depth, c)
    && (depth + Balance(c) == 0 || (c == Readable(s) && depth + Balance(c) > 0))
  }

  /** Reading no token at all is the whole element when no tag is open, and
      the whole readable stream when the stream is stuck. */
  lemma ReadsNothing(depth: int, s: seq<Token>)
    requires depth == 0 || (depth > 0 && Next(s).token.Error?)
    ensures ReadsElement(depth, s, [])
  {
  }

  /** Reading one token in front of what a reader at the new depth takes. */
  lemma {:induction false} ReadsElementStep(depth: int, s: seq<Token>, c: seq<Token>)
    requires depth > 0 && !Next(s).token.Error?
    requires ReadsElement(depth + Delta(s[0]), s[1..], c)
    ensures ReadsElement(depth, s, [s[0]] + c)
  {
    var c' := [s[0]] + c;
    assert c'[1..] == c;
    assert Balance(c') == Delta(s[0]) + Balance(c);
    forall k | 0 <= k < |c'| ensures depth + Balance(c'[..k]) > 0 {
      if k > 0 {
        assert c'[..k][1..] == c[..k - 1];
        assert depth + Delta(s[0]) + Balance(c[..k - 1]) > 0;
      } else {
        assert c'[..k] == [];
      }
    }
    assert Readable(s) == [s[0]] + Readable(s[1..]);
  }

  /** One step of a reading loop: after the first token of `s` and some
      further reading to `mid`, a loop that stops at `b` stops right after an
      end tag or at a stuck stream, seen from `s` as well. */
  lemma StepRest(s: seq<Token>, mid: seq<Token>, b: seq<Token>)
    requires !Next(s).token.Error? && IsRest(mid, Next(s).rest) && IsRest(b, mid)
    requires || Next(b).token.Error? || EndedByEndTag(mid, b)
             || (b == mid && mid == Next(s).rest && Next(s).token.EndTag?)
    ensures IsRest(b, s)
    ensures Next(b).token.Error? || EndedByEndTag(s, b)
  {
    assert IsRest(Next(s).rest, s);
    IsRestTrans(mid, Next(s).rest, s);
    IsRestTrans(b, mid, s);
    if EndedByEndTag(mid, b) {
      EndedByEndTagLonger(s, mid, b);
    }
  }
}
