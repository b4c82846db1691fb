/** The grammar notation of "standard specification" blocks: a lossless,
    priority-ordered tokenizer and a recursive-descent tree builder over the
    three bracket pairs `( )`, `[ ]` and `{ }`. */
module SdscParser {
  import opened Wrappers
  import opened Strings

  datatype TokenKind =
    | PlaceholderTok | OrTok | LParen | RParen | LBracket | RBracket
    | LBrace | RBrace | StringTok | WhitespaceTok

  datatype Token = Token(kind: TokenKind, value: string)

  /** The innermost construct being built; `None` at the top level. */
  datatype GroupKind = GroupKind | OptKind | RepeatKind

  datatype Node =
    | Raw(value: string)
    | Or
    | Placeholder(value: string)
    | Group(children: seq<Node>)
    | Opt(children: seq<Node>)
    | Repeat(children: seq<Node>)
  {
    predicate IsComposite() {
      Group? || Opt? || Repeat?
    }
  }

  const TokenizeErrorPrefix := "Could not tokenize "
  const UnclosedError := "Expected ')', ']' or '}'"

  // ---------------------------------------------------------------------
  // Tokenizer

  /** Characters a placeholder run may contain: all but `"|()[]{}`. */
  predicate IsPlaceholderChar(c: char) {
    c !in "\"|()[]{}"
  }

  /** Where a string literal that opened before position `i` ends (one past
      its closing quote): runs of characters other than `"` and `\`, each
      backslash followed by one character that is not a line terminator. */
  function StringEnd(src: string, i: nat): (r: Option<nat>)
    requires 1 <= i <= |src|
    ensures r.Some? ==> i < r.value <= |src| && src[r.value - 1] == '"'
    decreases |src| - i
  {
    if i == |src| then None
    else if src[i] == '"' then Some(i + 1)
    else if src[i] == '\\' then
      if i + 1 < |src| && !IsLineTerminator(src[i + 1]) then StringEnd(src, i + 2) else None
    else StringEnd(src, i + 1)
  }

  /** Length of the string literal `src` starts with, if it starts with one. */
  function StringLiteralLength(src: string): (r: Option<nat>)
    ensures r.Some? ==> 2 <= r.value <= |src| && src[0] == '"' && src[r.value - 1] == '"'
  {
    if |src| > 0 && src[0] == '"' then StringEnd(src, 1) else None
  }

  function DelimiterKind(c: char): Option<TokenKind> {
    if c == '|' then Some(OrTok)
    else if c == '(' then Some(LParen)
    else if c == ')' then Some(RParen)
    else if c == '[' then Some(LBracket)
    else if c == ']' then Some(RBracket)
    else if c == '{' then Some(LBrace)
    else if c == '}' then Some(RBrace)
    else None
  }

  /** The token at the start of `src`, the rules tried in priority order:
      string literal, `|`, the six delimiters, whitespace, placeholder. */
  function NextToken(src: string): (r: Option<Token>)
    requires |src| > 0
    ensures r.Some? ==> 0 < |r.value.value| <= |src| && src[..|r.value.value|] == r.value.value
    ensures r.None? <==> src[0] == '"' && StringLiteralLength(src).None?
    ensures r.Some? && r.value.kind == WhitespaceTok ==>
              |r.value.value| == |src| || !IsSpace(src[|r.value.value|])
    ensures r.Some? && r.value.kind == PlaceholderTok ==>
              |r.value.value| == |src| || !IsPlaceholderChar(src[|r.value.value|])
  {
    match StringLiteralLength(src)
    case Some(n) => Some(Token(StringTok, src[..n]))
    case None =>
      match DelimiterKind(src[0])
      case Some(k) => Some(Token(k, src[..1]))
      case None =>
        if IsSpace(src[0]) then Some(Token(WhitespaceTok, src[..RunLength(src, IsSpace)]))
        else if IsPlaceholderChar(src[0]) then
          Some(Token(PlaceholderTok, src[..RunLength(src, IsPlaceholderChar)]))
        else None
  }

  /** What each token kind's text looks like. */
  predicate WellFormedToken(t: Token) {
    match t.kind
    case StringTok => StringLiteralLength(t.value) == Some(|t.value|)
    case WhitespaceTok => |t.value| > 0 && forall k :: 0 <= k < |t.value| ==> IsSpace(t.value[k])
    case PlaceholderTok =>
      && |t.value| > 0 && !IsSpace(t.value[0])
      && forall k :: 0 <= k < |t.value| ==> IsPlaceholderChar(t.value[k])
    case _ => |t.value| == 1 && DelimiterKind(t.value[0]) == Some(t.kind)
  }

  lemma NextTokenWellFormed(src: string)
    requires |src| > 0 && NextToken(src).Some?
    ensures WellFormedToken(NextToken(src).value)
  {
    var t := NextToken(src).value;
    match StringLiteralLength(src)
    case Some(n) =>
      assert t.value == src[..n];
      StringEndPrefix(src, 1, n);
    case None =>
  }

  /** A string literal's extent depends only on the text up to its end. */
  lemma StringEndPrefix(src: string, i: nat, n: nat)
    requires 1 <= i <= n <= |src|
    requires StringEnd(src, i) == Some(n)
    ensures StringEnd(src[..n], i) == Some(n)
    decreases |src| - i
  {
    if src[i] != '"' {
      if src[i] == '\\' {
        StringEndPrefix(src, i + 2, n);
      } else {
        StringEndPrefix(src, i + 1, n);
      }
    }
  }

  /** Concatenated token text. */
  function Values(ts: seq<Token>): string {
    if |ts| == 0 then "" else ts[0].value + Values(ts[1..])
  }

  /** A remainder on which no rule matches: a `"` that opens no complete
      string literal. */
  predicate Stuck(rest: string) {
    |rest| > 0 && rest[0] == '"' && StringLiteralLength(rest).None?
  }

  /** `tokenize`: repeatedly take the highest-priority token at the front. */
  function Tokenize(src: string): (r: Result<seq<Token>>)
    ensures r.Ok? ==> Values(r.value) == src
    ensures r.Ok? ==> forall i :: 0 <= i < |r.value| ==> WellFormedToken(r.value[i])
    ensures r.Err? ==> exists k :: 0 <= k < |src| && Stuck(src[k..]) && r.error == TokenizeErrorPrefix + src[k..]
    decreases |src|
  {
    if src == "" then Ok([])
    else
      match NextToken(src)
      case None => assert src[0..] == src; Err(TokenizeErrorPrefix + src)
      case Some(t) =>
        NextTokenWellFormed(src);
        var rest :- TokenizeTail(src, t);
        Ok([t] + rest)
  }

  function TokenizeTail(src: string, t: Token): (r: Result<seq<Token>>)
    requires 0 < |t.value| <= |src| && src[..|t.value|] == t.value
    ensures r.Ok? ==> Values(r.value) == src[|t.value|..]
    ensures r.Ok? ==> forall i :: 0 <= i < |r.value| ==> WellFormedToken(r.value[i])
    ensures r.Err? ==> exists k :: 0 <= k < |src| && Stuck(src[k..]) && r.error == TokenizeErrorPrefix + src[k..]
    decreases |src|, 0
  {
    var rest := src[|t.value|..];
    var r := Tokenize(rest);
    if r.Err? then
      var k :| 0 <= k < |rest| && Stuck(rest[k..]) && r.error == TokenizeErrorPrefix + rest[k..];
      assert rest[k..] == src[|t.value| + k..];
      r
    else
      assert src == t.value + rest;
      r
  }

  /** Where the `i`-th token starts in the source. */
  function Offset(ts: seq<Token>, i: nat): nat
    requires i <= |ts|
  {
    |Values(ts[..i])|
  }

  /** The tokens are those the rules pick one after the other: each is the
      token chosen at the position where the previous one ended, so
      whitespace and placeholder runs are as long as they can be. */
  lemma {:induction false} TokenizeGreedy(src: string)
    requires Tokenize(src).Ok?
    ensures var ts := Tokenize(src).value;
            forall i :: 0 <= i < |ts| ==> Offset(ts, i) < |src| && NextToken(src[Offset(ts, i)..]) == Some(ts[i])
    decreases |src|
  {
    if src != "" {
      var t, rest := TokenizeCons(src);
      TokenizeGreedy(rest);
      var ts, rs := Tokenize(src).value, Tokenize(rest).value;
      forall i | 0 <= i < |ts|
        ensures Offset(ts, i) < |src| && NextToken(src[Offset(ts, i)..]) == Some(ts[i])
      {
        if i == 0 {
          assert ts[..0] == [];
          assert src[0..] == src;
        } else {
          GreedyCons(src, t, rs, i - 1);
        }
      }
    }
  }

  /** A non-empty source tokenises as its first token followed by the
      tokens of the rest. */
  lemma TokenizeCons(src: string) returns (t: Token, rest: string)
    requires src != "" && Tokenize(src).Ok?
    ensures NextToken(src) == Some(t) && rest == src[|t.value|..]
    ensures Tokenize(rest).Ok? && Tokenize(src).value == [t] + Tokenize(rest).value
  {
    t := NextToken(src).value;
    rest := src[|t.value|..];
  }

  lemma GreedyCons(src: string, t: Token, rs: seq<Token>, i: nat)
    requires 0 < |t.value| <= |src| && i < |rs|
    requires Offset(rs, i) < |src[|t.value|..]| && NextToken(src[|t.value|..][Offset(rs, i)..]) == Some(rs[i])
    ensures Offset([t] + rs, i + 1) < |src| && NextToken(src[Offset([t] + rs, i + 1)..]) == Some(([t] + rs)[i + 1])
  {
    OffsetCons(t, rs, i);
    assert src[|t.value|..][Offset(rs, i)..] == src[|t.value| + Offset(rs, i)..];
  }

  lemma OffsetCons(t: Token, rs: seq<Token>, i: nat)
    requires i < |rs|
    ensures Offset([t] + rs, i + 1) == |t.value| + Offset(rs, i)
    ensures ([t] + rs)[i + 1] == rs[i]
  {
    assert ([t] + rs)[..i + 1] == [t] + rs[..i];
    assert ([t] + rs[..i])[1..] == rs[..i];
  }

  /** Without a `"` in the source, some rule always matches. */
  lemma {:induction false} TokenizeWithoutQuote(src: string)
    requires '"' !in src
    ensures Tokenize(src).Ok?
    decreases |src|
  {
    if src != "" {
      var t := NextToken(src).value;
      TokenizeWithoutQuote(src[|t.value|..]);
    }
  }

  // ---------------------------------------------------------------------
  // Tree builder

  predicate NoAdjacentRaw(ns: seq<Node>) {
    forall i :: 0 <= i < |ns| - 1 ==> !(ns[i].Raw? && ns[i + 1].Raw?)
  }

  /** No two neighbouring raw nodes, in the list and in every nested list. */
  predicate WellFormed(ns: seq<Node>)
    decreases ns
  {
    && NoAdjacentRaw(ns)
    && forall i :: 0 <= i < |ns| ==> (ns[i].IsComposite() ==> WellFormed(ns[i].children))
  }

  /** The surface text of a node list: raw text, placeholder names, `|`, and
      nested lists inside their brackets. */
  function Render(ns: seq<Node>): string
    decreases ns
  {
    if |ns| == 0 then ""
    else
      var head :=
        match ns[0]
        case Raw(v) => v
        case Or => "|"
        case Placeholder(v) => v
        case Group(cs) => "(" + Render(cs) + ")"
        case Opt(cs) => "[" + Render(cs) + "]"
        case Repeat(cs) => "{" + Render(cs) + "}";
      head + Render(ns[1..])
  }

  lemma RenderAppend(a: seq<Node>, b: seq<Node>)
    ensures Render(a + b) == Render(a) + Render(b)
  {
    if |a| > 0 {
      assert (a + b)[1..] == a[1..] + b;
      RenderAppend(a[1..], b);
    } else {
      assert a + b == b;
    }
  }

  /** The text of a string literal token without its two quotes. */
  function Unquote(v: string): string {
    Substring(v, 1, |v| - 1)
  }

  /** What a token contributes to the rendered tree. */
  function Surface(t: Token): string {
    match t.kind
    case StringTok => Unquote(t.value)
    case WhitespaceTok => t.value
    case PlaceholderTok => t.value
    case OrTok => "|"
    case LParen => "("
    case RParen => ")"
    case LBracket => "["
    case RBracket => "]"
    case LBrace => "{"
    case RBrace => "}"
  }

  function Surfaces(ts: seq<Token>): string {
    if |ts| == 0 then "" else Surface(ts[0]) + Surfaces(ts[1..])
  }

  lemma SurfacesAppend(a: seq<Token>, b: seq<Token>)
    ensures Surfaces(a + b) == Surfaces(a) + Surfaces(b)
  {
    if |a| > 0 {
      assert (a + b)[1..] == a[1..] + b;
      SurfacesAppend(a[1..], b);
    } else {
      assert a + b == b;
    }
  }

  /** Appending a node that is not raw, or a raw node after a non-raw end,
      keeps a well-formed list well formed. */
  lemma WellFormedAppend(ns: seq<Node>, n: Node)
    requires WellFormed(ns)
    requires n.Raw? ==> !(|ns| > 0 && ns[|ns| - 1].Raw?)
    requires n.IsComposite() ==> WellFormed(n.children)
    ensures WellFormed(ns + [n])
  {
    var r := ns + [n];
    assert forall i :: 0 <= i < |ns| ==> r[i] == ns[i];
  }

  lemma RenderEmpty()
    ensures Render([]) == ""
  {
  }

  lemma ConcatShuffle(a: string, open: string, inner: string, close: string, after: string,
                      rest: string, all: string)
    requires "" + rest == inner + close + after
    requires all == open + rest
    ensures a + open + inner + close + after == a + all
  {
    assert "" + rest == rest;
  }

  lemma ConcatAssoc(ab: string, a: string, b: string, c: string, bc: string)
    requires ab == a + b && bc == b + c
    ensures ab + c == a + bc
  {
  }

  lemma SuffixOfTail<T>(s: seq<T>, t: seq<T>)
    requires |s| > 0 && |t| <= |s| - 1 && t == s[1..][|s| - 1 - |t|..]
    ensures t == s[|s| - |t|..]
  {
  }

  lemma SuffixOfSuffix<T>(s: seq<T>, t: seq<T>, u: seq<T>)
    requires |t| <= |s| && t == s[|s| - |t|..]
    requires |u| <= |t| && u == t[|t| - |u|..]
    ensures u == s[|s| - |u|..]
  {
  }

  /** `pushRaw`: text following a raw node extends it, otherwise it starts a
      new raw node; either way the rendered text grows by exactly `v`. */
  function PushRaw(ns: seq<Node>, v: string): (r: seq<Node>)
    ensures NoAdjacentRaw(ns) ==> NoAdjacentRaw(r)
    ensures WellFormed(ns) ==> WellFormed(r)
    ensures |r| > 0 && r[|r| - 1].Raw?
    ensures Render(r) == Render(ns) + v
    ensures |ns| > 0 && ns[|ns| - 1].Raw? ==> |r| == |ns| && r[..|r| - 1] == ns[..|ns| - 1]
    ensures !(|ns| > 0 && ns[|ns| - 1].Raw?) ==> r == ns + [Raw(v)]
  {
    if |ns| > 0 && ns[|ns| - 1].Raw? then
      var r := ns[..|ns| - 1] + [Raw(ns[|ns| - 1].value + v)];
      RenderAppend(ns[..|ns| - 1], [ns[|ns| - 1]]);
      RenderAppend(ns[..|ns| - 1], [Raw(ns[|ns| - 1].value + v)]);
      assert ns == ns[..|ns| - 1] + [ns[|ns| - 1]];
      ReplaceLastRaw(ns, Raw(ns[|ns| - 1].value + v));
      r
    else
      RenderAppend(ns, [Raw(v)]);
      AppendRaw(ns, Raw(v));
      ns + [Raw(v)]
  }

  lemma ReplaceLastRaw(ns: seq<Node>, x: Node)
    requires |ns| > 0 && ns[|ns| - 1].Raw? && x.Raw?
    ensures NoAdjacentRaw(ns) ==> NoAdjacentRaw(ns[..|ns| - 1] + [x])
    ensures WellFormed(ns) ==> WellFormed(ns[..|ns| - 1] + [x])
  {
  }

  lemma AppendRaw(ns: seq<Node>, x: Node)
    requires x.Raw? && !(|ns| > 0 && ns[|ns| - 1].Raw?)
    ensures NoAdjacentRaw(ns) ==> NoAdjacentRaw(ns + [x])
    ensures WellFormed(ns) ==> WellFormed(ns + [x])
  {
  }

  function Opener(k: TokenKind): Option<GroupKind> {
    match k
    case LParen => Some(GroupKind)
    case LBracket => Some(OptKind)
    case LBrace => Some(RepeatKind)
    case _ => None
  }

  function Closer(k: TokenKind): Option<GroupKind> {
    match k
    case RParen => Some(GroupKind)
    case RBracket => Some(OptKind)
    case RBrace => Some(RepeatKind)
    case _ => None
  }

  function KindName(ctx: Option<GroupKind>): string {
    match ctx
    case None => "undefined"
    case Some(GroupKind) => "group"
    case Some(OptKind) => "opt"
    case Some(RepeatKind) => "repeat"
  }

  function OpenerText(k: GroupKind): string {
    match k
    case GroupKind => "("
    case OptKind => "["
    case RepeatKind => "{"
  }

  function CloserText(k: GroupKind): string {
    match k
    case GroupKind => ")"
    case OptKind => "]"
    case RepeatKind => "}"
  }

  function MakeComposite(k: GroupKind, cs: seq<Node>): (n: Node)
    ensures n.IsComposite() && n.children == cs
  {
    match k
    case GroupKind => Group(cs)
    case OptKind => Opt(cs)
    case RepeatKind => Repeat(cs)
  }

  /** The rendered text of a composite node is its children inside its brackets. */
  lemma RenderComposite(ns: seq<Node>, k: GroupKind, cs: seq<Node>)
    ensures Render(ns + [MakeComposite(k, cs)]) == Render(ns) + OpenerText(k) + Render(cs) + CloserText(k)
  {
    RenderAppend(ns, [MakeComposite(k, cs)]);
  }

  /** What a build step promises: it consumes a prefix of `tokens` (the
      whole input at the top level), keeps the lists free of adjacent raw
      nodes, and renders exactly the consumed tokens, the closer of `ctx`
      excluded from the list's own text. */
  predicate BuildSpec(tokens: seq<Token>, ctx: Option<GroupKind>, ns: seq<Node>,
                      r: Result<(seq<Node>, seq<Token>)>) {
    r.Ok? ==>
      && (|r.value.1| < |tokens| || (ctx.None? && r.value.1 == []))
      && r.value.1 == tokens[|tokens| - |r.value.1|..]
      && (ctx.None? ==> r.value.1 == [])
      && (WellFormed(ns) ==> WellFormed(r.value.0))
      && (ctx.None? ==> Render(r.value.0) == Render(ns) + Surfaces(tokens))
      && (ctx.Some? ==>
            Render(r.value.0) + CloserText(ctx.value) + Surfaces(r.value.1) == Render(ns) + Surfaces(tokens))
  }

  /** A step that consumed the tokens before `rest` and rendered them into
      `ns'` passes the continuation's promise back to the whole input. */
  lemma SpecLift(tokens: seq<Token>, rest: seq<Token>, ctx: Option<GroupKind>,
                 ns: seq<Node>, ns': seq<Node>, r: Result<(seq<Node>, seq<Token>)>)
    requires |rest| < |tokens| && rest == tokens[|tokens| - |rest|..]
    requires Render(ns') + Surfaces(rest) == Render(ns) + Surfaces(tokens)
    requires WellFormed(ns) ==> WellFormed(ns')
    requires BuildSpec(rest, ctx, ns', r)
    ensures BuildSpec(tokens, ctx, ns, r)
  {
    if r.Ok? {
      SuffixOfSuffix(tokens, rest, r.value.1);
    }
  }

  /** `buildTree` in state-passing form: consumes `tokens` in the context of
      the innermost open construct `ctx`, extending the sibling list `ns`, and
      returns the finished list together with the tokens left over after the
      matching closer. */
  function BuildTree(tokens: seq<Token>, ctx: Option<GroupKind>, ns: seq<Node>)
    : (r: Result<(seq<Node>, seq<Token>)>)
    ensures BuildSpec(tokens, ctx, ns, r)
    decreases |tokens|, 1
  {
    if |tokens| == 0 then
      if ctx.None? then Ok((ns, [])) else Err(UnclosedError)
    else
      var t := tokens[0];
      match Closer(t.kind)
      case Some(k) =>
        if ctx == Some(k) then
          assert Surfaces(tokens) == Surface(t) + Surfaces(tokens[1..]);
          Ok((ns, tokens[1..]))
        else Err("Unexpected '" + Surface(t) + "' in group(" + KindName(ctx) + ")")
      case None =>
        match Opener(t.kind)
        case Some(k) => BuildNested(tokens, ctx, ns, k)
        case None => BuildLeaf(tokens, ctx, ns)
  }

  /** An opening delimiter: build the nested list up to its closer, append
      the composite node, and continue after the closer. */
  function BuildNested(tokens: seq<Token>, ctx: Option<GroupKind>, ns: seq<Node>, k: GroupKind)
    : (r: Result<(seq<Node>, seq<Token>)>)
    requires |tokens| > 0 && Opener(tokens[0].kind) == Some(k)
    ensures BuildSpec(tokens, ctx, ns, r)
    decreases |tokens|, 0
  {
    var inner :- BuildTree(tokens[1..], Some(k), []);
    var r := BuildTree(inner.1, ctx, ns + [MakeComposite(k, inner.0)]);
    NestedLift(tokens, ctx, ns, k, inner.0, inner.1, r);
    r
  }

  lemma NestedLift(tokens: seq<Token>, ctx: Option<GroupKind>, ns: seq<Node>, k: GroupKind,
                   inner: seq<Node>, after: seq<Token>, r: Result<(seq<Node>, seq<Token>)>)
    requires |tokens| > 0 && Opener(tokens[0].kind) == Some(k)
    requires BuildSpec(tokens[1..], Some(k), [], Ok((inner, after)))
    requires BuildSpec(after, ctx, ns + [MakeComposite(k, inner)], r)
    ensures BuildSpec(tokens, ctx, ns, r)
  {
    var rest := tokens[1..];
    var ns' := ns + [MakeComposite(k, inner)];
    assert Surfaces(tokens) == OpenerText(k) + Surfaces(rest);
    assert WellFormed(ns) ==> WellFormed(ns') by {
      if WellFormed(ns) {
        WellFormedAppend(ns, MakeComposite(k, inner));
      }
    }
    RenderComposite(ns, k, inner);
    RenderEmpty();
    ConcatShuffle(Render(ns), OpenerText(k), Render(inner), CloserText(k), Surfaces(after),
                  Surfaces(rest), Surfaces(tokens));
    SuffixOfTail(tokens, after);
    SpecLift(tokens, after, ctx, ns, ns', r);
  }

  /** Any other token adds one node (or extends the trailing raw node). */
  function BuildLeaf(tokens: seq<Token>, ctx: Option<GroupKind>, ns: seq<Node>)
    : (r: Result<(seq<Node>, seq<Token>)>)
    requires |tokens| > 0 && Opener(tokens[0].kind).None? && Closer(tokens[0].kind).None?
    ensures BuildSpec(tokens, ctx, ns, r)
    decreases |tokens|, 0
  {
    var r := BuildTree(tokens[1..], ctx, LeafStep(ns, tokens[0]));
    LeafLift(tokens, ctx, ns, r);
    r
  }

  /** The list after one string, whitespace, `|` or placeholder token. */
  function LeafStep(ns: seq<Node>, t: Token): (r: seq<Node>)
    requires Opener(t.kind).None? && Closer(t.kind).None?
    ensures Render(r) == Render(ns) + Surface(t)
    ensures WellFormed(ns) ==> WellFormed(r)
    ensures t.kind == OrTok ==> r == ns + [Or]
    ensures t.kind == PlaceholderTok ==> r == ns + [Placeholder(t.value)]
  {
    if t.kind == StringTok || t.kind == WhitespaceTok then PushRaw(ns, Surface(t))
    else
      var n := if t.kind == OrTok then Or else Placeholder(t.value);
      RenderAppend(ns, [n]);
      assert Render([n]) == Surface(t) by {
        assert [n][1..] == [];
        RenderEmpty();
      }
      assert WellFormed(ns) ==> WellFormed(ns + [n]) by {
        if WellFormed(ns) {
          WellFormedAppend(ns, n);
        }
      }
      ns + [n]
  }

  lemma LeafLift(tokens: seq<Token>, ctx: Option<GroupKind>, ns: seq<Node>, r: Result<(seq<Node>, seq<Token>)>)
    requires |tokens| > 0 && Opener(tokens[0].kind).None? && Closer(tokens[0].kind).None?
    requires BuildSpec(tokens[1..], ctx, LeafStep(ns, tokens[0]), r)
    ensures BuildSpec(tokens, ctx, ns, r)
  {
    var t := tokens[0];
    var rest := tokens[1..];
    assert Surfaces(tokens) == Surface(t) + Surfaces(rest);
    var ns' := LeafStep(ns, t);
    ConcatAssoc(Render(ns'), Render(ns), Surface(t), Surfaces(rest), Surfaces(tokens));
    SpecLift(tokens, rest, ctx, ns, ns', r);
  }

  // ---------------------------------------------------------------------
  // Node kinds

  /** One unit of a tree's shape: a character of raw text, an `or` node, a
      whole placeholder, or the bracket opening or closing a composite node
      of the given kind. */
  datatype Mark =
    | RawChar(c: char)
    | OrMark
    | PlaceMark(name: string)
    | OpenMark(kind: GroupKind)
    | CloseMark(kind: GroupKind)

  function RawMarks(v: string): (r: seq<Mark>)
    ensures |r| == |v|
  {
    seq(|v|, i requires 0 <= i < |v| => RawChar(v[i]))
  }

  /** The shape of a node list: the kind of every node, in document order,
      raw text counted character by character (so a merged raw run and
      separate ones look alike) and composite nodes as their bracketed
      children. An empty raw node, such as the one the empty string literal
      `""` pushes when no raw node precedes it, has no characters and so
      leaves no trace in the shape. */
  function Shape(ns: seq<Node>): seq<Mark>
    decreases ns
  {
    if |ns| == 0 then []
    else
      var head :=
        match ns[0]
        case Raw(v) => RawMarks(v)
        case Or => [OrMark]
        case Placeholder(v) => [PlaceMark(v)]
        case Group(cs) => [OpenMark(GroupKind)] + Shape(cs) + [CloseMark(GroupKind)]
        case Opt(cs) => [OpenMark(OptKind)] + Shape(cs) + [CloseMark(OptKind)]
        case Repeat(cs) => [OpenMark(RepeatKind)] + Shape(cs) + [CloseMark(RepeatKind)];
      head + Shape(ns[1..])
  }

  /** What a token stands for in the tree, independently of the builder: a
      string or whitespace token raw text, a placeholder token one
      placeholder node, `|` one `or` node, and a delimiter the bracket of the
      construct it opens or closes. */
  function TokenShape(t: Token): seq<Mark> {
    match t.kind
    case StringTok => RawMarks(Unquote(t.value))
    case WhitespaceTok => RawMarks(t.value)
    case PlaceholderTok => [PlaceMark(t.value)]
    case OrTok => [OrMark]
    case LParen => [OpenMark(GroupKind)]
    case RParen => [CloseMark(GroupKind)]
    case LBracket => [OpenMark(OptKind)]
    case RBracket => [CloseMark(OptKind)]
    case LBrace => [OpenMark(RepeatKind)]
    case RBrace => [CloseMark(RepeatKind)]
  }

  function TokenShapes(ts: seq<Token>): seq<Mark> {
    if |ts| == 0 then [] else TokenShape(ts[0]) + TokenShapes(ts[1..])
  }

  lemma ShapeAppend(a: seq<Node>, b: seq<Node>)
    ensures Shape(a + b) == Shape(a) + Shape(b)
  {
    if |a| > 0 {
      assert (a + b)[1..] == a[1..] + b;
      ShapeAppend(a[1..], b);
    } else {
      assert a + b == b;
    }
  }

  lemma ShapeOne(n: Node)
    requires n.Raw?
    ensures Shape([n]) == RawMarks(n.value)
  {
    assert [n][1..] == [];
  }

  lemma CompositeShape(ns: seq<Node>, k: GroupKind, cs: seq<Node>)
    ensures Shape(ns + [MakeComposite(k, cs)]) == Shape(ns) + ([OpenMark(k)] + Shape(cs) + [CloseMark(k)])
  {
    ShapeAppend(ns, [MakeComposite(k, cs)]);
    assert [MakeComposite(k, cs)][1..] == [];
  }

  lemma RawMarksAppend(a: string, b: string)
    ensures RawMarks(a + b) == RawMarks(a) + RawMarks(b)
  {
  }

  lemma ExtendRawShape(init: seq<Node>, w: string, v: string)
    ensures Shape(init + [Raw(w + v)]) == Shape(init + [Raw(w)]) + RawMarks(v)
  {
    ShapeAppend(init, [Raw(w)]);
    ShapeAppend(init, [Raw(w + v)]);
    ShapeOne(Raw(w));
    ShapeOne(Raw(w + v));
    RawMarksAppend(w, v);
  }

  /** `pushRaw` adds the characters of the text as raw text. */
  lemma PushRawShape(ns: seq<Node>, v: string)
    ensures Shape(PushRaw(ns, v)) == Shape(ns) + RawMarks(v)
  {
    if |ns| > 0 && ns[|ns| - 1].Raw? {
      var init := ns[..|ns| - 1];
      var w := ns[|ns| - 1].value;
      assert ns == init + [Raw(w)];
      assert PushRaw(ns, v) == init + [Raw(w + v)];
      ExtendRawShape(init, w, v);
    } else {
      ShapeAppend(ns, [Raw(v)]);
      ShapeOne(Raw(v));
    }
  }

  /** A leaf token adds exactly the shape it stands for. */
  lemma LeafStepShape(ns: seq<Node>, t: Token)
    requires Opener(t.kind).None? && Closer(t.kind).None?
    ensures Shape(LeafStep(ns, t)) == Shape(ns) + TokenShape(t)
  {
    if t.kind == StringTok || t.kind == WhitespaceTok {
      PushRawShape(ns, Surface(t));
    } else {
      var n := if t.kind == OrTok then Or else Placeholder(t.value);
      ShapeAppend(ns, [n]);
      assert [n][1..] == [];
    }
  }

  /** What the builder promises about node kinds: the consumed tokens
      appear in the finished list as the shape they stand for, the closer
      of `ctx` excluded. */
  predicate ShapeSpec(tokens: seq<Token>, ctx: Option<GroupKind>, ns: seq<Node>,
                      r: Result<(seq<Node>, seq<Token>)>) {
    r.Ok? ==>
      && (ctx.None? ==> Shape(r.value.0) == Shape(ns) + TokenShapes(tokens))
      && (ctx.Some? ==>
            Shape(r.value.0) + [CloseMark(ctx.value)] + TokenShapes(r.value.1) == Shape(ns) + TokenShapes(tokens))
  }

  lemma {:induction false} BuildTreeShape(tokens: seq<Token>, ctx: Option<GroupKind>, ns: seq<Node>)
    ensures ShapeSpec(tokens, ctx, ns, BuildTree(tokens, ctx, ns))
    decreases |tokens|, 1
  {
    if |tokens| > 0 {
      var t := tokens[0];
      match Closer(t.kind)
      case Some(k) =>
        if ctx == Some(k) {
          assert TokenShape(t) == [CloseMark(k)];
          Reassociate(Shape(ns), [CloseMark(k)], TokenShapes(tokens[1..]));
        }
      case None =>
        match Opener(t.kind)
        case Some(k) => BuildNestedShape(tokens, ctx, ns, k);
        case None => BuildLeafShape(tokens, ctx, ns);
    }
  }

  lemma {:induction false} BuildNestedShape(tokens: seq<Token>, ctx: Option<GroupKind>, ns: seq<Node>, k: GroupKind)
    requires |tokens| > 0 && Opener(tokens[0].kind) == Some(k)
    ensures ShapeSpec(tokens, ctx, ns, BuildNested(tokens, ctx, ns, k))
    decreases |tokens|, 0
  {
    BuildTreeShape(tokens[1..], Some(k), []);
    var inner := BuildTree(tokens[1..], Some(k), []);
    if inner.Ok? {
      var cs := inner.value.0;
      var after := inner.value.1;
      var ns' := ns + [MakeComposite(k, cs)];
      BuildTreeShape(after, ctx, ns');
      CompositeShape(ns, k, cs);
      assert TokenShape(tokens[0]) == [OpenMark(k)];
      assert Shape([]) + TokenShapes(tokens[1..]) == TokenShapes(tokens[1..]);
      MarkShuffle(Shape(ns), OpenMark(k), Shape(cs), CloseMark(k), TokenShapes(after),
                  TokenShapes(tokens[1..]), TokenShapes(tokens));
    }
  }

  lemma MarkShuffle(a: seq<Mark>, open: Mark, inner: seq<Mark>, close: Mark, after: seq<Mark>,
                    rest: seq<Mark>, all: seq<Mark>)
    requires inner + [close] + after == rest
    requires all == [open] + rest
    ensures a + ([open] + inner + [close]) + after == a + all
  {
  }

  lemma {:induction false} BuildLeafShape(tokens: seq<Token>, ctx: Option<GroupKind>, ns: seq<Node>)
    requires |tokens| > 0 && Opener(tokens[0].kind).None? && Closer(tokens[0].kind).None?
    ensures ShapeSpec(tokens, ctx, ns, BuildLeaf(tokens, ctx, ns))
    decreases |tokens|, 0
  {
    BuildTreeShape(tokens[1..], ctx, LeafStep(ns, tokens[0]));
    LeafStepShape(ns, tokens[0]);
    Reassociate(Shape(ns), TokenShape(tokens[0]), TokenShapes(tokens[1..]));
  }

  /** `parse`: tokenize, then build the top-level list. */
  function Parse(src: string): (r: Result<seq<Node>>)
    ensures r.Ok? ==> WellFormed(r.value)
    ensures r.Ok? ==> Tokenize(src).Ok? && Render(r.value) == Surfaces(Tokenize(src).value)
    ensures r.Ok? ==> Shape(r.value) == TokenShapes(Tokenize(src).value)
  {
    var tokens :- Tokenize(src);
    BuildTreeShape(tokens, None, []);
    var built :- BuildTree(tokens, None, []);
    Ok(built.0)
  }

  // ---------------------------------------------------------------------
  // Properties

  /** Reference definition of well-nested delimiters, with an explicit stack
      of open constructs (innermost first). */
  predicate WellNested(ts: seq<Token>, stack: seq<GroupKind>)
    decreases |ts|
  {
    if |ts| == 0 then stack == []
    else
      match Closer(ts[0].kind)
      case Some(k) => |stack| > 0 && stack[0] == k && WellNested(ts[1..], stack[1..])
      case None =>
        match Opener(ts[0].kind)
        case Some(k) => WellNested(ts[1..], [k] + stack)
        case None => WellNested(ts[1..], stack)
  }

  /** The tree builder succeeds exactly on well-nested input: inside a
      construct it returns iff the construct is closed by the right delimiter
      and the rest is well nested with respect to the enclosing stack `s`. */
  lemma {:induction false} BuildTreeNesting(ts: seq<Token>, ctx: Option<GroupKind>, ns: seq<Node>, s: seq<GroupKind>)
    ensures ctx.Some? ==>
      (WellNested(ts, [ctx.value] + s) <==>
        (BuildTree(ts, ctx, ns).Ok? && WellNested(BuildTree(ts, ctx, ns).value.1, s)))
    ensures ctx.None? ==> (WellNested(ts, []) <==> BuildTree(ts, None, ns).Ok?)
    decreases |ts|
  {
    var outer := if ctx.Some? then [ctx.value] + s else [];
    if |ts| > 0 {
      var t := ts[0];
      if Closer(t.kind).Some? {
        if ctx.Some? {
          assert outer[1..] == s;
        }
      } else if Opener(t.kind).Some? {
        var k := Opener(t.kind).value;
        assert BuildTree(ts, ctx, ns) == BuildNested(ts, ctx, ns, k);
        BuildTreeNesting(ts[1..], Some(k), [], outer);
        var inner := BuildTree(ts[1..], Some(k), []);
        if inner.Ok? {
          BuildTreeNesting(inner.value.1, ctx, ns + [MakeComposite(k, inner.value.0)], s);
        }
      } else {
        assert BuildTree(ts, ctx, ns) == BuildLeaf(ts, ctx, ns);
        BuildTreeNesting(ts[1..], ctx, LeafStep(ns, t), s);
      }
    }
  }

  /** `parse` succeeds iff tokenization succeeds and the delimiters of the
      token list are well nested. */
  lemma ParseSucceedsIff(src: string)
    ensures Parse(src).Ok? <==> Tokenize(src).Ok? && WellNested(Tokenize(src).value, [])
  {
    if Tokenize(src).Ok? {
      BuildTreeNesting(Tokenize(src).value, None, [], []);
    }
  }

  /** Empty source gives an empty node list. */
  lemma ParseEmpty()
    ensures Parse("") == Ok([])
  {
  }

  lemma TokenizeStep(src: string, t: Token, ts: seq<Token>)
    requires src != "" && NextToken(src) == Some(t)
    requires Tokenize(src[|t.value|..]) == Ok(ts)
    ensures Tokenize(src) == Ok([t] + ts)
  {
    assert TokenizeTail(src, t) == Ok(ts);
  }

  lemma NextTokenPlaceholderB()
    ensures NextToken("b") == Some(Token(PlaceholderTok, "b"))
  {
    assert RunLength("b", IsPlaceholderChar) == 1 by { assert "b"[1..] == ""; }
    assert IsPlaceholderChar('b') && !IsSpace('b') && "b"[..1] == "b";
  }

  lemma NextTokenSpace()
    ensures NextToken(" b") == Some(Token(WhitespaceTok, " "))
  {
    assert RunLength(" b", IsSpace) == 1 by { assert " b"[1..] == "b"; }
    assert " b"[..1] == " ";
  }

  lemma NextTokenBar()
    ensures NextToken("| b") == Some(Token(OrTok, "|"))
  {
    assert "| b"[..1] == "|";
  }

  lemma NextTokenPlaceholderA(s: string)
    requires s == "a | b"
    ensures NextToken(s) == Some(Token(PlaceholderTok, "a "))
  {
    assert RunLength(s, IsPlaceholderChar) == 2 by {
      assert s[1..] == " | b";
      assert s[1..][1..] == "| b";
      assert RunLength("| b", IsPlaceholderChar) == 0;
    }
    assert IsPlaceholderChar('a') && !IsSpace('a') && s[..2] == "a ";
  }

  /** Whitespace is tried before placeholders, but a placeholder run absorbs
      the spaces after it: `a | b` gives `a `, `|`, ` `, `b`. */
  lemma TokenizeAlternation()
    ensures Tokenize("a | b") ==
      Ok([Token(PlaceholderTok, "a "), Token(OrTok, "|"), Token(WhitespaceTok, " "), Token(PlaceholderTok, "b")])
  {
    TokenizeAlternationFrom("a | b");
  }

  lemma TokenizeAlternationFrom(s: string)
    requires s == "a | b"
    ensures Tokenize(s) ==
      Ok([Token(PlaceholderTok, "a "), Token(OrTok, "|"), Token(WhitespaceTok, " "), Token(PlaceholderTok, "b")])
  {
    var t0 := Token(PlaceholderTok, "a ");
    var ts := [Token(OrTok, "|"), Token(WhitespaceTok, " "), Token(PlaceholderTok, "b")];
    TokenizeAlternationBar(s[2..]);
    NextTokenPlaceholderA(s);
    assert |t0.value| == 2;
    assert Tokenize(s[|t0.value|..]) == Ok(ts);
    TokenizeStep(s, t0, ts);
    assert [t0] + ts == [t0, Token(OrTok, "|"), Token(WhitespaceTok, " "), Token(PlaceholderTok, "b")];
  }

  lemma TokenizeAlternationB(s: string)
    requires s == "b"
    ensures Tokenize(s) == Ok([Token(PlaceholderTok, "b")])
  {
    var t3 := Token(PlaceholderTok, "b");
    NextTokenPlaceholderB();
    assert s[1..] == "";
    TokenizeStep(s, t3, []);
    assert [t3] + [] == [t3];
  }

  lemma TokenizeAlternationSpace(s: string)
    requires s == " b"
    ensures Tokenize(s) == Ok([Token(WhitespaceTok, " "), Token(PlaceholderTok, "b")])
  {
    var t2, t3 := Token(WhitespaceTok, " "), Token(PlaceholderTok, "b");
    TokenizeAlternationB(s[1..]);
    NextTokenSpace();
    TokenizeStep(s, t2, [t3]);
    assert [t2] + [t3] == [t2, t3];
  }

  lemma TokenizeAlternationBar(s: string)
    requires s == "| b"
    ensures Tokenize(s) == Ok([Token(OrTok, "|"), Token(WhitespaceTok, " "), Token(PlaceholderTok, "b")])
  {
    var t1, t2, t3 := Token(OrTok, "|"), Token(WhitespaceTok, " "), Token(PlaceholderTok, "b");
    TokenizeAlternationSpace(s[1..]);
    NextTokenBar();
    TokenizeStep(s, t1, [t2, t3]);
    assert [t1] + [t2, t3] == [t1, t2, t3];
  }

  lemma BuildLeafUnfold(ts: seq<Token>, ctx: Option<GroupKind>, ns: seq<Node>)
    requires |ts| > 0 && Opener(ts[0].kind).None? && Closer(ts[0].kind).None?
    ensures BuildTree(ts, ctx, ns) == BuildTree(ts[1..], ctx, LeafStep(ns, ts[0]))
  {
  }

  /** One leaf token, spelled out as the head of the list. */
  lemma BuildLeafCons(t: Token, rest: seq<Token>, ctx: Option<GroupKind>, ns: seq<Node>, ns': seq<Node>)
    requires Opener(t.kind).None? && Closer(t.kind).None? && LeafStep(ns, t) == ns'
    ensures BuildTree([t] + rest, ctx, ns) == BuildTree(rest, ctx, ns')
  {
    assert ([t] + rest)[0] == t && ([t] + rest)[1..] == rest;
    BuildLeafUnfold([t] + rest, ctx, ns);
  }

  lemma BuildAlternation3()
    ensures BuildTree([Token(PlaceholderTok, "b")], None, [Placeholder("a "), Or, Raw(" ")])
         == Ok(([Placeholder("a "), Or, Raw(" "), Placeholder("b")], []))
  {
    var ns := [Placeholder("a "), Or, Raw(" ")];
    var out := [Placeholder("a "), Or, Raw(" "), Placeholder("b")];
    assert LeafStep(ns, Token(PlaceholderTok, "b")) == out;
    BuildLeafCons(Token(PlaceholderTok, "b"), [], None, ns, out);
    assert [Token(PlaceholderTok, "b")] + [] == [Token(PlaceholderTok, "b")];
    assert BuildTree([], None, out) == Ok((out, []));
  }

  lemma BuildAlternation2()
    ensures BuildTree([Token(WhitespaceTok, " "), Token(PlaceholderTok, "b")], None, [Placeholder("a "), Or])
         == Ok(([Placeholder("a "), Or, Raw(" "), Placeholder("b")], []))
  {
    var ns := [Placeholder("a "), Or];
    assert LeafStep(ns, Token(WhitespaceTok, " ")) == [Placeholder("a "), Or, Raw(" ")];
    BuildLeafCons(Token(WhitespaceTok, " "), [Token(PlaceholderTok, "b")], None, ns, [Placeholder("a "), Or, Raw(" ")]);
    BuildAlternation3();
  }

  lemma BuildAlternation1()
    ensures BuildTree([Token(OrTok, "|"), Token(WhitespaceTok, " "), Token(PlaceholderTok, "b")], None, [Placeholder("a ")])
         == Ok(([Placeholder("a "), Or, Raw(" "), Placeholder("b")], []))
  {
    var rest := [Token(WhitespaceTok, " "), Token(PlaceholderTok, "b")];
    assert LeafStep([Placeholder("a ")], Token(OrTok, "|")) == [Placeholder("a "), Or];
    BuildLeafCons(Token(OrTok, "|"), rest, None, [Placeholder("a ")], [Placeholder("a "), Or]);
    assert [Token(OrTok, "|")] + rest == [Token(OrTok, "|"), Token(WhitespaceTok, " "), Token(PlaceholderTok, "b")];
    BuildAlternation2();
  }

  lemma BuildAlternation(ts: seq<Token>)
    requires ts == [Token(PlaceholderTok, "a "), Token(OrTok, "|"), Token(WhitespaceTok, " "), Token(PlaceholderTok, "b")]
    ensures BuildTree(ts, None, []) == Ok(([Placeholder("a "), Or, Raw(" "), Placeholder("b")], []))
  {
    var rest := [Token(OrTok, "|"), Token(WhitespaceTok, " "), Token(PlaceholderTok, "b")];
    assert LeafStep([], Token(PlaceholderTok, "a ")) == [Placeholder("a ")];
    BuildLeafCons(Token(PlaceholderTok, "a "), rest, None, [], [Placeholder("a ")]);
    assert [Token(PlaceholderTok, "a ")] + rest == ts;
    BuildAlternation1();
  }

  /** `a | b` parses to four nodes: the `|` stays a standalone `or` marker
      and the lone space becomes a raw node. */
  lemma ParseAlternation(src: string)
    requires src == "a | b"
    ensures Parse(src) == Ok([Placeholder("a "), Or, Raw(" "), Placeholder("b")])
  {
    TokenizeAlternation();
    BuildAlternation(Tokenize(src).value);
  }

  /** An unterminated string literal is a tokenize error naming the rest. */
  lemma TokenizeUnterminated(src: string)
    requires src == "\"abc"
    ensures Tokenize(src) == Err("Could not tokenize \"abc")
  {
    assert StringEnd(src, 4) == None;
    assert StringEnd(src, 1) == None;
    assert NextToken(src) == None;
  }

  /** A closer met at the top level always fails. */
  lemma TopLevelCloserFails(ts: seq<Token>, ns: seq<Node>)
    requires |ts| > 0 && Closer(ts[0].kind).Some?
    ensures BuildTree(ts, None, ns) == Err("Unexpected '" + Surface(ts[0]) + "' in group(undefined)")
  {
  }

  /** `(a` runs out of tokens inside the group. */
  lemma ParseUnclosed(src: string)
    requires src == "(a"
    ensures Parse(src) == Err(UnclosedError)
  {
    var t0, t1 := Token(LParen, "("), Token(PlaceholderTok, "a");
    assert RunLength("a", IsPlaceholderChar) == 1 by { assert "a"[1..] == ""; }
    assert IsPlaceholderChar('a') && !IsSpace('a') && "a"[..1] == "a";
    assert NextToken("a") == Some(t1);
    TokenizeStep("a", t1, []);
    assert [t1] + [] == [t1];
    assert src[..1] == "(" && src[1..] == "a";
    assert NextToken(src) == Some(t0);
    TokenizeStep(src, t0, [t1]);
    var ts := [t0, t1];
    assert [t0] + [t1] == ts;
    assert ts[1..] == [t1];
    BuildLeafUnfold([t1], Some(GroupKind), []);
    assert [t1][1..] == [];
    assert BuildTree([t1], Some(GroupKind), []) == Err(UnclosedError);
    assert BuildTree(ts, None, []) == BuildNested(ts, None, [], GroupKind);
  }

  /** A delimiter character is a one-character token of its kind. */
  lemma NextTokenDelimiter(src: string)
    requires |src| > 0 && src[0] != '"' && DelimiterKind(src[0]).Some?
    ensures NextToken(src) == Some(Token(DelimiterKind(src[0]).value, [src[0]]))
  {
    assert src[..1] == [src[0]];
  }

  /** A lone space before a non-space is a one-character whitespace token. */
  lemma NextTokenOneSpace(src: string)
    requires |src| > 1 && IsSpace(src[0]) && !IsSpace(src[1]) && src[0] != '"' && DelimiterKind(src[0]).None?
    ensures NextToken(src) == Some(Token(WhitespaceTok, [src[0]]))
  {
    assert RunLength(src, IsSpace) == 1 by {
      assert src[1..][0] == src[1];
    }
    assert src[..1] == [src[0]];
  }

  lemma ConsFour<T>(a: T, b: T, c: T, d: T)
    ensures [a] + [b, c, d] == [a, b, c, d]
  {
  }

  lemma ConsFive<T>(a: T, b: T, c: T, d: T, e: T)
    ensures [a] + [b, c, d, e] == [a, b, c, d, e]
  {
  }

  lemma TokenizeOptClose(s: string)
    requires s == "]"
    ensures Tokenize(s) == Ok([Token(RBracket, "]")])
  {
    NextTokenDelimiter(s);
    assert [s[0]] == "]";
    assert s[1..] == "";
    TokenizeStep(s, Token(RBracket, "]"), []);
    assert [Token(RBracket, "]")] + [] == [Token(RBracket, "]")];
  }

  lemma TokenizeOptSpaceClose(s: string)
    requires s == " ]"
    ensures Tokenize(s) == Ok([Token(WhitespaceTok, " "), Token(RBracket, "]")])
  {
    TokenizeOptClose(s[1..]);
    NextTokenOneSpace(s);
    assert [s[0]] == " ";
    TokenizeStep(s, Token(WhitespaceTok, " "), [Token(RBracket, "]")]);
    assert [Token(WhitespaceTok, " ")] + [Token(RBracket, "]")] == [Token(WhitespaceTok, " "), Token(RBracket, "]")];
  }

  lemma TokenizeOptString(s: string)
    requires s == "\"opt\" ]"
    ensures Tokenize(s) == Ok([Token(StringTok, "\"opt\""), Token(WhitespaceTok, " "), Token(RBracket, "]")])
  {
    var t := Token(StringTok, "\"opt\"");
    var rest := [Token(WhitespaceTok, " "), Token(RBracket, "]")];
    assert NextToken(s) == Some(t) by {
      assert s[1] == 'o' && s[2] == 'p' && s[3] == 't' && s[4] == '"';
      assert StringEnd(s, 4) == Some(5);
      assert StringEnd(s, 3) == Some(5);
      assert StringEnd(s, 2) == Some(5);
      assert StringEnd(s, 1) == Some(5);
      assert s[..5] == "\"opt\"";
    }
    assert s[5..] == " ]";
    TokenizeOptSpaceClose(s[5..]);
    TokenizeStep(s, t, rest);
    assert [t] + rest == [t, rest[0], rest[1]];
  }

  lemma NextTokenSpaceQuote(s: string)
    requires |s| > 1 && s[0] == ' ' && s[1] == '"'
    ensures NextToken(s) == Some(Token(WhitespaceTok, " "))
  {
    NextTokenOneSpace(s);
    assert [s[0]] == " ";
  }

  lemma TokenizeOptMid(s: string)
    requires s == " \"opt\" ]"
    ensures Tokenize(s) ==
      Ok([Token(WhitespaceTok, " "), Token(StringTok, "\"opt\""), Token(WhitespaceTok, " "), Token(RBracket, "]")])
  {
    var t := Token(WhitespaceTok, " ");
    var rest := [Token(StringTok, "\"opt\""), Token(WhitespaceTok, " "), Token(RBracket, "]")];
    TokenizeOptString(s[1..]);
    NextTokenSpaceQuote(s);
    TokenizeStep(s, t, rest);
    ConsFour(t, rest[0], rest[1], rest[2]);
  }

  lemma NextTokenOpenBracket(s: string)
    requires |s| > 0 && s[0] == '['
    ensures NextToken(s) == Some(Token(LBracket, "["))
  {
    NextTokenDelimiter(s);
    assert [s[0]] == "[";
  }

  lemma TokenizeOpt(s: string)
    requires s == "[ \"opt\" ]"
    ensures Tokenize(s) ==
      Ok([Token(LBracket, "["), Token(WhitespaceTok, " "), Token(StringTok, "\"opt\""),
          Token(WhitespaceTok, " "), Token(RBracket, "]")])
  {
    var t := Token(LBracket, "[");
    var rest := [Token(WhitespaceTok, " "), Token(StringTok, "\"opt\""), Token(WhitespaceTok, " "), Token(RBracket, "]")];
    TokenizeOptMid(s[1..]);
    NextTokenOpenBracket(s);
    TokenizeStep(s, t, rest);
    ConsFive(t, rest[0], rest[1], rest[2], rest[3]);
  }

  lemma PushRawOne(x: string, v: string)
    ensures PushRaw([Raw(x)], v) == [Raw(x + v)]
  {
    assert [Raw(x)][..0] == [];
  }

  lemma BuildOptTail()
    ensures BuildTree([Token(WhitespaceTok, " "), Token(RBracket, "]")], Some(OptKind), [Raw(" opt")])
         == Ok(([Raw(" opt ")], []))
  {
    var t3, t4 := Token(WhitespaceTok, " "), Token(RBracket, "]");
    assert BuildTree([t3] + [t4], Some(OptKind), [Raw(" opt")]) == BuildTree([t4], Some(OptKind), [Raw(" opt ")]) by {
      PushRawOne(" opt", " ");
      assert " opt" + " " == " opt ";
      BuildLeafCons(t3, [t4], Some(OptKind), [Raw(" opt")], [Raw(" opt ")]);
    }
    assert BuildTree([t4], Some(OptKind), [Raw(" opt ")]) == Ok(([Raw(" opt ")], [])) by {
      assert [t4][1..] == [];
    }
    assert [t3] + [t4] == [t3, t4];
  }

  lemma SurfaceOpt()
    ensures Surface(Token(StringTok, "\"opt\"")) == "opt"
  {
    assert Unquote("\"opt\"") == "\"opt\""[1..4];
  }

  lemma BuildOptMid()
    ensures BuildTree([Token(StringTok, "\"opt\""), Token(WhitespaceTok, " "), Token(RBracket, "]")],
                      Some(OptKind), [Raw(" ")])
         == Ok(([Raw(" opt ")], []))
  {
    var t2 := Token(StringTok, "\"opt\"");
    var tail := [Token(WhitespaceTok, " "), Token(RBracket, "]")];
    assert BuildTree([t2] + tail, Some(OptKind), [Raw(" ")]) == BuildTree(tail, Some(OptKind), [Raw(" opt")]) by {
      SurfaceOpt();
      PushRawOne(" ", "opt");
      assert " " + "opt" == " opt";
      BuildLeafCons(t2, tail, Some(OptKind), [Raw(" ")], [Raw(" opt")]);
    }
    BuildOptTail();
    assert [t2] + tail == [t2, tail[0], tail[1]];
  }

  lemma BuildOptInner()
    ensures BuildTree([Token(WhitespaceTok, " "), Token(StringTok, "\"opt\""), Token(WhitespaceTok, " "), Token(RBracket, "]")],
                      Some(OptKind), [])
         == Ok(([Raw(" opt ")], []))
  {
    var t1 := Token(WhitespaceTok, " ");
    var tail := [Token(StringTok, "\"opt\""), Token(WhitespaceTok, " "), Token(RBracket, "]")];
    assert BuildTree([t1] + tail, Some(OptKind), []) == BuildTree(tail, Some(OptKind), [Raw(" ")]) by {
      assert LeafStep([], t1) == [Raw(" ")];
      BuildLeafCons(t1, tail, Some(OptKind), [], [Raw(" ")]);
    }
    BuildOptMid();
    assert [t1] + tail == [t1, tail[0], tail[1], tail[2]];
  }

  /** `[ "opt" ]` gives one `opt` node whose raw text keeps the spaces
      around the string: whitespace and string contents merge into one raw
      node. */
  lemma ParseOpt(src: string)
    requires src == "[ \"opt\" ]"
    ensures Parse(src) == Ok([Opt([Raw(" opt ")])])
  {
    var open := Token(LBracket, "[");
    var inner := [Token(WhitespaceTok, " "), Token(StringTok, "\"opt\""), Token(WhitespaceTok, " "), Token(RBracket, "]")];
    TokenizeOpt(src);
    assert [open] + inner == Tokenize(src).value;
    BuildOptInner();
    BuildNestedCons(open, inner, None, [], OptKind, [Raw(" opt ")]);
    assert [] + [MakeComposite(OptKind, [Raw(" opt ")])] == [Opt([Raw(" opt ")])];
  }

  /** An opener followed by a group that closes exactly at the end. */
  lemma BuildNestedCons(t: Token, rest: seq<Token>, ctx: Option<GroupKind>, ns: seq<Node>, k: GroupKind, inner: seq<Node>)
    requires Opener(t.kind) == Some(k) && Closer(t.kind).None?
    requires BuildTree(rest, Some(k), []) == Ok((inner, []))
    ensures BuildTree([t] + rest, ctx, ns) == BuildTree([], ctx, ns + [MakeComposite(k, inner)])
  {
    assert ([t] + rest)[0] == t && ([t] + rest)[1..] == rest;
  }

}
