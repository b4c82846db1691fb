/** Post-processing of Prism's token stream for the code player: each token
    is wrapped with the list of types inherited from its ancestors, the tree
    is flattened into leaves, and the leaves are cut into lines at `\n` (an
    `\r` right before the `\n` is dropped). */
module PrismTokens {
  import opened Wrappers
  import opened Strings

  /** A token's `alias`: absent, one name, or a list of names. */
  datatype Alias = NoAlias | OneAlias(name: string) | Aliases(names: seq<string>)

  /** Prism's output: plain strings and tokens whose content is a string, a
      token or a list of strings and tokens. */
  datatype PrismNode = Str(text: string) | Tok(kind: string, alias: Alias, body: PrismBody)
  datatype PrismBody = Single(node: PrismNode) | Many(nodes: seq<PrismNode>)

  /** A token with its accumulated types; leaves hold text. */
  datatype Nested = Leaf(types: seq<string>, content: string) | Branch(types: seq<string>, children: seq<Nested>)

  datatype FlatToken = FlatToken(types: seq<string>, content: string)

  /** The names an alias adds; an empty name is falsy and adds nothing. */
  function AliasTypes(a: Alias): seq<string> {
    match a
    case NoAlias => []
    case OneAlias(n) => if n == "" then [] else [n]
    case Aliases(ns) => ns
  }

  function NodeSize(n: PrismNode): (r: nat)
    ensures r >= 1
  {
    match n
    case Str(_) => 1
    case Tok(_, _, Single(c)) => 1 + NodeSize(c)
    case Tok(_, _, Many(cs)) => 1 + NodesSize(cs)
  }

  function NodesSize(ns: seq<PrismNode>): nat {
    if |ns| == 0 then 0 else NodeSize(ns[0]) + NodesSize(ns[1..])
  }

  /** The text Prism was given back: the strings in document order. */
  function NodeText(n: PrismNode): string
    decreases NodeSize(n), 0
  {
    match n
    case Str(s) => s
    case Tok(_, _, Single(c)) => NodeText(c)
    case Tok(_, _, Many(cs)) => NodesText(cs)
  }

  function NodesText(ns: seq<PrismNode>): string
    decreases NodesSize(ns), 1
  {
    if |ns| == 0 then "" else NodeText(ns[0]) + NodesText(ns[1..])
  }

  /** `wrapToken`: a string takes its parent's types; a token adds its own
      type and then its aliases, and passes the list down to its content. */
  function WrapToken(n: PrismNode, parent: seq<string>): (r: Nested)
    ensures n.Str? ==> r == Leaf(parent, n.text)
    ensures n.Tok? && n.body.Many? ==> r.Branch? && r.types == parent + [n.kind] + AliasTypes(n.alias)
    ensures |parent| <= |r.types| && r.types[..|parent|] == parent
    decreases NodeSize(n), 0
  {
    match n
    case Str(s) => Leaf(parent, s)
    case Tok(kind, alias, body) =>
      var types := parent + [kind] + AliasTypes(alias);
      assert types[..|parent|] == parent;
      match body
      case Many(cs) => Branch(types, TokenizeStrings(cs, types))
      case Single(c) =>
        var r := WrapToken(c, types);
        assert r.types[..|parent|] == types[..|parent|];
        r
  }

  /** `tokenizeStrings`: every node wrapped under the same parent types. */
  function TokenizeStrings(ns: seq<PrismNode>, parent: seq<string>): (r: seq<Nested>)
    ensures |r| == |ns|
    decreases NodesSize(ns), 1
  {
    if |ns| == 0 then [] else [WrapToken(ns[0], parent)] + TokenizeStrings(ns[1..], parent)
  }

  function NestedText(t: Nested): string {
    match t
    case Leaf(_, s) => s
    case Branch(_, cs) => NestedsText(cs)
  }

  function NestedsText(ts: seq<Nested>): string {
    if |ts| == 0 then "" else NestedText(ts[0]) + NestedsText(ts[1..])
  }

  /** Types only accumulate down a branch: every node's types begin with
      those of its parent. */
  predicate Accumulates(t: Nested) {
    match t
    case Leaf(_, _) => true
    case Branch(ty, cs) => AllAccumulate(cs, ty)
  }

  predicate AllAccumulate(cs: seq<Nested>, ty: seq<string>) {
    if |cs| == 0 then true
    else
      && |ty| <= |cs[0].types| && cs[0].types[..|ty|] == ty
      && Accumulates(cs[0])
      && AllAccumulate(cs[1..], ty)
  }

  /** Wrapping keeps the text and accumulates types. */
  lemma {:induction false} WrapTokenSound(n: PrismNode, parent: seq<string>)
    ensures NestedText(WrapToken(n, parent)) == NodeText(n)
    ensures Accumulates(WrapToken(n, parent))
    decreases NodeSize(n), 0
  {
    match n
    case Str(_) =>
    case Tok(kind, alias, body) =>
      var types := parent + [kind] + AliasTypes(alias);
      match body
      case Many(cs) => TokenizeStringsSound(cs, types);
      case Single(c) => WrapTokenSound(c, types);
  }

  lemma {:induction false} TokenizeStringsSound(ns: seq<PrismNode>, parent: seq<string>)
    ensures NestedsText(TokenizeStrings(ns, parent)) == NodesText(ns)
    ensures AllAccumulate(TokenizeStrings(ns, parent), parent)
    decreases NodesSize(ns), 1
  {
    if |ns| > 0 {
      WrapTokenSound(ns[0], parent);
      TokenizeStringsSound(ns[1..], parent);
      var r := TokenizeStrings(ns, parent);
      assert r[0] == WrapToken(ns[0], parent);
      assert r[1..] == TokenizeStrings(ns[1..], parent);
    }
  }

  /** `flattenTokens`: the leaves, depth first and left to right. */
  function Flatten(ts: seq<Nested>): seq<FlatToken> {
    if |ts| == 0 then []
    else
      (match ts[0]
       case Leaf(ty, s) => [FlatToken(ty, s)]
       case Branch(_, cs) => Flatten(cs))
      + Flatten(ts[1..])
  }

  function FlatText(fs: seq<FlatToken>): string {
    if |fs| == 0 then "" else fs[0].content + FlatText(fs[1..])
  }

  lemma FlatTextAppend(a: seq<FlatToken>, b: seq<FlatToken>)
    ensures FlatText(a + b) == FlatText(a) + FlatText(b)
  {
    if |a| > 0 {
      assert (a + b)[1..] == a[1..] + b;
      FlatTextAppend(a[1..], b);
    } else {
      assert a + b == b;
    }
  }

  /** Flattening keeps the text. */
  lemma {:induction false} FlattenText(ts: seq<Nested>)
    ensures FlatText(Flatten(ts)) == NestedsText(ts)
  {
    if |ts| > 0 {
      var head := match ts[0] case Leaf(ty, s) => [FlatToken(ty, s)] case Branch(_, cs) => Flatten(cs);
      FlatTextAppend(head, Flatten(ts[1..]));
      FlattenText(ts[1..]);
      match ts[0]
      case Leaf(_, _) =>
      case Branch(_, cs) => FlattenText(cs);
    }
  }

  /** Every leaf under a list whose types begin with `ty` has types beginning
      with `ty`. */
  lemma {:induction false} FlattenTypes(ts: seq<Nested>, ty: seq<string>)
    requires AllAccumulate(ts, ty)
    ensures forall i :: 0 <= i < |Flatten(ts)| ==> |ty| <= |Flatten(ts)[i].types| && Flatten(ts)[i].types[..|ty|] == ty
  {
    if |ts| > 0 {
      FlattenTypes(ts[1..], ty);
      match ts[0]
      case Leaf(_, _) =>
      case Branch(ty0, cs) =>
        FlattenTypes(cs, ty0);
        forall i | 0 <= i < |Flatten(cs)|
          ensures |ty| <= |Flatten(cs)[i].types| && Flatten(cs)[i].types[..|ty|] == ty
        {
          assert Flatten(cs)[i].types[..|ty0|][..|ty|] == ty0[..|ty|];
        }
    }
  }

  /** Prism's strings, wrapped and flattened, read back as the code. */
  lemma FlattenedTokens(ns: seq<PrismNode>)
    ensures FlatText(Flatten(TokenizeStrings(ns, []))) == NodesText(ns)
  {
    TokenizeStringsSound(ns, []);
    FlattenText(TokenizeStrings(ns, []));
  }

  /** `content.split(/\r?\n/)`: the pieces between newlines, each losing an
      `\r` that stood right before its newline. */
  function SplitLines(s: string): (r: seq<string>)
    ensures |r| == |Split(s, '\n')|
    decreases |s|
  {
    var i := IndexOf(s, '\n');
    if i < 0 then [s] else [DropCR(s[..i])] + SplitLines(s[i + 1..])
  }

  function DropCR(p: string): (r: string)
    ensures '\n' !in p ==> '\n' !in r
  {
    if |p| > 0 && p[|p| - 1] == '\r' then p[..|p| - 1] else p
  }

  /** The lines joined back with `\n` give the text with each `\r\n` written
      as `\n`. */
  lemma {:induction false} SplitLinesJoin(s: string)
    ensures Join(SplitLines(s), "\n") == ReplaceAll(s, "\r\n", "\n")
    decreases |s|
  {
    var i := IndexOf(s, '\n');
    if i < 0 {
      ReplaceNoNewline(s);
    } else {
      var a, rest := s[..i], s[i + 1..];
      assert s == a + ("\n" + rest);
      SplitLinesJoin(rest);
      ReplaceBeforeNewline(a, rest);
      assert SplitLines(s) == [DropCR(a)] + SplitLines(rest);
      Reassociate(DropCR(a), "\n", ReplaceAll(rest, "\r\n", "\n"));
    }
  }

  lemma {:induction false} ReplaceNoNewline(s: string)
    requires '\n' !in s
    ensures ReplaceAll(s, "\r\n", "\n") == s
    decreases |s|
  {
    if |s| >= 2 {
      assert s[..2] != "\r\n" by { assert s[1] != '\n'; }
      ReplaceNoNewline(s[1..]);
    }
  }

  lemma {:induction false} ReplaceBeforeNewline(a: string, rest: string)
    requires '\n' !in a
    ensures ReplaceAll(a + ("\n" + rest), "\r\n", "\n") == DropCR(a) + ("\n" + ReplaceAll(rest, "\r\n", "\n"))
    decreases |a|
  {
    if |a| == 0 {
      ReplaceAtNewline(rest);
      assert a + ("\n" + rest) == "\n" + rest;
    } else if a == "\r" {
      ReplaceAtCRLF(rest);
    } else {
      ReplaceStep(a, rest);
      ReplaceBeforeNewline(a[1..], rest);
      DropCRCons(a);
      Reassociate([a[0]], DropCR(a[1..]), "\n" + ReplaceAll(rest, "\r\n", "\n"));
    }
  }

  lemma ReplaceAtNewline(rest: string)
    ensures ReplaceAll("\n" + rest, "\r\n", "\n") == "\n" + ReplaceAll(rest, "\r\n", "\n")
  {
    var s := "\n" + rest;
    if |rest| > 0 {
      assert s[..2] != "\r\n" by { assert s[0] == '\n'; }
      ReplaceAllSkip(s, "\r\n", "\n");
      assert s[1..] == rest;
    } else {
      assert s == "\n";
    }
  }

  lemma ReplaceAtCRLF(rest: string)
    ensures ReplaceAll("\r" + ("\n" + rest), "\r\n", "\n") == DropCR("\r") + ("\n" + ReplaceAll(rest, "\r\n", "\n"))
  {
    var s := "\r" + ("\n" + rest);
    assert s[..2] == "\r\n";
    assert s[2..] == rest;
    assert DropCR("\r") == "";
  }

  lemma DropCRCons(a: string)
    requires |a| > 0 && a != "\r"
    ensures DropCR(a) == [a[0]] + DropCR(a[1..])
  {
    if a[|a| - 1] == '\r' {
      assert |a| >= 2;
      assert a[..|a| - 1] == [a[0]] + a[1..][..|a[1..]| - 1];
    } else {
      assert a == [a[0]] + a[1..];
    }
  }

  /** Away from a `\r\n` pair, replacement keeps the first character. */
  lemma ReplaceStep(a: string, rest: string)
    requires '\n' !in a && |a| > 0 && a != "\r"
    ensures ReplaceAll(a + ("\n" + rest), "\r\n", "\n") == [a[0]] + ReplaceAll(a[1..] + ("\n" + rest), "\r\n", "\n")
  {
    var s := a + ("\n" + rest);
    assert s[0] == a[0];
    assert |a| >= 2 ==> s[1] == a[1];
    assert s[..2] != "\r\n" by {
      if s[0] == '\r' {
        assert |a| >= 2;
        assert a[1] != '\n';
      }
    }
    ReplaceAllSkip(s, "\r\n", "\n");
    assert s[1..] == a[1..] + ("\n" + rest);
  }

  /** A line of output tokens is its tokens; the lines so far are never empty
      (the last is the one being filled). */
  type Lines = seq<seq<FlatToken>>

  /** A piece joins the current line only when it is not empty. */
  function PieceTokens(types: seq<string>, p: string): seq<FlatToken> {
    if p == "" then [] else [FlatToken(types, p)]
  }

  /** The current (last) line extended by `extra`. */
  function ExtendLast(lines: Lines, extra: seq<FlatToken>): (r: Lines)
    requires |lines| > 0
    ensures |r| == |lines|
  {
    lines[..|lines| - 1] + [lines[|lines| - 1] + extra]
  }

  /** One token cut at its newlines: the first piece continues the current
      line, every further piece opens a new one. */
  function AddToken(lines: Lines, t: FlatToken): (r: Lines)
    requires |lines| > 0
    ensures |r| == |lines| + Count(t.content, '\n')
  {
    SplitLength(t.content, '\n');
    AddPieces(lines, t.types, SplitLines(t.content))
  }

  /** The pieces of one token: the lines before the current one stay, the
      first piece ends up in the current line, and each further piece is a
      line of its own. */
  function AddPieces(lines: Lines, types: seq<string>, pieces: seq<string>): (r: Lines)
    requires |lines| > 0 && |pieces| > 0
    ensures |r| == |lines| + |pieces| - 1
    ensures r[..|lines| - 1] == lines[..|lines| - 1]
    ensures r[|lines| - 1] == lines[|lines| - 1] + PieceTokens(types, pieces[0])
    ensures forall i :: 1 <= i < |pieces| ==> r[|lines| - 1 + i] == PieceTokens(types, pieces[i])
  {
    var ext := ExtendLast(lines, PieceTokens(types, pieces[0]));
    var r := OpenLines(ext, types, pieces[1..]);
    assert r[..|lines| - 1] == r[..|lines|][..|lines| - 1];
    r
  }

  function OpenLines(lines: Lines, types: seq<string>, pieces: seq<string>): (r: Lines)
    ensures |r| == |lines| + |pieces|
    ensures r[..|lines|] == lines
    ensures forall i :: 0 <= i < |pieces| ==> r[|lines| + i] == PieceTokens(types, pieces[i])
    decreases |pieces|
  {
    if |pieces| == 0 then lines
    else
      var r := OpenLines(lines + [PieceTokens(types, pieces[0])], types, pieces[1..]);
      assert r[..|lines|] == r[..|lines| + 1][..|lines|];
      r
  }

  /** The loop of `tokenize` over the flat tokens. */
  function LinesOf(ts: seq<FlatToken>): (r: Lines)
    ensures |r| > 0
  {
    if |ts| == 0 then [[]] else AddToken(LinesOf(ts[..|ts| - 1]), ts[|ts| - 1])
  }

  /** Total number of newlines in the tokens' contents. */
  function NewlineCount(ts: seq<FlatToken>): nat {
    if |ts| == 0 then 0 else NewlineCount(ts[..|ts| - 1]) + Count(ts[|ts| - 1].content, '\n')
  }

  /** There is one line more than there are newlines. */
  lemma {:induction false} LineCount(ts: seq<FlatToken>)
    ensures |LinesOf(ts)| == 1 + NewlineCount(ts)
  {
    if |ts| > 0 {
      LineCount(ts[..|ts| - 1]);
    }
  }

  function LineText(line: seq<FlatToken>): string {
    FlatText(line)
  }

  /** The text of all lines: each line's token texts, lines joined by `\n`. */
  function LinesText(lines: Lines): string {
    if |lines| == 0 then ""
    else if |lines| == 1 then LineText(lines[0])
    else LinesText(lines[..|lines| - 1]) + "\n" + LineText(lines[|lines| - 1])
  }

  /** Every token's text with `\r\n` written as `\n`, concatenated. */
  function ReducedText(ts: seq<FlatToken>): string {
    if |ts| == 0 then "" else ReducedText(ts[..|ts| - 1]) + ReplaceAll(ts[|ts| - 1].content, "\r\n", "\n")
  }

  /** The lines read back as the tokens' text, each token's `\r\n` reduced
      to `\n`. */
  lemma {:induction false} LinesTextIsReduced(ts: seq<FlatToken>)
    ensures LinesText(LinesOf(ts)) == ReducedText(ts)
  {
    if |ts| == 0 {
      assert LineText([]) == "";
    } else {
      var pre := LinesOf(ts[..|ts| - 1]);
      LinesTextIsReduced(ts[..|ts| - 1]);
      AddTokenText(pre, ts[|ts| - 1]);
    }
  }

  lemma AddTokenText(lines: Lines, t: FlatToken)
    requires |lines| > 0
    ensures LinesText(AddToken(lines, t)) == LinesText(lines) + ReplaceAll(t.content, "\r\n", "\n")
  {
    AddPiecesText(lines, t.types, SplitLines(t.content));
    SplitLinesJoin(t.content);
  }

  lemma AddPiecesText(lines: Lines, types: seq<string>, pieces: seq<string>)
    requires |lines| > 0 && |pieces| > 0
    ensures LinesText(AddPieces(lines, types, pieces)) == LinesText(lines) + Join(pieces, "\n")
  {
    var first := ExtendLast(lines, PieceTokens(types, pieces[0]));
    OpenAfterFirstText(lines, types, pieces);
    FirstPieceText(lines, types, pieces);
    JoinFirst(pieces);
    Regroup(LinesText(AddPieces(lines, types, pieces)), LinesText(first), LinesText(lines),
            pieces[0], JoinRest(pieces[1..]), Join(pieces, "\n"));
  }

  lemma OpenAfterFirstText(lines: Lines, types: seq<string>, pieces: seq<string>)
    requires |lines| > 0 && |pieces| > 0
    ensures LinesText(AddPieces(lines, types, pieces))
         == LinesText(ExtendLast(lines, PieceTokens(types, pieces[0]))) + JoinRest(pieces[1..])
  {
    OpenLinesText(ExtendLast(lines, PieceTokens(types, pieces[0])), types, pieces[1..]);
  }

  lemma FirstPieceText(lines: Lines, types: seq<string>, pieces: seq<string>)
    requires |lines| > 0 && |pieces| > 0
    ensures LinesText(ExtendLast(lines, PieceTokens(types, pieces[0]))) == LinesText(lines) + pieces[0]
  {
    var extra := PieceTokens(types, pieces[0]);
    ExtendLastText(lines, extra);
    assert FlatText(extra) == pieces[0];
  }

  lemma JoinFirst(pieces: seq<string>)
    requires |pieces| > 0
    ensures Join(pieces, "\n") == pieces[0] + JoinRest(pieces[1..])
  {
    if |pieces| > 1 {
      JoinRestIsJoin(pieces[1..]);
    }
  }

  /** Each piece preceded by `\n`. */
  function JoinRest(pieces: seq<string>): string {
    if |pieces| == 0 then "" else "\n" + pieces[0] + JoinRest(pieces[1..])
  }

  lemma {:induction false} JoinRestIsJoin(pieces: seq<string>)
    requires |pieces| > 0
    ensures JoinRest(pieces) == "\n" + Join(pieces, "\n")
  {
    if |pieces| > 1 {
      JoinRestIsJoin(pieces[1..]);
    }
  }

  lemma ExtendLastText(lines: Lines, extra: seq<FlatToken>)
    requires |lines| > 0
    ensures LinesText(ExtendLast(lines, extra)) == LinesText(lines) + FlatText(extra)
  {
    var lines' := ExtendLast(lines, extra);
    FlatTextAppend(lines[|lines| - 1], extra);
    if |lines| > 1 {
      assert lines'[..|lines'| - 1] == lines[..|lines| - 1];
    }
  }

  lemma {:induction false} OpenLinesText(lines: Lines, types: seq<string>, pieces: seq<string>)
    requires |lines| > 0
    ensures LinesText(OpenLines(lines, types, pieces)) == LinesText(lines) + JoinRest(pieces)
    decreases |pieces|
  {
    if |pieces| > 0 {
      var lines' := lines + [PieceTokens(types, pieces[0])];
      assert lines'[..|lines'| - 1] == lines;
      assert FlatText(PieceTokens(types, pieces[0])) == pieces[0];
      OpenLinesText(lines', types, pieces[1..]);
    }
  }

  /** The output tokens of all lines, in order. */
  function AllTokens(lines: Lines): seq<FlatToken> {
    if |lines| == 0 then [] else AllTokens(lines[..|lines| - 1]) + lines[|lines| - 1]
  }

  /** The non-empty pieces of a token, each with the token's types. */
  function TokenPieces(t: FlatToken): seq<FlatToken> {
    PiecesTokens(t.types, SplitLines(t.content))
  }

  function PiecesTokens(types: seq<string>, pieces: seq<string>): (r: seq<FlatToken>)
    ensures forall i :: 0 <= i < |r| ==> r[i].content != "" && r[i].types == types
  {
    if |pieces| == 0 then [] else PieceTokens(types, pieces[0]) + PiecesTokens(types, pieces[1..])
  }

  function AllPieces(ts: seq<FlatToken>): seq<FlatToken> {
    if |ts| == 0 then [] else AllPieces(ts[..|ts| - 1]) + TokenPieces(ts[|ts| - 1])
  }

  /** Read line after line, the output tokens are exactly the non-empty
      pieces of the input tokens, in order, each keeping the types of the
      token it was cut from. */
  lemma {:induction false} LinesArePieces(ts: seq<FlatToken>)
    ensures AllTokens(LinesOf(ts)) == AllPieces(ts)
  {
    if |ts| == 0 {
      assert AllTokens([[]]) == AllTokens([]) + [];
    } else {
      LinesArePieces(ts[..|ts| - 1]);
      AddTokenPieces(LinesOf(ts[..|ts| - 1]), ts[|ts| - 1]);
    }
  }

  lemma AddTokenPieces(lines: Lines, t: FlatToken)
    requires |lines| > 0
    ensures AllTokens(AddToken(lines, t)) == AllTokens(lines) + TokenPieces(t)
  {
    AddPiecesTokens(lines, t.types, SplitLines(t.content));
  }

  lemma AddPiecesTokens(lines: Lines, types: seq<string>, pieces: seq<string>)
    requires |lines| > 0 && |pieces| > 0
    ensures AllTokens(AddPieces(lines, types, pieces)) == AllTokens(lines) + PiecesTokens(types, pieces)
  {
    var extra := PieceTokens(types, pieces[0]);
    OpenAfterFirstTokens(lines, types, pieces);
    ExtendLastTokens(lines, extra);
    Regroup(AllTokens(AddPieces(lines, types, pieces)), AllTokens(ExtendLast(lines, extra)), AllTokens(lines),
            extra, PiecesTokens(types, pieces[1..]), PiecesTokens(types, pieces));
  }

  lemma OpenAfterFirstTokens(lines: Lines, types: seq<string>, pieces: seq<string>)
    requires |lines| > 0 && |pieces| > 0
    ensures AllTokens(AddPieces(lines, types, pieces))
         == AllTokens(ExtendLast(lines, PieceTokens(types, pieces[0]))) + PiecesTokens(types, pieces[1..])
  {
    OpenLinesPieces(ExtendLast(lines, PieceTokens(types, pieces[0])), types, pieces[1..]);
  }

  lemma ExtendLastTokens(lines: Lines, extra: seq<FlatToken>)
    requires |lines| > 0
    ensures AllTokens(ExtendLast(lines, extra)) == AllTokens(lines) + extra
  {
    var init, last := lines[..|lines| - 1], lines[|lines| - 1];
    assert ExtendLast(lines, extra) == init + [last + extra];
    AllTokensSnoc(init, last + extra);
  }

  lemma AllTokensSnoc(init: Lines, line: seq<FlatToken>)
    ensures AllTokens(init + [line]) == AllTokens(init) + line
  {
    assert (init + [line])[..|init|] == init;
  }

  lemma {:induction false} OpenLinesPieces(lines: Lines, types: seq<string>, pieces: seq<string>)
    ensures AllTokens(OpenLines(lines, types, pieces)) == AllTokens(lines) + PiecesTokens(types, pieces)
    decreases |pieces|
  {
    if |pieces| > 0 {
      var lines' := lines + [PieceTokens(types, pieces[0])];
      assert lines'[..|lines'| - 1] == lines;
      OpenLinesPieces(lines', types, pieces[1..]);
    }
  }

  /** No output token is empty. */
  lemma NoEmptyTokens(ts: seq<FlatToken>)
    ensures forall f :: f in AllTokens(LinesOf(ts)) ==> f.content != ""
  {
    LinesArePieces(ts);
    AllPiecesNonEmpty(ts);
  }

  lemma {:induction false} AllPiecesNonEmpty(ts: seq<FlatToken>)
    ensures forall f :: f in AllPieces(ts) ==> f.content != ""
  {
    if |ts| > 0 {
      AllPiecesNonEmpty(ts[..|ts| - 1]);
    }
  }

  /** The error for a language with no grammar; it carries the language. */
  datatype MissingGrammarError = MissingGrammarError(lang: string) {
    function Message(): string {
      "Missing syntax highlighting for language \"" + lang + "\""
    }
  }

  datatype Tokenized = Tokenized(lines: Lines) | Missing(error: MissingGrammarError)

  /** `tokenize(code, lang)`: look up the grammar, run Prism (a parameter),
      wrap, flatten and cut into lines. */
  function Tokenize<G>(code: string, lang: string, languages: map<string, G>,
                       prismTokenize: (string, G) -> seq<PrismNode>): (r: Tokenized)
    ensures lang !in languages <==> r == Missing(MissingGrammarError(lang))
  {
    if lang !in languages then Missing(MissingGrammarError(lang))
    else Tokenized(LinesOf(Flatten(TokenizeStrings(prismTokenize(code, languages[lang]), []))))
  }

  /** When Prism's strings spell the code, the lines spell the code with
      `\r\n` reduced within tokens. */
  lemma TokenizeText<G>(code: string, lang: string, languages: map<string, G>,
                        prismTokenize: (string, G) -> seq<PrismNode>)
    requires lang in languages
    ensures var flat := Flatten(TokenizeStrings(prismTokenize(code, languages[lang]), []));
            && FlatText(flat) == NodesText(prismTokenize(code, languages[lang]))
            && Tokenize(code, lang, languages, prismTokenize) == Tokenized(LinesOf(flat))
            && LinesText(LinesOf(flat)) == ReducedText(flat)
            && |LinesOf(flat)| == 1 + NewlineCount(flat)
  {
    var flat := Flatten(TokenizeStrings(prismTokenize(code, languages[lang]), []));
    FlattenedTokens(prismTokenize(code, languages[lang]));
    LinesTextIsReduced(flat);
    LineCount(flat);
  }
}
