# Markdown plugin transforms of MyCppTutorial, in Dafny

The tutorial site renders its markdown with a handful of VuePress plugins.
Six of their text and tree transforms are modelled here as pure Dafny
functions over immutable datatypes, with their properties proved:

- **sdsc** (`sdsc_parser.dfy`, module `SdscParser`): the notation of
  "standard specification" grammar blocks. A priority-ordered, lossless
  tokenizer and a recursive-descent tree builder over `( )`, `[ ]` and
  `{ }` that merges neighbouring raw text.
- **codemo** (`codemo_args.dfy`, `codemo.dfy`, modules `CodemoArgs` and
  `Codemo`): the `codemo(...)` attribute (focus ranges, the ordered `input`
  unescape chain, the component props) and the fence rule that splits
  `// codemo hide|show|focus-next-line` directives out of the code into a
  shown and a full version.
- **code player tokens** (`prism_tokens.dfy`, `PrismTokens`): the
  post-processing of Prism's token tree: types accumulated down the tree,
  depth-first flattening, and cutting into lines.
- **autolinker** (`link_matcher.dfy`, `stable_sort.dfy`, `relinker.dfy`,
  modules `LinkMatcher`, `StableSort`, `Relinker`): the symbol index
  rewritten by `using namespace` and namespace aliases, the longest-first
  word-bounded search that blanks out each match, and the tree walk
  `traverse` that splices cppreference links into the highlighted code.
- **fence rules** (`fence_rules.dfy`, `FenceRules`): `addFenceRule`, which
  splits the info string, matches a rule and chains it over the renderer
  installed before it; plus the `io` and `sdsc` rules as example users.
- **sidebar** (`sidebar.dfy`, `Sidebar`): the outline from `sidebar.yml`
  resolved to links and titles, its pre-order flattening, the prev/next
  neighbour map, the page lookup, and the conversion for the default theme.

`wrappers.dfy` (`Option`, `Result`) and `strings.dfy` (JavaScript string
operations: `split`, `join`, `trim`, `indexOf`, global replacement,
`parseInt`, the `\s` and `\w` classes) are shared helpers.

Exceptions the source throws are `Err` values carrying the same message;
the TypeErrors the JavaScript engine raises in the sidebar carry the
placeholder message "TypeError".
Regular expressions are written out as predicates and functions. The calls
into libraries become parameters: the default fence renderer, `escapeHtml`,
`Prism.tokenize`, the JSDOM step of the codemo rule, `JSON.stringify`, and
the headings read from the markdown files.

## Behaviour as written

These follow the code, and in places differ from a plain reading of the
plugins' intent:

- `[ "opt" ]` parses to one `opt` node holding the single raw node `" opt "`.
  The spaces around the string literal merge with its text
  (`SdscParser.ParseOpt`).
- `a | b` parses to four nodes: `placeholder("a ")`, `or`, `raw(" ")` and
  `placeholder("b")`. A placeholder run absorbs the spaces after it, and the
  lone space after `|` becomes a raw node (`SdscParser.ParseAlternation`).
- The code player reduces `\r\n` to `\n` only inside each token. It cuts
  each token's content on its own (`PrismTokens.LinesTextIsReduced`).
- A codemo directive written `codemo  show`, with two spaces, has the empty
  keyword, because the keyword is the second piece of a split at single
  spaces. A directive line ending in `\r` never matches, because `.` does
  not match line terminators.
- Code before an opening `show` directive is hidden. The initial hide flag
  comes from the first directive alone, whatever directives follow
  (`Codemo.FirstDirectiveDecides`, `Codemo.ShowFirst`).
- The autolinker fails with "Unexpected back-traced to root element" on a
  link that starts inside an element and ends after it. Closing that element
  closes the link element too, so no link element is open when the link
  ends (`Relinker.RootErrorExample`).
- The root the autolinker returns is an empty copy of the code element.
  The walk then appends a copy of the code element itself, so the result
  nests the element in a copy of itself (`Relinker.RelinkNoLinks`).
- In the sidebar, a `null` list entry and an object without keys fail with
  a TypeError. A number or boolean entry is skipped. The `text ?? link`
  fallbacks of the theme conversion never apply, because a resolved item
  always has a text.

## Model

| member | source | states |
|---|---|---|
| `SdscParser.StringLiteralLength` | plugins/sdsc/parser.ts:22-23 | a string literal runs from the opening quote to a closing quote; it has at least two characters |
| `SdscParser.NextToken` | plugins/sdsc/parser.ts:20-61 | the chosen token is a non-empty prefix of the source; no rule matches exactly when the source starts with a `"` that opens no complete string literal; a whitespace or placeholder token takes the longest run of its characters |
| `SdscParser.NextTokenWellFormed` | plugins/sdsc/parser.ts:20-61 | each token's text has the shape its kind's pattern demands (quotes around a string, one delimiter character, a whitespace run, a placeholder run) |
| `SdscParser.Tokenize` | plugins/sdsc/parser.ts:63-80 | tokenisation is lossless (the token texts concatenate to the source); every token is well formed; a failure names a remainder of the source starting with an unterminated literal, after "Could not tokenize " |
| `SdscParser.TokenizeGreedy` | plugins/sdsc/parser.ts:63-80 | every token is the one the rules choose at the position where the previous token ended, so no run is cut short |
| `SdscParser.TokenizeWithoutQuote` | plugins/sdsc/parser.ts:53-60 | a source without `"` always tokenises, since whitespace and placeholder runs cover every other character |
| `SdscParser.TokenizeAlternation` | plugins/sdsc/parser.ts:53-60 | whitespace is tried before placeholders, but a placeholder run absorbs following spaces: `a \| b` gives `a `, `\|`, ` `, `b` |
| `SdscParser.TokenizeUnterminated` | plugins/sdsc/parser.ts:77-79 | `"abc` fails with the message naming the untokenisable rest |
| `SdscParser.TokenizeOpt` | plugins/sdsc/parser.ts:19-82 | `[ "opt" ]` gives the five tokens `[`, ` `, `"opt"`, ` `, `]` |
| `SdscParser.PushRaw` | plugins/sdsc/parser.ts:112-122 | text after a raw node extends it, otherwise it starts a new raw node; no two raw nodes become neighbours, and the rendered text grows by exactly the pushed text |
| `SdscParser.LeafStep` | plugins/sdsc/parser.ts:163-183 | a string adds its text without the quotes, whitespace its text; a placeholder token appends one placeholder node with its text and `\|` one `or` node; the rendered text grows by the token's surface text and the list stays free of neighbouring raw nodes |
| `SdscParser.BuildTree` | plugins/sdsc/parser.ts:109-188 | the builder consumes a prefix of the tokens (all of them at the top level); the lists stay free of neighbouring raw nodes; the result renders exactly the consumed tokens |
| `SdscParser.BuildNested` | plugins/sdsc/parser.ts:139-162 | an opener builds its children up to a closer and appends one node; the builder's guarantees (prefix consumed, no neighbouring raw nodes, rendered text) hold for the whole step |
| `SdscParser.BuildLeaf` | plugins/sdsc/parser.ts:163-183 | a leaf token adds to the list and the builder goes on; the builder's guarantees (prefix consumed, no neighbouring raw nodes, rendered text) hold for the whole step |
| `SdscParser.Parse` | plugins/sdsc/parser.ts:190-194 | a parsed tree has no neighbouring raw nodes at any depth and renders as the surface text of the source's tokens; its node kinds, read in document order with raw text per character, are exactly what the tokens stand for: `(`/`[`/`{` open a group/opt/repeat node closed by its delimiter, a placeholder token is a placeholder node, `\|` an `or` node, strings and whitespace raw text |
| `SdscParser.BuildTreeNesting` | plugins/sdsc/parser.ts:123-187 | inside a construct the builder returns exactly when the tokens close it with the right delimiter and the rest is well nested; at the top level it succeeds exactly on well-nested tokens |
| `SdscParser.ParseSucceedsIff` | plugins/sdsc/parser.ts:190-194 | parsing succeeds if and only if tokenisation succeeds and the delimiters are well nested |
| `SdscParser.ParseEmpty` | plugins/sdsc/parser.ts:186 | the empty source gives the empty node list |
| `SdscParser.TopLevelCloserFails` | plugins/sdsc/parser.ts:127-138 | a closer at the top level fails with "Unexpected '…' in group(undefined)" |
| `SdscParser.ParseUnclosed` | plugins/sdsc/parser.ts:186-187 | `(a` runs out of tokens inside the group and fails with "Expected ')', ']' or '}'" |
| `SdscParser.ParseAlternation` | plugins/sdsc/parser.ts:171-183 | `a \| b` gives four nodes, the `\|` a standalone `or` node |
| `SdscParser.ParseOpt` | plugins/sdsc/parser.ts:147-170 | `[ "opt" ]` gives one `opt` node whose single raw child keeps both spaces: `" opt "` |
| `SdscParser.BuildNestedCons` | plugins/sdsc/parser.ts:139-162 | an opener whose children close exactly at the end of the tokens appends one composite node |
| `SdscParser.BuildTreeShape` | plugins/sdsc/parser.ts:123-187 | whatever the builder returns has the node kinds its consumed tokens stand for, in order: at the top level all tokens, inside a construct those before its closer, which is followed by the unconsumed rest |
| `SdscParser.LeafStepShape` | plugins/sdsc/parser.ts:163-183 | a string, whitespace, placeholder or `\|` token adds exactly the node kinds it stands for |
| `SdscParser.PushRawShape` | plugins/sdsc/parser.ts:112-122 | appending raw text adds its characters as raw text, whether it starts a raw node or extends one |
| `CodemoArgs.Range` | plugins/codemo/index.ts:35-37 | the loop from `a` to `b` yields a line exactly when it lies between `a` and `b`, each once, in increasing order |
| `CodemoArgs.FocusParts` | plugins/codemo/index.ts:26-46 | the parts succeed exactly when every part does; the result is the parts' expansions concatenated in order; a failure is the error of the first failing part, all before it succeeding |
| `CodemoArgs.FocusPart` | plugins/codemo/index.ts:27-45 | a part fails only with "invalid focus: " and the part itself, and never yields a negative line |
| `CodemoArgs.RangeLines` | plugins/codemo/index.ts:29-37 | a dashed part fails only with "invalid focus: " and the part, and otherwise yields only numbered lines, none negative |
| `CodemoArgs.FocusRange` | plugins/codemo/index.ts:29-37 | `a-b` with decimal bounds expands to `a..b`, or fails with "invalid focus: a-b" when `b < a` |
| `CodemoArgs.FocusLine` | plugins/codemo/index.ts:38-44 | a decimal line number is kept as it is |
| `CodemoArgs.FocusNegative` | plugins/codemo/index.ts:38-42 | a part with a leading dash is a negative line and fails |
| `CodemoArgs.FocusPartNegative` | plugins/codemo/index.ts:38-42 | any part starting with `-` that reads as a negative number fails with "invalid focus: " and the part |
| `CodemoArgs.UnescapePlain` | plugins/codemo/index.ts:52-59 | text free of `_`, `;` and `\` is not changed by the decoding chain |
| `CodemoArgs.UnescapeSemicolon` | plugins/codemo/index.ts:52-59 | the order of the chain makes `\;` decode to `;` |
| `CodemoArgs.UnescapeUnderscore` | plugins/codemo/index.ts:52-59 | the order of the chain makes `\_` decode to `_` |
| `CodemoArgs.UnescapePlainTail` | plugins/codemo/index.ts:55-59 | the five backslash replacements leave text without backslashes alone |
| `CodemoArgs.ParsePair` | plugins/codemo/index.ts:17 | an entry without `=` is the trimmed key with no value |
| `CodemoArgs.ApplyPairs` | plugins/codemo/index.ts:19-62 | entries with keys other than `focus` and `input` change nothing |
| `CodemoArgs.FocusWithoutValue` | plugins/codemo/index.ts:20-25 | a `focus` entry without a value fails with the missing-argument message |
| `CodemoArgs.LastInputWins` | plugins/codemo/index.ts:47-60 | a final `input` entry decides the input (absent without `=`, decoded otherwise), whatever came before |
| `CodemoArgs.ParseCodemoArgs` | plugins/codemo/index.ts:8-12 | unless a `(` after the first character is followed by a `)`, the result is no focus and the empty input |
| `CodemoArgs.InputOnly` | plugins/codemo/index.ts:8-17 | an attribute `…(input=v)` with a plain value gives no focus and the decoded `v` as input |
| `CodemoArgs.PropStringAllFalsy` | plugins/codemo/index.ts:67-73 | props with only falsy values render as the separating spaces alone |
| `CodemoArgs.PropStringAppend` | plugins/codemo/index.ts:67-73 | one more prop adds one space and its escaped `name="value"` piece (nothing for a falsy value) |
| `Codemo.DirectiveCaptureComplete` | plugins/codemo/index.ts:78 | every line of the form spaces, `//`, spaces, `codemo`, word boundary, rest without line terminators is a directive, capturing `codemo` and the rest |
| `Codemo.DirectiveCaptureSound` | plugins/codemo/index.ts:78 | only lines of that form are directives |
| `Codemo.Keyword` | plugins/codemo/index.ts:85 | a directive has a keyword exactly when its trimmed capture holds a space; the keyword itself holds none |
| `Codemo.KeywordOfWord` | plugins/codemo/index.ts:85 | `codemo` then one space and a word gives that word as keyword |
| `Codemo.Classify` | plugins/codemo/index.ts:81-97 | a line is content exactly when it is not a directive, and content keeps the line |
| `Codemo.ClassifyAll` | plugins/codemo/index.ts:81-97 | each line on its own: code exactly when it is not a directive, code keeping its text, a directive carrying its capture's keyword |
| `Codemo.ClassifyAllCode` | plugins/codemo/index.ts:81-97 | the content entries are exactly the lines that are not directives, in their order |
| `Codemo.InitialHide` | plugins/codemo/index.ts:79-98 | a fence without directives starts visible |
| `Codemo.FirstDirectiveDecides` | plugins/codemo/index.ts:79-98 | when code precedes the first directive, the code starts hidden exactly when that directive is `show`, whatever follows |
| `Codemo.Step` | plugins/codemo/index.ts:103-123 | one entry only extends the lists; `hide` sets the hide flag and `show` clears it, changing nothing else, and no other entry touches the flag; a directive never adds a line; a code line is added to the full code, and to the shown code exactly when code is not hidden |
| `Codemo.RunInvariant` | plugins/codemo/index.ts:103-124 | the full lines are exactly the code lines in order; the shown lines are a subsequence of them; there are as many shown as full focus numbers, each within the lines seen |
| `Codemo.NoHideShowsAll` | plugins/codemo/index.ts:103-124 | with no `hide` directive and code visible from the start, every code line is shown |
| `Codemo.HideSuppresses` | plugins/codemo/index.ts:106-111 | after a `hide` with no later `show`, no further line is shown |
| `Codemo.ShowResumes` | plugins/codemo/index.ts:103-124 | after a `show` anywhere, with no later `hide`, code is visible and every further code line is shown |
| `Codemo.UnknownDirectiveIgnored` | plugins/codemo/index.ts:104-117 | a directive with any other keyword, or none, leaves the loop's result as if it were absent |
| `Codemo.RunExtends` | plugins/codemo/index.ts:103-124 | later entries only extend the shown, full and focus lists |
| `Codemo.FocusNextLine` | plugins/codemo/index.ts:112-115 | `focus-next-line` appends the number of full lines so far to the full focus list and the number of shown lines plus one to the shown focus list |
| `Codemo.FocusNextLineTarget` | plugins/codemo/index.ts:112-123 | the recorded full focus is the 0-based index of the next code line in the full code, and, when it is shown, the shown focus its 1-based number in the shown code |
| `Codemo.HiddenStart` | plugins/codemo/index.ts:103-124 | starting hidden, code before any directive goes to the full code only |
| `Codemo.ShowFirst` | plugins/codemo/index.ts:86 | with `show` as first directive and no later `hide`, the fence starts hidden, the shown code is exactly the code after `show`, and the full code keeps all code |
| `Codemo.Analyse` | plugins/codemo/index.ts:77-124 | the full code is exactly the lines of the trimmed body that are not directives, in order; the shown code is a subsequence of it; the fence counts as pure exactly when no line is a directive |
| `Codemo.RenderCodemo` | plugins/codemo/index.ts:75-151 | the rule succeeds exactly when the arguments parse, the renderer succeeds on the shown code and focus, and, for a fence with directives, the hidden copy of the full code can be added; a bad argument list fails with its error; the html is the page component around the rendering (with the hidden copy when there are directives) followed by the trigger whose props are the language, the full code, the full focus and the input |
| `Codemo.CodemoRegistration` | plugins/codemo/index.ts:159-164 | the rule applies exactly to `c` and `cpp` fences whose attribute starts with `codemo` |
| `Codemo.PureRule` | plugins/codemo/index.ts:75-151 | a fence without directives or argument list renders through the wrapped renderer with the whole trimmed body and empty focus, adds no hidden copy, and passes the language and code as props |
| `Codemo.PureFence` | plugins/codemo/index.ts:80-128 | without directives the renderer gets the trimmed body plus a newline and `lang {}`, and the full code is the trimmed body |
| `Codemo.PureAnalyse` | plugins/codemo/index.ts:80-124 | without directives both line lists are all the lines and both focus lists are empty |
| `Codemo.PureRun` | plugins/codemo/index.ts:103-124 | a run over code lines only shows them all and records no focus |
| `Codemo.PureProps` | plugins/codemo/index.ts:145-150 | with no focus and an empty input, the props are the language and code pieces followed by two spaces |
| `Codemo.TriggerPropsPieces` | plugins/codemo/index.ts:67-73 | the four props are their escaped `name="value"` pieces in order, one space between neighbours, a falsy prop leaving its piece empty |
| `PrismTokens.WrapToken` | plugins/codemo/components/tokenizer.ts:72-99 | a string is a leaf with exactly its parent's types; a token with a list adds its type and then its aliases; the types always begin with the parent's |
| `PrismTokens.WrapTokenSound` | plugins/codemo/components/tokenizer.ts:72-99 | wrapping keeps the text and types only accumulate down every branch |
| `PrismTokens.TokenizeStringsSound` | plugins/codemo/components/tokenizer.ts:65-70 | wrapping a list keeps its text and every node's types begin with the parent's |
| `PrismTokens.TokenizeStrings` | plugins/codemo/components/tokenizer.ts:65-70 | one wrapped node per input node |
| `PrismTokens.FlattenText` | plugins/codemo/components/tokenizer.ts:110-121 | flattening keeps the text, leaves in depth-first order |
| `PrismTokens.FlattenTypes` | plugins/codemo/components/tokenizer.ts:110-121 | every leaf's types begin with the types of the tokens above it |
| `PrismTokens.FlattenedTokens` | plugins/codemo/components/tokenizer.ts:22-24 | Prism's strings, wrapped and flattened, read back as the same text |
| `PrismTokens.AddPieces` | plugins/codemo/components/tokenizer.ts:37-55 | the first piece of a token continues the current line, each further piece opens a new line (an empty piece adding no token), and earlier lines stay as they are |
| `PrismTokens.SplitLines` | plugins/codemo/components/tokenizer.ts:35 | a content splits into one piece more than it has newlines |
| `PrismTokens.SplitLinesJoin` | plugins/codemo/components/tokenizer.ts:14 | the pieces joined by newlines give the content with each `\r\n` written as `\n` |
| `PrismTokens.AddToken` | plugins/codemo/components/tokenizer.ts:35-55 | a token adds one line per newline in its content |
| `PrismTokens.LinesOf` | plugins/codemo/components/tokenizer.ts:26-57 | there is always at least one line |
| `PrismTokens.LineCount` | plugins/codemo/components/tokenizer.ts:34-56 | there is exactly one line more than there are newlines in all token contents |
| `PrismTokens.LinesTextIsReduced` | plugins/codemo/components/tokenizer.ts:34-56 | the lines read back, joined by newlines, as the tokens' text with `\r\n` reduced to `\n` within each token |
| `PrismTokens.LinesArePieces` | plugins/codemo/components/tokenizer.ts:37-55 | line after line, the output tokens are exactly the non-empty pieces of the input tokens, each with the types of the token it was cut from |
| `PrismTokens.NoEmptyTokens` | plugins/codemo/components/tokenizer.ts:38-54 | no line holds a token with empty content |
| `PrismTokens.Tokenize` | plugins/codemo/components/tokenizer.ts:16-20 | the result is the missing-grammar error, carrying the language, exactly when the language has no grammar |
| `PrismTokens.TokenizeText` | plugins/codemo/components/tokenizer.ts:16-58 | when Prism's strings spell the code, the lines spell the code with `\r\n` reduced within tokens |
| `FenceRules.SplitInfo` | plugins/utils.ts:43-44 | the language is the info string up to its first space and the attribute the exact rest after it, or empty without a space |
| `FenceRules.SplitInfoJoin` | plugins/utils.ts:43-44 | language and attribute put back together with a space give the info string |
| `FenceRules.DispatchSkips` | plugins/utils.ts:45-57 | a fence the matcher rejects renders exactly as with the wrapped renderer |
| `FenceRules.DispatchDeclines` | plugins/utils.ts:46-57 | a rule's output is used as it is; a rule that declines hands the token as it changed it to the wrapped renderer; a failing rule fails the rendering |
| `FenceRules.InstallNoneMatch` | plugins/utils.ts:38-58 | when no registered matcher accepts a fence, the chain renders it as the base renderer does |
| `FenceRules.InstallSnoc` | plugins/utils.ts:38-41 | a new registration wraps the chain installed before it |
| `FenceRules.InstallLastMatch` | plugins/utils.ts:38-58 | the latest registration whose matcher accepts a fence handles it first, over the registrations before it |
| `FenceRules.IoRule` | plugins/io-block/index.ts:22-26 | the `io` rule sets the info to `io:no-line-numbers`, keeps the content, and declines |
| `FenceRules.IoDispatch` | plugins/io-block/index.ts:22-26 | an `io` fence renders as the wrapped renderer draws it with the new info; any other fence is left alone |
| `FenceRules.SdscDispatch` | plugins/sdsc/index.ts:7-10 | an `sdsc` fence renders its serialised tree and fails exactly when the description does not parse |
| `LinkMatcher.SourceLines` | plugins/autolinker/index.ts:100 | the lines `^` and `$` delimit hold no line terminator, and text without one is one line |
| `LinkMatcher.UsingTargetIff` | plugins/autolinker/index.ts:100 | a line opens namespace `N` exactly when it is `using namespace N;` with `N` made of word characters and `:` |
| `LinkMatcher.AliasTargetIff` | plugins/autolinker/index.ts:105 | a line declares alias `A` for `B` exactly when it is `namespace A = B;` with `A` a namespace path and `B` non-empty |
| `LinkMatcher.Usings` | plugins/autolinker/index.ts:100 | every opened namespace is a namespace path |
| `LinkMatcher.StripUsingName` | plugins/autolinker/index.ts:101-103 | `using namespace N;` turns the symbol `N::rest` into `rest` |
| `LinkMatcher.ApplyAliasName` | plugins/autolinker/index.ts:106-108 | `namespace A = B;` turns the symbol `B::rest` into `A::rest` |
| `LinkMatcher.StripAll` | plugins/autolinker/index.ts:100-104 | the `using` rewrites keep the link and kind and leave entries that are not symbols alone |
| `LinkMatcher.AliasAll` | plugins/autolinker/index.ts:105-109 | the alias rewrites keep the link and kind and leave entries that are not symbols alone |
| `LinkMatcher.Rewrite` | plugins/autolinker/index.ts:100-109 | after all `using` rewrites, then all alias rewrites, the link and kind are kept and entries that are not symbols are untouched |
| `LinkMatcher.RewriteIndex` | plugins/autolinker/index.ts:99-109 | the rewritten copy of the index has the same entries with the same links and kinds; only symbol names change |
| `LinkMatcher.UsingDeclarationStrips` | plugins/autolinker/index.ts:100-104 | in code holding one `using namespace N;` line, `N::x` is searched as `x` |
| `LinkMatcher.FindFrom` | plugins/autolinker/index.ts:115-117 | every reported position leaves room for the name in the code |
| `LinkMatcher.FindFromSound` | plugins/autolinker/index.ts:115-117 | every reported position is a word-bounded match and each search resumes after the previous match |
| `LinkMatcher.FindFromComplete` | plugins/autolinker/index.ts:115-117 | no match is skipped: each match position is reported or lies inside a reported match |
| `LinkMatcher.FindFromCovering` | plugins/autolinker/index.ts:115-117 | the reported match that covers a given match position can be named |
| `LinkMatcher.Blank` | plugins/autolinker/index.ts:121-124 | blanking keeps the length and replaces exactly the matched characters by spaces |
| `LinkMatcher.RecordOrigin` | plugins/autolinker/index.ts:125-129 | recording only appends spans of the entry being searched |
| `LinkMatcher.MatchEntries` | plugins/autolinker/index.ts:112-131 | the working string keeps the code's length, and every span comes from a searched entry |
| `LinkMatcher.MatchEntriesWidths` | plugins/autolinker/index.ts:119-120 | every span starts no later than it ends |
| `LinkMatcher.FindLinks` | plugins/autolinker/index.ts:139 | the links handed to the walk are sorted by where they begin |
| `LinkMatcher.MatchDisjoint` | plugins/autolinker/index.ts:114-124 | a new match of a good name cannot overlap a span recorded and blanked before |
| `LinkMatcher.AddMatch` | plugins/autolinker/index.ts:119-129 | recording and blanking one more match keeps every span holding its name in the code, bounded by non-word characters, blanked, and apart from the others |
| `LinkMatcher.MatchEntriesInv` | plugins/autolinker/index.ts:112-131 | searching entries longest first keeps that invariant to the end |
| `LinkMatcher.MatchSorted` | plugins/autolinker/index.ts:110-131 | for good names sorted longest first, the spans found hold their names in the code and do not overlap |
| `LinkMatcher.LongestFirst` | plugins/autolinker/index.ts:110 | the sorted index lists longer names before shorter ones |
| `LinkMatcher.FindLinksSound` | plugins/autolinker/index.ts:97-139 | for good names, the links come in order without overlap, and each covers in the code the rewritten name of an index entry with that link |
| `LinkMatcher.FindLinksWidths` | plugins/autolinker/index.ts:119-139 | whatever the index holds, every link starts no later than it ends |
| `LinkMatcher.SortKeepsApart` | plugins/autolinker/index.ts:139 | sorting links that do not overlap by their start puts each before the next |
| `StableSort.SortBySorted` | plugins/autolinker/index.ts:110 | the sort orders by key |
| `StableSort.SortByStable` | plugins/autolinker/index.ts:110 | elements with equal keys keep their relative order, so names of equal length keep their index order |
| `StableSort.SortByPermutes` | plugins/autolinker/index.ts:139 | the sort only reorders |
| `StableSort.SortByPairwise` | plugins/autolinker/index.ts:139 | a relation between all distinct elements of the input holds between all distinct elements of the output |
| `Relinker.LinkTag` | plugins/autolinker/index.ts:63-65 | a link element points to the cppreference page and opens in a new tab |
| `Relinker.Append` | plugins/autolinker/index.ts:31 | appending to the current parent adds the node's text at the end of the document |
| `Relinker.Push` | plugins/autolinker/index.ts:83-87 | a new element becomes the current parent, and the document text grows by its children's text |
| `Relinker.Pop` | plugins/autolinker/index.ts:91 | moving to the parent finishes the innermost element and keeps the document text |
| `Relinker.LastAnchor` | plugins/autolinker/index.ts:39 | the innermost open link element, if any, has no link element inside it |
| `Relinker.CloseTo` | plugins/autolinker/index.ts:39-46 | finishing elements keeps the document text and leaves the outer open elements |
| `Relinker.Reopen` | plugins/autolinker/index.ts:48-54 | empty copies of the closed elements are reopened, outermost first, keeping the document text |
| `Relinker.Climb` | plugins/autolinker/index.ts:38-54 | the end of a link succeeds exactly when a link element is open: it finishes that element and reopens copies of the elements inside it; otherwise it fails with the root error |
| `Relinker.ClimbNonA` | plugins/autolinker/index.ts:38-54 | climbing keeps the number of open elements that are not links |
| `Relinker.EndLink` | plugins/autolinker/index.ts:36-55 | ending a link in a text node appends the text up to the end, drops the link and moves the index to its end, or fails with the root error |
| `Relinker.CopyBefore` | plugins/autolinker/index.ts:58-61 | the text before the link is appended when there is any |
| `Relinker.OpenLink` | plugins/autolinker/index.ts:58-73 | a link starting in this node appends the text up to its end (or the node's), and drops the link when it ends in the node |
| `Relinker.PlaceLink` | plugins/autolinker/index.ts:67-72 | the link element becomes the parent while the link runs on, otherwise the link is dropped |
| `Relinker.TextStep` | plugins/autolinker/index.ts:30-74 | one visit of a text node appends exactly the part of it up to the link's end, moves the index by that much, and drops the link when it ends there |
| `Relinker.TraverseText` | plugins/autolinker/index.ts:25-78 | a completed visit of a text node appends exactly its text |
| `Relinker.TraverseNode` | plugins/autolinker/index.ts:21-95 | a completed walk of any node appends exactly its text, in document order |
| `Relinker.TraverseNodes` | plugins/autolinker/index.ts:88-90 | the children are walked in order, appending exactly their text |
| `Relinker.CloseAll` | plugins/autolinker/index.ts:132-142 | finishing every open element keeps the document text |
| `Relinker.Relink` | plugins/autolinker/index.ts:132-142 | a completed walk under a copy of the code element keeps the code's text |
| `Relinker.AddLink` | plugins/autolinker/index.ts:97-143 | linking the code keeps the element's text |
| `Relinker.NoLinksNode` | plugins/autolinker/index.ts:22-31 | with no links, a node is accepted exactly when it holds no `<a>` and only elements and text, and is then copied as it is |
| `Relinker.NoLinksNodes` | plugins/autolinker/index.ts:88-90 | with no links, children are accepted exactly when all are, and are copied in order |
| `Relinker.RelinkNoLinks` | plugins/autolinker/index.ts:132-142 | with no links, the result is the root copy holding a deep copy of the code element, and fails exactly on an `<a>` or another node kind |
| `Relinker.TextStepSched` | plugins/autolinker/index.ts:74 | one step moves the index forward by what it consumed, and the remaining links stay ahead of it |
| `Relinker.IndexText` | plugins/autolinker/index.ts:74-78 | a completed visit of a text node moves the index by exactly the node's length |
| `Relinker.IndexNode` | plugins/autolinker/index.ts:21-95 | a completed walk of a node moves the index by exactly the length of its text |
| `Relinker.IndexNodes` | plugins/autolinker/index.ts:88-90 | a completed walk of the children moves the index by exactly the length of their text |
| `Relinker.AddLinkIndex` | plugins/autolinker/index.ts:136-141 | for good names, a completed walk of the code element ends with the index at the end of its text |
| `Relinker.TextBeforeLinks` | plugins/autolinker/index.ts:30-31 | text that ends before the next link starts is copied as it is |
| `Relinker.LinkInText` | plugins/autolinker/index.ts:57-78 | a link lying inside one text node becomes one link element holding exactly the linked text, between the unchanged text before and after it |
| `Relinker.LinkBeforeEnd` | plugins/autolinker/index.ts:74-78 | after a link ends inside a node, the rest of the node is copied as one text node |
| `Relinker.RootErrorExample` | plugins/autolinker/index.ts:39-45 | a link that starts in an element and ends after it fails with the root error |
| `Relinker.ClimbExample` | plugins/autolinker/index.ts:36-55 | a link that ends inside an element finishes the link element holding the element's first part, and reopens an empty copy of the element after it |
| `Sidebar.FilePath` | plugins/sidebar/index.ts:61-67 | a `.md` link is its own file, a `/` link its `README.md`, and no other link has a file |
| `Sidebar.Title` | plugins/sidebar/index.ts:59-71 | a title exists exactly for links ending in `.md` or `/` whose file can be read; other links fail with "Invalid link: ", an unreadable file with the reader's error; without a heading the title is the link |
| `Sidebar.TransformItem` | plugins/sidebar/index.ts:75-97 | only a bare link has no children key; exactly the numbers and booleans are skipped |
| `Sidebar.TransformList` | plugins/sidebar/index.ts:73-100 | never more items than entries |
| `Sidebar.TransformItemOk` | plugins/sidebar/index.ts:75-97 | an entry resolves exactly when it is valid: every title link valid with a readable file, no `null`, every object without `link` having a first key with a list value; the headings found in the files never make it fail |
| `Sidebar.TransformListOk` | plugins/sidebar/index.ts:73-100 | a list resolves exactly when all its entries are valid, title files readable |
| `Sidebar.TransformListLinks` | plugins/sidebar/index.ts:73-100 | the resolved links are the links of the kept entries, in order |
| `Sidebar.TransformItemLink` | plugins/sidebar/index.ts:75-97 | an entry is kept exactly when it has a link, and keeps that link |
| `Sidebar.TransformItemShape` | plugins/sidebar/index.ts:76-96 | a given text is kept and no file consulted; otherwise the title is the file's heading or the link; an object's children are resolved in turn |
| `Sidebar.Flatten` | plugins/sidebar/index.ts:103-112 | the flat list is the links in pre-order: each item, everything below it, then its later siblings |
| `Sidebar.PreOrderSnoc` | plugins/sidebar/index.ts:105-110 | one more sibling adds its link and everything below it at the end |
| `Sidebar.PrevNextUpTo` | plugins/sidebar/index.ts:114-119 | after each round, the map has exactly the links seen so far |
| `Sidebar.PrevNext` | plugins/sidebar/index.ts:113-119 | the map has exactly the links of the flat list |
| `Sidebar.LastWinsUpTo` | plugins/sidebar/index.ts:114-119 | a link's entry is written at its last position so far |
| `Sidebar.LastWins` | plugins/sidebar/index.ts:114-119 | with repeated links, the last occurrence's neighbours win |
| `Sidebar.DistinctNeighbours` | plugins/sidebar/index.ts:114-119 | without repeats, each page gets the pages just before and after it; the first has no previous page and the last no next |
| `Sidebar.PageKey` | plugins/sidebar/index.ts:135 | a path not ending in `.html` is looked up as it is |
| `Sidebar.PageKeyOfMarkdown` | plugins/sidebar/index.ts:135 | the `.html` page of a `.md` link is looked up under that link |
| `Sidebar.FrontMatter` | plugins/sidebar/index.ts:134-139 | a known page gets its map entry, and an unknown page neither neighbour |
| `Sidebar.FrontMatterOfPage` | plugins/sidebar/index.ts:134-139 | the page rendered from a `.md` file of the outline gets the neighbours of that file's last occurrence |
| `Sidebar.ToTheme` | plugins/sidebar/index.ts:34-41 | a theme group keeps the item's link and text and is not collapsible |
| `Sidebar.ToThemes` | plugins/sidebar/index.ts:39 | one group per item |
| `Sidebar.ForVueDefaultTheme` | plugins/sidebar/index.ts:143-154 | one collapsible group per top-level item, with its link and text |
| `Sidebar.ToThemeBelow` | plugins/sidebar/index.ts:34-41 | the groups below an item hold the links below it in pre-order, none collapsible |
| `Sidebar.ToThemesLinks` | plugins/sidebar/index.ts:39 | the groups of a list hold its links in pre-order, none collapsible |
| `Sidebar.ForVueDefaultThemeOutline` | plugins/sidebar/index.ts:143-154 | the theme's groups hold the outline's links in pre-order, collapsible exactly at the top level |
| `Sidebar.Load` | plugins/sidebar/index.ts:48-57 | loading succeeds exactly on a valid outline whose title files can be read; the resolved links are those of the kept entries, and the neighbour map has exactly the outline's links |

## Left out

- File reading and YAML parsing in the sidebar constructor (`plugins/sidebar/index.ts:50-54`). The model starts from the parsed outline as a datatype. Reading a page's markdown file (line 68) and finding its heading, with the `<Badge>` rewriting (lines 69-70), are the parameter `heading`: it gives an `Err` where the read throws, and otherwise the heading or `None`.
- The `sourceDir` check of `onInitialized` (`plugins/sidebar/index.ts:125-133`) compares resolved file-system paths and is not modelled.
- The JSDOM step of the codemo rule (`plugins/codemo/index.ts:131-143`) is the parameter `addHiddenCopy` of `Codemo.CodemoRule`, which may fail as the missing `<pre>` does. `escapeHtml` is the parameter `escape`.
- The autolinker's fence rule (`plugins/autolinker/index.ts:154-162`) parses and serialises HTML with JSDOM and is not modelled. Its parser's line-ending normalisation is not modelled either. The tree it hands to `addLink` is the `DomNode` datatype.
- The deep copy of the symbol index (`plugins/autolinker/index.ts:99`) is implicit: Dafny values are immutable, so the rewrites cannot touch the shared index.
- `Prism.tokenize` is the parameter `prismTokenize` of `PrismTokens.Tokenize`. `JSON.stringify` is the parameter `stringify` of `FenceRules.SdscRule`.
- `parseInt` returning `NaN` is `None`. The `Infinity` of a missing first link is the absence of a link. Integers are unbounded; the source never comes near the limits of JavaScript numbers.
- Plugin registration objects, client configuration files and Vue components are not part of this model.
- Positions and lengths are counted in Dafny characters (Unicode scalar values), not in the UTF-16 code units JavaScript counts. The autolinker's `begin`/`end`, `currentIndex` and `substring` offsets therefore agree with the source only for text without characters outside the Basic Multilingual Plane.
- `LinkMatcher.FindLinksSound` requires every rewritten name to be non-empty and not to start or end with a space. Other names can overlap a blanked span, and the links need not then be ordered or disjoint.
- `Relinker.AddLinkIndex` has the same requirement on names, so that the links form a schedule the walk can follow.
- `Relinker.TraverseText`, `Relinker.TraverseNode` and `Relinker.TraverseNodes` require every pending link to start no later than it ends. `LinkMatcher.FindLinksWidths` proves this of the links the matcher produces.
- `Relinker.Relink` and `Relinker.AddLink` require the code to be an element. The source passes the `code` element it found.
- `Sidebar.TransformItem` works over YAML values as a datatype. A string-keyed object entry that is neither a list nor `null` is not represented.
- `Codemo.PureRule` covers fences without directives or argument list only. Fences with directives go through `addHiddenCopy`, which is left open.
