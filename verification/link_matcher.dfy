/** The search half of the autolinker: rewrite the names of the symbol
    index after the `using namespace` and namespace-alias declarations of
    the code, then find the names in the code, longest first, each match
    bounded by non-word characters and blanked out so that no shorter name
    can match inside it. The result is the list of linked spans ordered by
    position. */
module LinkMatcher {
  import opened Wrappers
  import opened Strings
  import StableSort

  /** One entry of the symbol index: the name to look for, the page it
      links to, and its kind (only `symbol` entries are rewritten). */
  datatype IndexEntry = IndexEntry(name: string, link: string, kind: string)

  /** A linked span `[begin, end)` of the code. */
  datatype LinkEntry = LinkEntry(begin: nat, end: nat, link: string)

  const SymbolKind := "symbol"

  // ---------------------------------------------------------------------
  // Lines as seen by `^` and `$` in multi-line mode

  predicate NotLineTerminator(c: char) {
    !IsLineTerminator(c)
  }

  /** The code cut at every line terminator. */
  function SourceLines(s: string): (r: seq<string>)
    ensures |r| >= 1
    ensures forall i, k :: 0 <= i < |r| && 0 <= k < |r[i]| ==> !IsLineTerminator(r[i][k])
    ensures (forall k :: 0 <= k < |s| ==> !IsLineTerminator(s[k])) ==> r == [s]
    decreases |s|
  {
    var n := RunLength(s, NotLineTerminator);
    if n == |s| then [s] else [s[..n]] + SourceLines(s[n + 1..])
  }

  /** The `[\w:]` class of a namespace path. */
  predicate IsPathChar(c: char) {
    IsWordChar(c) || c == ':'
  }

  predicate IsPath(s: string) {
    |s| > 0 && forall k :: 0 <= k < |s| ==> IsPathChar(s[k])
  }

  const UsingPrefix := "using namespace "
  const AliasPrefix := "namespace "
  const AliasEquals := " = "

  /** The namespace a line `using namespace N;` opens. */
  function UsingTarget(line: string): Option<string> {
    if |line| > |UsingPrefix| + 1 && StartsWith(line, UsingPrefix) && line[|line| - 1] == ';'
       && IsPath(line[|UsingPrefix|..|line| - 1])
    then Some(line[|UsingPrefix|..|line| - 1])
    else None
  }

  /** A line matches the `using` pattern exactly when it is the prefix, a
      namespace path and a semicolon. */
  lemma UsingTargetIff(line: string, ns: string)
    ensures UsingTarget(line) == Some(ns) <==> line == UsingPrefix + ns + ";" && IsPath(ns)
  {
    if line == UsingPrefix + ns + ";" && IsPath(ns) {
      assert line[|UsingPrefix|..|line| - 1] == ns;
    }
    if UsingTarget(line) == Some(ns) {
      assert line == line[..|UsingPrefix|] + line[|UsingPrefix|..|line| - 1] + [line[|line| - 1]];
    }
  }

  /** The alias and the aliased namespace of a line `namespace A = B;`:
      `A` is the longest run of path characters after the keyword, `B` is
      everything between ` = ` and the final semicolon. */
  function AliasTarget(line: string): Option<(string, string)> {
    if !StartsWith(line, AliasPrefix) then None
    else
      var rest := line[|AliasPrefix|..];
      var n := RunLength(rest, IsPathChar);
      if n > 0 && |rest| >= n + |AliasEquals| + 2 && rest[n..n + |AliasEquals|] == AliasEquals
         && rest[|rest| - 1] == ';'
      then Some((rest[..n], rest[n + |AliasEquals|..|rest| - 1]))
      else None
  }

  lemma AliasTargetOf(alias: string, target: string)
    requires IsPath(alias) && |target| > 0
    ensures AliasTarget(AliasPrefix + alias + AliasEquals + target + ";") == Some((alias, target))
  {
    var line := AliasPrefix + alias + AliasEquals + target + ";";
    var rest := line[|AliasPrefix|..];
    assert rest == alias + (AliasEquals + (target + ";"));
    assert rest[|alias|] == ' ';
    RunLengthExact(rest, IsPathChar, |alias|);
    assert rest[..|alias|] == alias;
    assert rest[|alias|..|alias| + |AliasEquals|] == AliasEquals;
    assert rest[|alias| + |AliasEquals|..|rest| - 1] == target;
  }

  lemma AliasTargetShape(line: string)
    requires AliasTarget(line).Some?
    ensures var (alias, target) := AliasTarget(line).value;
            line == AliasPrefix + alias + AliasEquals + target + ";" && IsPath(alias) && |target| > 0
  {
    var rest := line[|AliasPrefix|..];
    var n := RunLength(rest, IsPathChar);
    assert line == AliasPrefix + rest;
    AliasPieces(rest, n);
    Reassemble(line, AliasPrefix, rest[..n], AliasEquals, rest[n + |AliasEquals|..|rest| - 1]);
  }

  /** The text after the keyword, cut at the end of the alias and at the
      ` = ` that follows it. */
  lemma AliasPieces(rest: string, n: nat)
    requires |rest| >= n + |AliasEquals| + 2 && rest[n..n + |AliasEquals|] == AliasEquals && rest[|rest| - 1] == ';'
    ensures rest == rest[..n] + (AliasEquals + (rest[n + |AliasEquals|..|rest| - 1] + ";"))
  {
    assert [rest[|rest| - 1]] == ";";
    assert rest == rest[..n] + (rest[n..n + |AliasEquals|] + (rest[n + |AliasEquals|..|rest| - 1] + [rest[|rest| - 1]]));
  }

  lemma Reassemble(line: string, p: string, alias: string, eq: string, target: string)
    requires line == p + (alias + (eq + (target + ";")))
    ensures line == p + alias + eq + target + ";"
  {
  }

  /** The alias pattern matches exactly the lines `namespace A = B;` with
      `A` a path and `B` non-empty. */
  lemma AliasTargetIff(line: string, alias: string, target: string)
    ensures AliasTarget(line) == Some((alias, target))
        <==> line == AliasPrefix + alias + AliasEquals + target + ";" && IsPath(alias) && |target| > 0
  {
    if line == AliasPrefix + alias + AliasEquals + target + ";" && IsPath(alias) && |target| > 0 {
      AliasTargetOf(alias, target);
    }
    if AliasTarget(line) == Some((alias, target)) {
      AliasTargetShape(line);
    }
  }

  /** The namespaces opened by the code, in order. */
  function Usings(lines: seq<string>): (r: seq<string>)
    ensures forall i :: 0 <= i < |r| ==> IsPath(r[i])
  {
    if |lines| == 0 then []
    else
      var rest := Usings(lines[1..]);
      match UsingTarget(lines[0])
      case Some(ns) => [ns] + rest
      case None => rest
  }

  /** The (alias, namespace) pairs declared by the code, in order. */
  function Aliases(lines: seq<string>): seq<(string, string)> {
    if |lines| == 0 then []
    else
      var rest := Aliases(lines[1..]);
      match AliasTarget(lines[0])
      case Some(p) => [p] + rest
      case None => rest
  }

  // ---------------------------------------------------------------------
  // Rewriting the index

  /** `using namespace N;` lets `N::x` be written `x`. */
  function StripUsing(e: IndexEntry, ns: string): IndexEntry {
    if e.kind == SymbolKind && StartsWith(e.name, ns + "::") then e.(name := e.name[|ns| + 2..]) else e
  }

  /** `namespace A = B;` lets `B::x` be written `A::x`. */
  function ApplyAlias(e: IndexEntry, alias: string, target: string): IndexEntry {
    if e.kind == SymbolKind && StartsWith(e.name, target + "::") then e.(name := alias + e.name[|target|..]) else e
  }

  lemma StripUsingName(e: IndexEntry, ns: string, rest: string)
    requires e.kind == SymbolKind && e.name == ns + "::" + rest
    ensures StripUsing(e, ns) == e.(name := rest)
  {
    assert e.name[..|ns| + 2] == ns + "::";
  }

  lemma ApplyAliasName(e: IndexEntry, alias: string, target: string, rest: string)
    requires e.kind == SymbolKind && e.name == target + "::" + rest
    ensures ApplyAlias(e, alias, target) == e.(name := alias + "::" + rest)
  {
    assert e.name[..|target| + 2] == target + "::";
    assert e.name[|target|..] == "::" + rest;
  }

  function StripAll(e: IndexEntry, usings: seq<string>): (r: IndexEntry)
    ensures r.link == e.link && r.kind == e.kind
    ensures e.kind != SymbolKind ==> r == e
    decreases |usings|
  {
    if |usings| == 0 then e else StripAll(StripUsing(e, usings[0]), usings[1..])
  }

  function AliasAll(e: IndexEntry, aliases: seq<(string, string)>): (r: IndexEntry)
    ensures r.link == e.link && r.kind == e.kind
    ensures e.kind != SymbolKind ==> r == e
    decreases |aliases|
  {
    if |aliases| == 0 then e else AliasAll(ApplyAlias(e, aliases[0].0, aliases[0].1), aliases[1..])
  }

  /** Every `using` rewrite runs before every alias rewrite. */
  function Rewrite(code: string, e: IndexEntry): (r: IndexEntry)
    ensures r.link == e.link && r.kind == e.kind
    ensures e.kind != SymbolKind ==> r == e
  {
    var lines := SourceLines(code);
    AliasAll(StripAll(e, Usings(lines)), Aliases(lines))
  }

  /** The rewritten copy of the index: same entries, same links and kinds,
      only symbol names changed. */
  function RewriteIndex(code: string, index: seq<IndexEntry>): (r: seq<IndexEntry>)
    ensures |r| == |index|
    ensures forall i :: 0 <= i < |r| ==> r[i].link == index[i].link && r[i].kind == index[i].kind
    ensures forall i :: 0 <= i < |r| && index[i].kind != SymbolKind ==> r[i] == index[i]
  {
    seq(|index|, i requires 0 <= i < |index| => Rewrite(code, index[i]))
  }

  lemma UsingLine(ns: string)
    requires IsPath(ns)
    ensures var code := UsingPrefix + ns + ";";
            SourceLines(code) == [code] && Usings([code]) == [ns] && Aliases([code]) == []
  {
    var code := UsingPrefix + ns + ";";
    forall k | 0 <= k < |code| ensures !IsLineTerminator(code[k]) {
      if k >= |UsingPrefix| && k < |code| - 1 {
        assert code[k] == ns[k - |UsingPrefix|];
      }
    }
    UsingTargetIff(code, ns);
    assert code[..|AliasPrefix|] != AliasPrefix by {
      assert code[0] == 'u';
    }
  }

  /** A code consisting of one `using namespace N;` line lets `N::x` match
      as `x`. */
  lemma UsingDeclarationStrips(ns: string, e: IndexEntry, rest: string)
    requires IsPath(ns)
    requires e.kind == SymbolKind && e.name == ns + "::" + rest
    ensures Rewrite(UsingPrefix + ns + ";", e).name == rest
  {
    var code := UsingPrefix + ns + ";";
    UsingLine(ns);
    StripUsingName(e, ns, rest);
    assert StripAll(e, [ns]) == StripAll(StripUsing(e, ns), []);
  }

  // ---------------------------------------------------------------------
  // Finding the names

  /** `(?<!\w)name(?!\w)` matches `w` at `p`. */
  predicate MatchAt(w: string, name: string, p: nat) {
    p + |name| <= |w| && w[p..p + |name|] == name
    && (p == 0 || !IsWordChar(w[p - 1]))
    && (p + |name| == |w| || !IsWordChar(w[p + |name|]))
  }

  /** How far a global search moves after a match of length `n`. */
  function Advance(n: nat): nat {
    if n == 0 then 1 else n
  }

  /** The match positions a global `matchAll` reports from `from` on: each
      search resumes where the previous match ended. */
  function FindFrom(w: string, name: string, from: nat): (r: seq<nat>)
    ensures Fits(r, |name|, |w|)
    decreases |w| + 1 - from
  {
    if from > |w| then []
    else if MatchAt(w, name, from) then
      var rest := FindFrom(w, name, from + Advance(|name|));
      assert ([from] + rest)[1..] == rest;
      [from] + rest
    else FindFrom(w, name, from + 1)
  }

  /** Each position leaves room for `n` characters in a string of length
      `len`. */
  predicate Fits(ps: seq<nat>, n: nat, len: nat)
    decreases |ps|
  {
    |ps| == 0 || (ps[0] + n <= len && Fits(ps[1..], n, len))
  }

  /** `ps` lists matches of `name` in `w`, the first at or after `bound`
      and each later one at least `Advance(|name|)` past the one before. */
  predicate Positions(w: string, name: string, ps: seq<nat>, bound: nat)
    decreases |ps|
  {
    |ps| == 0 || (bound <= ps[0] && MatchAt(w, name, ps[0]) && Positions(w, name, ps[1..], ps[0] + Advance(|name|)))
  }

  /** Every reported position is a match, and each search resumes past the
      previous match. */
  lemma {:induction false} FindFromSound(w: string, name: string, from: nat)
    ensures Positions(w, name, FindFrom(w, name, from), from)
    decreases |w| + 1 - from
  {
    if from <= |w| {
      if MatchAt(w, name, from) {
        FindFromSound(w, name, from + Advance(|name|));
        FindFromHit(w, name, from);
        PositionsCons(w, name, from, FindFrom(w, name, from + Advance(|name|)), FindFrom(w, name, from));
      } else {
        FindFromSound(w, name, from + 1);
        FindFromMiss(w, name, from);
        PositionsLower(w, name, FindFrom(w, name, from), from + 1, from);
      }
    }
  }

  lemma PositionsCons(w: string, name: string, p: nat, rest: seq<nat>, r: seq<nat>)
    requires r == [p] + rest && MatchAt(w, name, p)
    requires Positions(w, name, rest, p + Advance(|name|))
    ensures Positions(w, name, r, p)
  {
    assert r[0] == p && r[1..] == rest;
  }

  lemma PositionsLower(w: string, name: string, ps: seq<nat>, bound: nat, lower: nat)
    requires Positions(w, name, ps, bound) && lower <= bound
    ensures Positions(w, name, ps, lower)
  {
  }

  lemma FindFromHit(w: string, name: string, from: nat)
    requires from <= |w| && MatchAt(w, name, from)
    ensures FindFrom(w, name, from) == [from] + FindFrom(w, name, from + Advance(|name|))
  {
  }

  lemma FindFromMiss(w: string, name: string, from: nat)
    requires from <= |w| && !MatchAt(w, name, from)
    ensures FindFrom(w, name, from) == FindFrom(w, name, from + 1)
  {
  }

  /** No match is skipped: every position where the name matches is
      reported, or lies within the advance of a reported match. */
  lemma {:induction false} FindFromComplete(w: string, name: string, from: nat, q: nat)
    requires from <= q && MatchAt(w, name, q)
    ensures exists i :: 0 <= i < |FindFrom(w, name, from)|
              && FindFrom(w, name, from)[i] <= q < FindFrom(w, name, from)[i] + Advance(|name|)
  {
    var i := FindFromCovering(w, name, from, q);
  }

  /** `q` lies within the advance of the match reported at index `i`. */
  predicate CoversAt(r: seq<nat>, i: nat, q: nat, a: nat) {
    i < |r| && r[i] <= q < r[i] + a
  }

  lemma CoverAfterHit(w: string, name: string, from: nat, q: nat, j: nat) returns (i: nat)
    requires from <= |w| && MatchAt(w, name, from)
    requires CoversAt(FindFrom(w, name, from + Advance(|name|)), j, q, Advance(|name|))
    ensures CoversAt(FindFrom(w, name, from), i, q, Advance(|name|))
  {
    var rest := FindFrom(w, name, from + Advance(|name|));
    assert FindFrom(w, name, from) == [from] + rest;
    i := j + 1;
  }

  lemma CoverAfterMiss(w: string, name: string, from: nat, q: nat, j: nat) returns (i: nat)
    requires from <= |w| && !MatchAt(w, name, from)
    requires CoversAt(FindFrom(w, name, from + 1), j, q, Advance(|name|))
    ensures CoversAt(FindFrom(w, name, from), i, q, Advance(|name|))
  {
    assert FindFrom(w, name, from) == FindFrom(w, name, from + 1);
    i := j;
  }

  lemma CoverAtHit(w: string, name: string, from: nat, q: nat) returns (i: nat)
    requires from <= q < from + Advance(|name|) && from <= |w| && MatchAt(w, name, from)
    ensures CoversAt(FindFrom(w, name, from), i, q, Advance(|name|))
  {
    i := 0;
  }

  /** The position, in the list `FindFrom` reports, of the match covering
      `q`. */
  lemma {:induction false} FindFromCovering(w: string, name: string, from: nat, q: nat) returns (i: nat)
    requires from <= q && MatchAt(w, name, q)
    ensures CoversAt(FindFrom(w, name, from), i, q, Advance(|name|))
    decreases |w| + 1 - from
  {
    assert from <= |w|;
    if MatchAt(w, name, from) {
      if q < from + Advance(|name|) {
        i := CoverAtHit(w, name, from, q);
      } else {
        var j := FindFromCovering(w, name, from + Advance(|name|), q);
        i := CoverAfterHit(w, name, from, q, j);
      }
    } else {
      var j := FindFromCovering(w, name, from + 1, q);
      i := CoverAfterMiss(w, name, from, q, j);
    }
  }

  /** `w` with `n` characters from `p` replaced by spaces. */
  function Blank(w: string, p: nat, n: nat): (r: string)
    requires p + n <= |w|
    ensures |r| == |w|
    ensures forall k :: 0 <= k < |w| ==> r[k] == if p <= k < p + n then ' ' else w[k]
  {
    w[..p] + Spaces(n) + w[p + n..]
  }

  /** A recorded match: its span and the index entry it matched. */
  datatype Span = Span(begin: nat, end: nat, entry: IndexEntry)

  /** The spans recorded so far, `acc`, followed by one for each match of
      `e` at positions `ps`, in order (`links.push`). */
  function Record(acc: seq<Span>, e: IndexEntry, ps: seq<nat>): seq<Span>
    decreases |ps|
  {
    if |ps| == 0 then acc else Record(acc + [Span(ps[0], ps[0] + |e.name|, e)], e, ps[1..])
  }

  /** Recording only appends spans of `e`. */
  lemma {:induction false} RecordOrigin(acc: seq<Span>, e: IndexEntry, ps: seq<nat>)
    ensures forall i :: 0 <= i < |Record(acc, e, ps)| ==> Record(acc, e, ps)[i] in acc || Record(acc, e, ps)[i].entry == e
    decreases |ps|
  {
    if |ps| > 0 {
      var acc1 := acc + [Span(ps[0], ps[0] + |e.name|, e)];
      RecordOrigin(acc1, e, ps[1..]);
      forall i | 0 <= i < |Record(acc, e, ps)|
        ensures Record(acc, e, ps)[i] in acc || Record(acc, e, ps)[i].entry == e
      {
        var x := Record(acc, e, ps)[i];
        if x in acc1 {
          var j :| 0 <= j < |acc1| && acc1[j] == x;
          if j == |acc| {
            assert x.entry == e;
          } else {
            assert x == acc[j];
          }
        }
      }
    }
  }

  /** Blank `n` characters at each of the positions `ps`, in order. */
  function BlankAll(w: string, ps: seq<nat>, n: nat): (r: string)
    requires Fits(ps, n, |w|)
    ensures |r| == |w|
    decreases |ps|
  {
    if |ps| == 0 then w else BlankAll(Blank(w, ps[0], n), ps[1..], n)
  }

  /** Search each entry in turn on the code as blanked by the entries
      before it, appending to the spans recorded so far; the positions of
      one entry are found on the code as it was when its search began. */
  function MatchEntries(w: string, es: seq<IndexEntry>, acc: seq<Span>): (r: (seq<Span>, string))
    ensures |r.1| == |w|
    ensures forall i :: 0 <= i < |r.0| ==> r.0[i] in acc || r.0[i].entry in es
    decreases |es|
  {
    if |es| == 0 then (acc, w)
    else
      var ps := FindFrom(w, es[0].name, 0);
      var r := MatchEntries(BlankAll(w, ps, |es[0].name|), es[1..], Record(acc, es[0], ps));
      RecordOrigin(acc, es[0], ps);
      assert forall i :: 0 <= i < |r.0| ==> r.0[i] in acc || r.0[i].entry in es;
      r
  }

  /** Every span starts no later than it ends. */
  predicate Widths(spans: seq<Span>) {
    forall i :: 0 <= i < |spans| ==> spans[i].begin <= spans[i].end
  }

  lemma {:induction false} RecordWidths(acc: seq<Span>, e: IndexEntry, ps: seq<nat>)
    requires Widths(acc)
    ensures Widths(Record(acc, e, ps))
    decreases |ps|
  {
    if |ps| > 0 {
      RecordWidths(acc + [Span(ps[0], ps[0] + |e.name|, e)], e, ps[1..]);
    }
  }

  lemma {:induction false} MatchEntriesWidths(w: string, es: seq<IndexEntry>, acc: seq<Span>)
    requires Widths(acc)
    ensures Widths(MatchEntries(w, es, acc).0)
    decreases |es|
  {
    if |es| > 0 {
      var ps := FindFrom(w, es[0].name, 0);
      RecordWidths(acc, es[0], ps);
      MatchEntriesWidths(BlankAll(w, ps, |es[0].name|), es[1..], Record(acc, es[0], ps));
    }
  }

  function NameKey(e: IndexEntry): int {
    -|e.name|
  }

  function BeginKey(l: LinkEntry): int {
    l.begin
  }

  function LinkOf(s: Span): LinkEntry {
    LinkEntry(s.begin, s.end, s.entry.link)
  }

  /** The links `addLink` hands to the tree walk: the rewritten index sorted
      longest name first, matched in that order, then sorted by start. */
  function FindLinks(code: string, index: seq<IndexEntry>): (r: seq<LinkEntry>)
    ensures StableSort.SortedBy(r, BeginKey)
  {
    var links := UnorderedLinks(code, index);
    StableSort.SortBySorted(links, BeginKey);
    StableSort.SortBy(links, BeginKey)
  }

  // ---------------------------------------------------------------------
  // Why the spans are sound and disjoint

  /** A name that can be matched and never overlaps a blanked span: it is
      not empty and neither begins nor ends with a space. */
  predicate GoodName(name: string) {
    |name| > 0 && name[0] != ' ' && name[|name| - 1] != ' '
  }

  predicate Disjoint(a: Span, b: Span) {
    a.end <= b.begin || b.end <= a.begin
  }

  /** The span holds its entry's name in the original code. */
  predicate SpanOk(code: string, s: Span) {
    s.begin + |s.entry.name| == s.end <= |code| && code[s.begin..s.end] == s.entry.name
  }

  predicate Blanked(w: string, s: Span) {
    forall k :: s.begin <= k < s.end && k < |w| ==> w[k] == ' '
  }

  predicate Bounded(w: string, s: Span)
    requires s.begin <= s.end <= |w|
  {
    (s.begin == 0 || !IsWordChar(w[s.begin - 1])) && (s.end == |w| || !IsWordChar(w[s.end]))
  }

  /** Some span in `spans` contains position `k`. */
  predicate Covered(spans: seq<Span>, k: int)
    decreases |spans|
  {
    |spans| > 0
    && (Covered(spans[..|spans| - 1], k) || spans[|spans| - 1].begin <= k < spans[|spans| - 1].end)
  }

  /** The span that covers `k`. */
  lemma {:induction false} CoveredAt(spans: seq<Span>, k: int) returns (i: nat)
    requires Covered(spans, k)
    ensures i < |spans| && spans[i].begin <= k < spans[i].end
    decreases |spans|
  {
    if spans[|spans| - 1].begin <= k < spans[|spans| - 1].end {
      i := |spans| - 1;
    } else {
      i := CoveredAt(spans[..|spans| - 1], k);
    }
  }

  /** Every recorded span holds its name in the code, is blanked in the
      working string and is bounded there by non-word characters. */
  predicate SpansOk(code: string, w: string, spans: seq<Span>, minLen: nat)
    requires |w| == |code|
  {
    forall i :: 0 <= i < |spans| ==>
      SpanOk(code, spans[i]) && |spans[i].entry.name| >= minLen
      && Blanked(w, spans[i]) && Bounded(w, spans[i])
  }

  /** The working string differs from the code only by spaces, and only
      inside recorded spans. */
  predicate BlanksOnly(code: string, w: string, spans: seq<Span>)
    requires |w| == |code|
  {
    && (forall k :: 0 <= k < |w| ==> w[k] == code[k] || w[k] == ' ')
    && (forall k :: 0 <= k < |w| && w[k] != code[k] ==> Covered(spans, k))
  }

  predicate AllDisjoint(spans: seq<Span>) {
    forall i, j :: 0 <= i < |spans| && 0 <= j < |spans| && i != j ==> Disjoint(spans[i], spans[j])
  }

  /** What holds of the working string `w` and the spans recorded so far,
      when every recorded name has at least `minLen` characters. */
  predicate Inv(code: string, w: string, spans: seq<Span>, minLen: nat) {
    |w| == |code| && SpansOk(code, w, spans, minLen) && BlanksOnly(code, w, spans) && AllDisjoint(spans)
  }

  /** A match whose first and last characters are not spaces cannot overlap
      a blanked span at least as long as itself. */
  lemma NoOverlap(w: string, s: Span, p: nat, n: nat)
    requires s.end <= |w| && Blanked(w, s) && s.end - s.begin >= n >= 1
    requires p + n <= |w| && w[p] != ' ' && w[p + n - 1] != ' '
    ensures p + n <= s.begin || s.end <= p
  {
  }

  /** A new match is disjoint from every recorded span. */
  lemma MatchDisjoint(code: string, w: string, spans: seq<Span>, e: IndexEntry, p: nat)
    requires Inv(code, w, spans, |e.name|) && GoodName(e.name) && MatchAt(w, e.name, p)
    ensures forall i :: 0 <= i < |spans| ==>
              Disjoint(spans[i], Span(p, p + |e.name|, e)) && Disjoint(Span(p, p + |e.name|, e), spans[i])
  {
    var n := |e.name|;
    assert w[p..p + n] == e.name;
    assert w[p] == e.name[0] && w[p + n - 1] == e.name[n - 1];
    forall i | 0 <= i < |spans|
      ensures Disjoint(spans[i], Span(p, p + n, e)) && Disjoint(Span(p, p + n, e), spans[i])
    {
      NoOverlap(w, spans[i], p, n);
    }
  }

  /** A position inside a span disjoint from all of `spans` is not covered
      by them. */
  lemma {:induction false} NotCovered(spans: seq<Span>, s: Span, k: int)
    requires s.begin <= k < s.end
    requires forall i :: 0 <= i < |spans| ==> Disjoint(spans[i], s)
    ensures !Covered(spans, k)
    decreases |spans|
  {
    if |spans| > 0 {
      NotCovered(spans[..|spans| - 1], s, k);
      assert Disjoint(spans[|spans| - 1], s);
    }
  }

  /** Where a new match lies the working string is still the original
      code, so the code holds the name there. */
  lemma MatchInCode(code: string, w: string, spans: seq<Span>, e: IndexEntry, p: nat)
    requires Inv(code, w, spans, |e.name|) && GoodName(e.name) && MatchAt(w, e.name, p)
    ensures SpanOk(code, Span(p, p + |e.name|, e))
  {
    var n := |e.name|;
    var s := Span(p, p + n, e);
    MatchDisjoint(code, w, spans, e, p);
    forall k | p <= k < p + n
      ensures w[k] == code[k]
    {
      NotCovered(spans, s, k);
    }
    assert w[p..p + n] == e.name;
    assert code[p..p + n] == w[p..p + n];
  }

  lemma AddMatchSpans(code: string, w: string, spans: seq<Span>, e: IndexEntry, p: nat)
    requires Inv(code, w, spans, |e.name|) && GoodName(e.name) && MatchAt(w, e.name, p)
    ensures SpansOk(code, Blank(w, p, |e.name|), spans + [Span(p, p + |e.name|, e)], |e.name|)
  {
    var n := |e.name|;
    var spans' := spans + [Span(p, p + n, e)];
    var w' := Blank(w, p, n);
    MatchInCode(code, w, spans, e, p);
    BlankKeepsSpan(w, Span(p, p + n, e), p, n);
    forall i | 0 <= i < |spans'|
      ensures SpanOk(code, spans'[i]) && |spans'[i].entry.name| >= n
              && Blanked(w', spans'[i]) && Bounded(w', spans'[i])
    {
      if i < |spans| {
        assert spans'[i] == spans[i];
        BlankKeepsSpan(w, spans[i], p, n);
      }
    }
  }

  /** Blanking keeps a blanked span blanked and a bounded span bounded
      (a space is not a word character); the span just blanked is bounded
      when it matched. */
  lemma BlankKeepsSpan(w: string, s: Span, p: nat, n: nat)
    requires s.begin <= s.end <= |w| && p + n <= |w|
    requires (s.begin == p && s.end == p + n) || (Blanked(w, s) && Bounded(w, s))
    requires s.begin == p && s.end == p + n ==> MatchAt(w, w[p..p + n], p)
    ensures Blanked(Blank(w, p, n), s) && Bounded(Blank(w, p, n), s)
  {
  }

  lemma AddMatchBlanks(code: string, w: string, spans: seq<Span>, e: IndexEntry, p: nat)
    requires |w| == |code| && BlanksOnly(code, w, spans) && p + |e.name| <= |w|
    ensures BlanksOnly(code, Blank(w, p, |e.name|), spans + [Span(p, p + |e.name|, e)])
  {
    var n := |e.name|;
    var spans' := spans + [Span(p, p + n, e)];
    var w' := Blank(w, p, n);
    assert forall k :: 0 <= k < |w'| ==> w'[k] == code[k] || w'[k] == ' ';
    assert spans'[..|spans'| - 1] == spans;
  }

  lemma AddMatchDisjoint(code: string, w: string, spans: seq<Span>, e: IndexEntry, p: nat)
    requires Inv(code, w, spans, |e.name|) && GoodName(e.name) && MatchAt(w, e.name, p)
    ensures AllDisjoint(spans + [Span(p, p + |e.name|, e)])
  {
    var spans' := spans + [Span(p, p + |e.name|, e)];
    MatchDisjoint(code, w, spans, e, p);
    forall i, j | 0 <= i < |spans'| && 0 <= j < |spans'| && i != j
      ensures Disjoint(spans'[i], spans'[j])
    {
      if i < |spans| && j < |spans| {
        assert spans'[i] == spans[i] && spans'[j] == spans[j];
      }
    }
  }

  /** Recording and blanking one more match keeps the invariant. */
  lemma AddMatch(code: string, w: string, spans: seq<Span>, e: IndexEntry, p: nat)
    requires Inv(code, w, spans, |e.name|) && GoodName(e.name) && MatchAt(w, e.name, p)
    ensures Inv(code, Blank(w, p, |e.name|), spans + [Span(p, p + |e.name|, e)], |e.name|)
  {
    AddMatchSpans(code, w, spans, e, p);
    AddMatchBlanks(code, w, spans, e, p);
    AddMatchDisjoint(code, w, spans, e, p);
  }

  lemma RecordFirst(acc: seq<Span>, e: IndexEntry, ps: seq<nat>)
    requires |ps| > 0
    ensures Record(acc, e, ps) == Record(acc + [Span(ps[0], ps[0] + |e.name|, e)], e, ps[1..])
  {
  }

  lemma BlankAllFirst(w: string, ps: seq<nat>, n: nat)
    requires |ps| > 0 && Fits(ps, n, |w|)
    ensures BlankAll(w, ps, n) == BlankAll(Blank(w, ps[0], n), ps[1..], n)
  {
  }

  /** Blanking before `bound`, where a match at `p` does not reach, leaves
      it a match: its boundary characters may only have become spaces. */
  lemma StillMatches(w0: string, w: string, name: string, p: nat, bound: nat)
    requires MatchAt(w0, name, p) && bound <= p && |w0| == |w|
    requires forall k :: bound <= k < |w| ==> w[k] == w0[k]
    requires forall k :: 0 <= k < |w| ==> w[k] == w0[k] || w[k] == ' '
    ensures MatchAt(w, name, p)
  {
    assert w[p..p + |name|] == w0[p..p + |name|];
  }

  /** What holds while the matches `ps` of `e`, found on `w0`, are being
      blanked in turn: the invariant, the positions still to blank lie
      after `bound` in order and match in `w0`, and from `bound` on the
      working string is still `w0`. */
  predicate Scan(code: string, w0: string, w: string, spans: seq<Span>,
                 e: IndexEntry, ps: seq<nat>, bound: nat) {
    && Inv(code, w, spans, |e.name|) && GoodName(e.name) && |w0| == |w|
    && Fits(ps, |e.name|, |w|) && Positions(w0, e.name, ps, bound)
    && (forall k :: bound <= k < |w| ==> w[k] == w0[k])
    && (forall k :: 0 <= k < |w| ==> w[k] == w0[k] || w[k] == ' ')
  }

  /** Blanking the first position keeps the scan going. (The terms are
      spelled out rather than bound to local names, so that the facts the
      helper lemmas state are literally the ones asked for.) */
  lemma ScanStep(code: string, w0: string, w: string, spans: seq<Span>,
                 e: IndexEntry, ps: seq<nat>, bound: nat)
    requires Scan(code, w0, w, spans, e, ps, bound) && |ps| > 0
    ensures ps[0] + |e.name| <= |w|
    ensures Scan(code, w0, Blank(w, ps[0], |e.name|), spans + [Span(ps[0], ps[0] + |e.name|, e)],
                 e, ps[1..], ps[0] + Advance(|e.name|))
  {
    ScanStepInv(code, w0, w, spans, e, ps[0], bound);
    BlankFromOriginal(w0, w, ps[0], |e.name|, bound, ps[0] + Advance(|e.name|));
  }

  /** A match found on `w0` after `bound` can still be recorded and
      blanked in `w`. */
  lemma ScanStepInv(code: string, w0: string, w: string, spans: seq<Span>,
                    e: IndexEntry, p: nat, bound: nat)
    requires Inv(code, w, spans, |e.name|) && GoodName(e.name) && |w0| == |w|
    requires bound <= p && MatchAt(w0, e.name, p)
    requires forall k :: bound <= k < |w| ==> w[k] == w0[k]
    requires forall k :: 0 <= k < |w| ==> w[k] == w0[k] || w[k] == ' '
    ensures p + |e.name| <= |w|
    ensures Inv(code, Blank(w, p, |e.name|), spans + [Span(p, p + |e.name|, e)], |e.name|)
  {
    StillMatches(w0, w, e.name, p, bound);
    AddMatch(code, w, spans, e, p);
  }

  /** Blanking the matches of one entry, found on the string `w0` it was
      searched in, keeps the invariant: each later position still matches,
      because earlier blanks of this entry end before it. */
  lemma {:induction false} BlankAllInv(code: string, w0: string, w: string, spans: seq<Span>,
                                       e: IndexEntry, ps: seq<nat>, bound: nat,
                                       wEnd: string, spansEnd: seq<Span>)
    requires Scan(code, w0, w, spans, e, ps, bound)
    requires wEnd == BlankAll(w, ps, |e.name|) && spansEnd == Record(spans, e, ps)
    ensures Inv(code, wEnd, spansEnd, |e.name|)
    decreases |ps|
  {
    if |ps| > 0 {
      ScanStep(code, w0, w, spans, e, ps, bound);
      BlankAllFirst(w, ps, |e.name|);
      RecordFirst(spans, e, ps);
      BlankAllInv(code, w0, Blank(w, ps[0], |e.name|), spans + [Span(ps[0], ps[0] + |e.name|, e)],
                  e, ps[1..], ps[0] + Advance(|e.name|), wEnd, spansEnd);
    }
  }

  lemma BlankFromOriginal(w0: string, w: string, p: nat, n: nat, bound: nat, next: nat)
    requires |w0| == |w| && bound <= p && p + n <= |w| && p + n <= next
    requires forall k :: bound <= k < |w| ==> w[k] == w0[k]
    requires forall k :: 0 <= k < |w| ==> w[k] == w0[k] || w[k] == ' '
    ensures forall k :: next <= k < |Blank(w, p, n)| ==> Blank(w, p, n)[k] == w0[k]
    ensures forall k :: 0 <= k < |Blank(w, p, n)| ==> Blank(w, p, n)[k] == w0[k] || Blank(w, p, n)[k] == ' '
  {
  }

  lemma InvWeaken(code: string, w: string, spans: seq<Span>, minLen: nat, lower: nat)
    requires Inv(code, w, spans, minLen) && lower <= minLen
    ensures Inv(code, w, spans, lower)
  {
  }

  /** Matching entries sorted longest first, none longer than `minLen`,
      keeps the invariant: all recorded spans hold their names in the code
      and are pairwise disjoint. */
  lemma {:induction false} MatchEntriesInv(code: string, w: string, spans: seq<Span>,
                                           es: seq<IndexEntry>, minLen: nat)
    requires Inv(code, w, spans, minLen)
    requires forall i :: 0 <= i < |es| ==> GoodName(es[i].name) && |es[i].name| <= minLen
    requires forall i, j :: 0 <= i < j < |es| ==> |es[j].name| <= |es[i].name|
    ensures Inv(code, MatchEntries(w, es, spans).1, MatchEntries(w, es, spans).0, 0)
    decreases |es|
  {
    if |es| > 0 {
      var e := es[0];
      var n := |e.name|;
      InvWeaken(code, w, spans, minLen, n);
      var ps := FindFrom(w, e.name, 0);
      FindFromSound(w, e.name, 0);
      BlankAllInv(code, w, w, spans, e, ps, 0, BlankAll(w, ps, n), Record(spans, e, ps));
      MatchEntriesInv(code, BlankAll(w, ps, n), Record(spans, e, ps), es[1..], n);
    } else {
      InvWeaken(code, w, spans, minLen, 0);
    }
  }

  /** The spans found on the code for entries sorted longest first, all of
      whose names are good, hold their names and do not overlap. */
  lemma MatchSorted(code: string, es: seq<IndexEntry>)
    requires forall i :: 0 <= i < |es| ==> GoodName(es[i].name)
    requires StableSort.SortedBy(es, NameKey)
    ensures var spans := MatchEntries(code, es, []).0;
            (forall i :: 0 <= i < |spans| ==> SpanOk(code, spans[i]) && spans[i].entry in es)
            && AllDisjoint(spans)
  {
    var minLen := if |es| == 0 then 0 else |es[0].name|;
    LongestFirst(es);
    InvStart(code, minLen);
    MatchEntriesInv(code, code, [], es, minLen);
  }

  lemma InvStart(code: string, minLen: nat)
    ensures Inv(code, code, [], minLen)
  {
  }

  lemma LongestFirst(es: seq<IndexEntry>)
    requires StableSort.SortedBy(es, NameKey)
    ensures forall i, j :: 0 <= i < j < |es| ==> |es[j].name| <= |es[i].name|
    ensures forall i :: 0 <= i < |es| ==> |es[i].name| <= |es[0].name|
  {
    assert forall i, j :: 0 <= i < j < |es| ==> NameKey(es[i]) <= NameKey(es[j]);
  }

  /** Two links that are non-empty and do not overlap. */
  predicate Apart(a: LinkEntry, b: LinkEntry) {
    a.begin < a.end && b.begin < b.end && (a.end <= b.begin || b.end <= a.begin)
  }

  /** Each link ends before the next begins. */
  predicate Ordered(links: seq<LinkEntry>) {
    forall i :: 0 < i < |links| ==> links[i - 1].end <= links[i].begin
  }

  /** The link covers, in the code, the rewritten name of an index entry
      with that link. */
  predicate FromIndex(code: string, index: seq<IndexEntry>, l: LinkEntry) {
    l.begin < l.end <= |code|
    && exists j :: 0 <= j < |index| && l.link == index[j].link
                   && code[l.begin..l.end] == Rewrite(code, index[j]).name
  }

  lemma SortedIndexGood(code: string, index: seq<IndexEntry>)
    requires forall i :: 0 <= i < |index| ==> GoodName(Rewrite(code, index[i]).name)
    ensures forall e :: e in StableSort.SortBy(RewriteIndex(code, index), NameKey) ==> GoodName(e.name)
  {
    var rewritten := RewriteIndex(code, index);
    StableSort.SortByPermutes(rewritten, NameKey);
    forall e | e in StableSort.SortBy(rewritten, NameKey)
      ensures GoodName(e.name)
    {
      assert e in multiset(StableSort.SortBy(rewritten, NameKey));
      var j :| 0 <= j < |rewritten| && rewritten[j] == e;
    }
  }

  lemma SpansApart(code: string, spans: seq<Span>)
    requires forall i :: 0 <= i < |spans| ==> SpanOk(code, spans[i]) && GoodName(spans[i].entry.name)
    requires AllDisjoint(spans)
    ensures var links := seq(|spans|, i requires 0 <= i < |spans| => LinkOf(spans[i]));
            forall i, j :: 0 <= i < |links| && 0 <= j < |links| && i != j ==> Apart(links[i], links[j])
  {
  }

  lemma OrderedWhenApart(links: seq<LinkEntry>)
    requires StableSort.SortedBy(links, BeginKey)
    requires forall i, j :: 0 <= i < |links| && 0 <= j < |links| && i != j ==> Apart(links[i], links[j])
    ensures Ordered(links)
  {
    forall i | 0 < i < |links|
      ensures links[i - 1].end <= links[i].begin
    {
      assert Apart(links[i - 1], links[i]);
      assert BeginKey(links[i - 1]) <= BeginKey(links[i]);
    }
  }

  lemma SpanFromIndex(code: string, index: seq<IndexEntry>, sp: Span)
    requires SpanOk(code, sp) && GoodName(sp.entry.name)
    requires sp.entry in StableSort.SortBy(RewriteIndex(code, index), NameKey)
    ensures FromIndex(code, index, LinkOf(sp))
  {
    var rewritten := RewriteIndex(code, index);
    StableSort.SortByPermutes(rewritten, NameKey);
    assert sp.entry in multiset(StableSort.SortBy(rewritten, NameKey));
    var j :| 0 <= j < |rewritten| && rewritten[j] == sp.entry;
    assert code[sp.begin..sp.end] == Rewrite(code, index[j]).name;
  }

  /** The spans found for a well-named index, before the final sort. */
  function UnorderedLinks(code: string, index: seq<IndexEntry>): seq<LinkEntry> {
    var spans := MatchEntries(code, StableSort.SortBy(RewriteIndex(code, index), NameKey), []).0;
    seq(|spans|, i requires 0 <= i < |spans| => LinkOf(spans[i]))
  }

  lemma UnorderedSound(code: string, index: seq<IndexEntry>)
    requires forall i :: 0 <= i < |index| ==> GoodName(Rewrite(code, index[i]).name)
    ensures var links := UnorderedLinks(code, index);
            (forall i :: 0 <= i < |links| ==> FromIndex(code, index, links[i]))
            && (forall i, j :: 0 <= i < |links| && 0 <= j < |links| && i != j ==> Apart(links[i], links[j]))
  {
    var sorted := StableSort.SortBy(RewriteIndex(code, index), NameKey);
    SortedIndexGood(code, index);
    assert forall i :: 0 <= i < |sorted| ==> sorted[i] in sorted;
    StableSort.SortBySorted(RewriteIndex(code, index), NameKey);
    MatchSorted(code, sorted);
    var spans := MatchEntries(code, sorted, []).0;
    forall i | 0 <= i < |spans|
      ensures GoodName(spans[i].entry.name) && FromIndex(code, index, LinkOf(spans[i]))
    {
      assert spans[i].entry in sorted;
      SpanFromIndex(code, index, spans[i]);
    }
    SpansApart(code, spans);
  }

  /** The linked spans come in order and never overlap, and each one is, in
      the original code, the (rewritten) name of an index entry carrying
      that link; this holds whenever no rewritten name is empty or begins
      or ends with a space. */
  lemma FindLinksSound(code: string, index: seq<IndexEntry>)
    requires forall i :: 0 <= i < |index| ==> GoodName(Rewrite(code, index[i]).name)
    ensures Ordered(FindLinks(code, index))
    ensures forall i :: 0 <= i < |FindLinks(code, index)| ==> FromIndex(code, index, FindLinks(code, index)[i])
  {
    var unordered := UnorderedLinks(code, index);
    assert StableSort.SortBy(unordered, BeginKey) == FindLinks(code, index);
    UnorderedSound(code, index);
    SortKeepsApart(unordered);
    SortKeepsOrigin(code, index, unordered);
  }

  /** Sorting links that never overlap by their start puts them in order. */
  lemma SortKeepsApart(links: seq<LinkEntry>)
    requires forall i, j :: 0 <= i < |links| && 0 <= j < |links| && i != j ==> Apart(links[i], links[j])
    ensures Ordered(StableSort.SortBy(links, BeginKey))
  {
    StableSort.SortByPairwise(links, BeginKey, Apart);
    StableSort.SortBySorted(links, BeginKey);
    OrderedWhenApart(StableSort.SortBy(links, BeginKey));
  }

  lemma SortKeepsOrigin(code: string, index: seq<IndexEntry>, links: seq<LinkEntry>)
    requires forall i :: 0 <= i < |links| ==> FromIndex(code, index, links[i])
    ensures var sorted := StableSort.SortBy(links, BeginKey);
            forall i :: 0 <= i < |sorted| ==> FromIndex(code, index, sorted[i])
  {
    var sorted := StableSort.SortBy(links, BeginKey);
    StableSort.SortByOrigin(links, BeginKey);
    forall i | 0 <= i < |sorted|
      ensures FromIndex(code, index, sorted[i])
    {
      var m :| 0 <= m < |links| && links[m] == sorted[i];
    }
  }

  /** Whatever the index holds, every link handed to the tree walk starts
      no later than it ends. */
  lemma FindLinksWidths(code: string, index: seq<IndexEntry>)
    ensures forall i :: 0 <= i < |FindLinks(code, index)| ==> FindLinks(code, index)[i].begin <= FindLinks(code, index)[i].end
  {
    UnorderedWidths(code, index);
    SortKeepsWidths(UnorderedLinks(code, index));
    assert FindLinks(code, index) == StableSort.SortBy(UnorderedLinks(code, index), BeginKey);
  }

  lemma UnorderedWidths(code: string, index: seq<IndexEntry>)
    ensures forall i :: 0 <= i < |UnorderedLinks(code, index)| ==> UnorderedLinks(code, index)[i].begin <= UnorderedLinks(code, index)[i].end
  {
    MatchEntriesWidths(code, StableSort.SortBy(RewriteIndex(code, index), NameKey), []);
  }

  lemma SortKeepsWidths(links: seq<LinkEntry>)
    requires forall i :: 0 <= i < |links| ==> links[i].begin <= links[i].end
    ensures var sorted := StableSort.SortBy(links, BeginKey);
            forall i :: 0 <= i < |sorted| ==> sorted[i].begin <= sorted[i].end
  {
    var sorted := StableSort.SortBy(links, BeginKey);
    StableSort.SortByOrigin(links, BeginKey);
    forall i | 0 <= i < |sorted|
      ensures sorted[i].begin <= sorted[i].end
    {
      var m :| 0 <= m < |links| && links[m] == sorted[i];
    }
  }
}
