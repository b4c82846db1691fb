/** The `codemo` fence rule: lines of the form `// codemo <keyword>` are
    directives that hide or show the following code lines and mark the next
    line as focused; the fence is rendered with only the shown lines, and the
    complete code travels to the page component as props. */
module Codemo {
  import opened Wrappers
  import opened Strings
  import CodemoArgs
  import opened FenceRules

  predicate AllSpace(s: string) {
    forall k :: 0 <= k < |s| ==> IsSpace(s[k])
  }

  predicate NoLineTerminator(s: string) {
    forall k :: 0 <= k < |s| ==> !IsLineTerminator(s[k])
  }

  /** `line` is `w1 // w2 codemo rest` as the directive pattern
      `^\s*\/\/\s+(codemo\b.*)$` reads it: `\s` runs around the slashes (the
      second non-empty), a word boundary after `codemo`, and a rest that `.`
      can match, hence free of line terminators. */
  predicate DirectiveShape(line: string, w1: string, w2: string, rest: string) {
    && line == w1 + ("//" + (w2 + ("codemo" + rest)))
    && AllSpace(w1) && |w2| > 0 && AllSpace(w2)
    && (|rest| == 0 || !IsWordChar(rest[0]))
    && NoLineTerminator(rest)
  }

  /** The text the directive pattern captures (`codemo` and the rest of the
      line), or `None` when the line is not a directive. */
  function DirectiveCapture(line: string): Option<string> {
    var n := RunLength(line, IsSpace);
    if StartsWith(line[n..], "//") then CaptureAfterSlashes(line[n + 2..]) else None
  }

  /** The part of the pattern after the two slashes. */
  function CaptureAfterSlashes(u: string): Option<string> {
    var n := RunLength(u, IsSpace);
    if n > 0 && StartsWith(u[n..], "codemo") && BoundaryRest(u[n + 6..]) then Some(u[n..]) else None
  }

  /** What may follow `codemo`: a word boundary, then `.*` up to the end. */
  predicate BoundaryRest(rest: string) {
    (|rest| == 0 || !IsWordChar(rest[0])) && NoLineTerminator(rest)
  }

  lemma CaptureAfterSlashesOf(u: string, w2: string, rest: string)
    requires u == w2 + ("codemo" + rest) && |w2| > 0 && AllSpace(w2) && BoundaryRest(rest)
    ensures CaptureAfterSlashes(u) == Some("codemo" + rest)
  {
    assert u[|w2|] == 'c';
    RunLengthExact(u, IsSpace, |w2|);
    assert u[|w2|..] == "codemo" + rest;
    assert u[|w2| + 6..] == rest;
  }

  lemma DirectiveCaptureOf(line: string, w1: string, u: string)
    requires line == w1 + ("//" + u) && AllSpace(w1)
    ensures DirectiveCapture(line) == CaptureAfterSlashes(u)
  {
    assert line[|w1|] == '/';
    RunLengthExact(line, IsSpace, |w1|);
    assert line[|w1|..] == "//" + u;
    assert line[|w1| + 2..] == u;
  }

  /** Every line of directive shape is recognised, with its capture. */
  lemma DirectiveCaptureComplete(line: string, w1: string, w2: string, rest: string)
    requires DirectiveShape(line, w1, w2, rest)
    ensures DirectiveCapture(line) == Some("codemo" + rest)
  {
    var u := w2 + ("codemo" + rest);
    DirectiveCaptureOf(line, w1, u);
    CaptureAfterSlashesOf(u, w2, rest);
  }

  /** Only lines of directive shape are recognised. */
  lemma DirectiveCaptureSound(line: string)
    requires DirectiveCapture(line).Some?
    ensures exists w1, w2, rest :: DirectiveShape(line, w1, w2, rest)
                                && DirectiveCapture(line) == Some("codemo" + rest)
  {
    var w1, u := SlashesParts(line);
    var w2, rest := AfterSlashesParts(u);
    ShapeOfParts(line, w1, u, w2, rest);
    DirectiveCaptureComplete(line, w1, w2, rest);
  }

  lemma ShapeOfParts(line: string, w1: string, u: string, w2: string, rest: string)
    requires line == w1 + ("//" + u) && u == w2 + ("codemo" + rest)
    requires AllSpace(w1) && |w2| > 0 && AllSpace(w2) && BoundaryRest(rest)
    ensures DirectiveShape(line, w1, w2, rest)
  {
  }

  lemma SlashesParts(line: string) returns (w1: string, u: string)
    requires DirectiveCapture(line).Some?
    ensures line == w1 + ("//" + u) && AllSpace(w1) && CaptureAfterSlashes(u).Some?
  {
    var n := RunLength(line, IsSpace);
    SplitAround(line, n, "//");
    w1, u := line[..n], line[n + 2..];
  }

  lemma AfterSlashesParts(u: string) returns (w2: string, rest: string)
    requires CaptureAfterSlashes(u).Some?
    ensures u == w2 + ("codemo" + rest) && |w2| > 0 && AllSpace(w2) && BoundaryRest(rest)
  {
    var n := RunLength(u, IsSpace);
    SplitAround(u, n, "codemo");
    w2, rest := u[..n], u[n + 6..];
  }

  /** The directive keyword: the second space-separated word of the trimmed
      capture (`result[1].trim().split(" ")[1]`), `None` when there is none. */
  function Keyword(capture: string): (r: Option<string>)
    ensures r.None? <==> ' ' !in Trim(capture)
    ensures r.Some? ==> ' ' !in r.value
  {
    var parts := Split(Trim(capture), ' ');
    SplitSeveral(Trim(capture), ' ');
    if |parts| >= 2 then Some(parts[1]) else None
  }

  /** `codemo` followed by one space and a word gives that word. */
  lemma KeywordOfWord(kw: string)
    requires |kw| > 0 && forall k :: 0 <= k < |kw| ==> !IsSpace(kw[k])
    ensures Keyword("codemo " + kw) == Some(kw)
  {
    var c := "codemo " + kw;
    assert c == "codemo" + [' '] + kw;
    TrimUnchanged(c);
    assert ' ' !in kw by {
      forall k | 0 <= k < |kw| ensures kw[k] != ' ' {
        assert !IsSpace(kw[k]);
      }
    }
    SplitTwo("codemo", kw, ' ');
  }

  /** A fence line: a directive with its keyword, or a line of code. */
  datatype Entry = Directive(keyword: Option<string>) | Content(text: string)

  function Classify(line: string): (e: Entry)
    ensures e.Content? <==> DirectiveCapture(line).None?
    ensures e.Content? ==> e.text == line
  {
    match DirectiveCapture(line)
    case Some(c) => Directive(Keyword(c))
    case None => Content(line)
  }

  /** Every line classified on its own: a line is code exactly when it is
      not a directive, code keeps its text, and a directive carries the
      keyword of its capture. */
  function ClassifyAll(lines: seq<string>): (r: seq<Entry>)
    ensures |r| == |lines|
    ensures forall i :: 0 <= i < |r| ==> (r[i].Content? <==> DirectiveCapture(lines[i]).None?)
    ensures forall i :: 0 <= i < |r| && r[i].Content? ==> r[i].text == lines[i]
    ensures forall i :: 0 <= i < |r| && r[i].Directive? ==> r[i].keyword == Keyword(DirectiveCapture(lines[i]).value)
  {
    seq(|lines|, i requires 0 <= i < |lines| => Classify(lines[i]))
  }

  /** Whether code starts out hidden: exactly when the first directive is
      `show` (a fence opening with `show` hides what precedes it). */
  function InitialHide(entries: seq<Entry>): (h: bool)
    ensures (forall i :: 0 <= i < |entries| ==> entries[i].Content?) ==> !h
  {
    if |entries| == 0 then false
    else if entries[0].Directive? then entries[0].keyword == Some("show")
    else InitialHide(entries[1..])
  }

  /** A fence with no directive at all. */
  predicate IsPure(entries: seq<Entry>) {
    forall i :: 0 <= i < |entries| ==> entries[i].Content?
  }

  /** The state of the directive loop: the hide flag, the shown lines and
      their focus numbers (1-based), all lines and their focus indices
      (0-based). */
  datatype State = State(hide: bool, shown: seq<string>, shownFocus: seq<nat>,
                         full: seq<string>, fullFocus: seq<nat>)

  const HideKeyword := Some("hide")
  const ShowKeyword := Some("show")
  const FocusKeyword := Some("focus-next-line")

  /** One round of the loop: a directive changes the hide flag or the focus
      lists and never the lines; a line of code is always added to the full
      code and to the shown code exactly when code is not hidden. */
  function Step(st: State, e: Entry): (r: State)
    ensures Extends(st, r)
    ensures e.Directive? ==> r.shown == st.shown && r.full == st.full
    ensures e == Directive(HideKeyword) ==> r == st.(hide := true)
    ensures e == Directive(ShowKeyword) ==> r == st.(hide := false)
    ensures e.Directive? && e.keyword != HideKeyword && e.keyword != ShowKeyword ==> r.hide == st.hide
    ensures e.Content? ==> && r.hide == st.hide && r.full == st.full + [e.text]
                           && |r.shown| == |st.shown| + (if st.hide then 0 else 1)
                           && r.shownFocus == st.shownFocus && r.fullFocus == st.fullFocus
  {
    match e
    case Directive(k) =>
      if k == HideKeyword then st.(hide := true)
      else if k == ShowKeyword then st.(hide := false)
      else if k == FocusKeyword then
        st.(shownFocus := st.shownFocus + [|st.shown| + 1], fullFocus := st.fullFocus + [|st.full|])
      else st
    case Content(x) =>
      assert (st.full + [x])[..|st.full|] == st.full;
      assert (st.shown + [x])[..|st.shown|] == st.shown;
      st.(shown := if st.hide then st.shown else st.shown + [x], full := st.full + [x])
  }

  /** The loop over all entries, starting with hide flag `h0`. */
  function Run(entries: seq<Entry>, h0: bool): State {
    if |entries| == 0 then State(h0, [], [], [], [])
    else Step(Run(entries[..|entries| - 1], h0), entries[|entries| - 1])
  }

  /** The code lines of the fence, in order. */
  function ContentLines(entries: seq<Entry>): seq<string> {
    if |entries| == 0 then []
    else (if entries[0].Content? then [entries[0].text] else []) + ContentLines(entries[1..])
  }

  /** Reference definition of the code of a fence: the lines the directive
      pattern does not match, in order. */
  function CodeLines(lines: seq<string>): seq<string> {
    if |lines| == 0 then []
    else (if DirectiveCapture(lines[0]).None? then [lines[0]] else []) + CodeLines(lines[1..])
  }

  /** Classifying the lines keeps exactly the lines that are not directives
      as code, in their order. */
  lemma {:induction false} ClassifyAllCode(lines: seq<string>)
    ensures ContentLines(ClassifyAll(lines)) == CodeLines(lines)
  {
    if |lines| > 0 {
      ClassifyAllCode(lines[1..]);
      assert ClassifyAll(lines)[1..] == ClassifyAll(lines[1..]);
    }
  }

  /** The first directive decides whether code starts out hidden: exactly
      when it is `show`, whatever code precedes it and whatever follows. */
  lemma {:induction false} FirstDirectiveDecides(pre: seq<Entry>, k: Option<string>, post: seq<Entry>)
    requires IsPure(pre)
    ensures InitialHide(pre + [Directive(k)] + post) == (k == ShowKeyword)
  {
    if |pre| > 0 {
      FirstDirectiveDecides(pre[1..], k, post);
      assert (pre + [Directive(k)] + post)[1..] == pre[1..] + [Directive(k)] + post;
    } else {
      assert pre + [Directive(k)] + post == [Directive(k)] + post;
    }
  }

  lemma ContentLinesAppend(a: seq<Entry>, b: seq<Entry>)
    ensures ContentLines(a + b) == ContentLines(a) + ContentLines(b)
  {
    if |a| > 0 {
      assert (a + b)[1..] == a[1..] + b;
      ContentLinesAppend(a[1..], b);
    } else {
      assert a + b == b;
    }
  }

  /** `a` is a subsequence of `b`. */
  predicate IsSubsequence(a: seq<string>, b: seq<string>) {
    || |a| == 0
    || (&& |b| > 0
        && (|| (a[|a| - 1] == b[|b| - 1] && IsSubsequence(a[..|a| - 1], b[..|b| - 1]))
            || IsSubsequence(a, b[..|b| - 1])))
  }

  /** What the loop keeps: the full code is the code lines `lines` seen so
      far, the shown code is a subsequence of it, there is one focus number
      of each kind per focus directive, and each points at most one past
      the lines seen so far. */
  predicate RunOk(st: State, lines: seq<string>) {
    && st.full == lines
    && IsSubsequence(st.shown, st.full)
    && |st.shownFocus| == |st.fullFocus|
    && (forall m :: 0 <= m < |st.fullFocus| ==> st.fullFocus[m] <= |st.full|)
    && (forall m :: 0 <= m < |st.shownFocus| ==> 1 <= st.shownFocus[m] <= |st.shown| + 1)
  }

  lemma StepOk(st: State, e: Entry, lines: seq<string>)
    requires RunOk(st, lines)
    ensures RunOk(Step(st, e), lines + ContentLines([e]))
  {
    ContentLinesOne(e);
    if e.Content? {
      StepOkContent(st, e.text, lines);
    } else {
      StepOkDirective(st, e.keyword, lines);
      assert lines + [] == lines;
    }
  }

  lemma ContentLinesOne(e: Entry)
    ensures ContentLines([e]) == if e.Content? then [e.text] else []
  {
    assert [e][1..] == [];
  }

  lemma StepOkContent(st: State, x: string, lines: seq<string>)
    requires RunOk(st, lines)
    ensures RunOk(Step(st, Content(x)), lines + [x])
  {
    assert (st.full + [x])[..|st.full|] == st.full;
    if !st.hide {
      assert (st.shown + [x])[..|st.shown|] == st.shown;
    }
  }

  lemma StepOkDirective(st: State, k: Option<string>, lines: seq<string>)
    requires RunOk(st, lines)
    ensures RunOk(Step(st, Directive(k)), lines)
  {
  }

  /** The loop keeps `RunOk` over the code lines of the fence. */
  lemma {:induction false} RunInvariant(entries: seq<Entry>, h0: bool)
    ensures RunOk(Run(entries, h0), ContentLines(entries))
  {
    if |entries| > 0 {
      RunInvariant(entries[..|entries| - 1], h0);
      StepOk(Run(entries[..|entries| - 1], h0), entries[|entries| - 1], ContentLines(entries[..|entries| - 1]));
      ContentLinesAppend(entries[..|entries| - 1], [entries[|entries| - 1]]);
      assert entries == entries[..|entries| - 1] + [entries[|entries| - 1]];
    }
  }

  /** Without `hide` directives, and with code visible from the start, every
      line is shown. */
  lemma {:induction false} NoHideShowsAll(entries: seq<Entry>)
    requires forall i :: 0 <= i < |entries| ==> entries[i] != Directive(HideKeyword)
    ensures !Run(entries, false).hide
    ensures Run(entries, false).shown == Run(entries, false).full
  {
    if |entries| > 0 {
      NoHideShowsAll(entries[..|entries| - 1]);
    }
  }

  /** After a `hide` with no later `show`, no further line is shown. */
  lemma {:induction false} HideSuppresses(pre: seq<Entry>, post: seq<Entry>, h0: bool)
    requires forall i :: 0 <= i < |post| ==> post[i] != Directive(ShowKeyword)
    ensures Run(pre + [Directive(HideKeyword)] + post, h0).hide
    ensures Run(pre + [Directive(HideKeyword)] + post, h0).shown == Run(pre, h0).shown
  {
    var all := pre + [Directive(HideKeyword)] + post;
    if |post| == 0 {
      assert all[..|all| - 1] == pre;
    } else {
      var post' := post[..|post| - 1];
      assert all[..|all| - 1] == pre + [Directive(HideKeyword)] + post';
      HideSuppresses(pre, post', h0);
    }
  }

  /** `x` is a prefix of `y`. */
  ghost predicate Prefix<T>(x: seq<T>, y: seq<T>) {
    |x| <= |y| && y[..|x|] == x
  }

  lemma PrefixTrans<T>(x: seq<T>, y: seq<T>, z: seq<T>)
    requires Prefix(x, y) && Prefix(y, z)
    ensures Prefix(x, z)
  {
    assert z[..|x|] == z[..|y|][..|x|];
  }

  /** Every list of `y` extends the same list of `x`. */
  ghost predicate Extends(x: State, y: State) {
    Prefix(x.shown, y.shown) && Prefix(x.full, y.full)
    && Prefix(x.shownFocus, y.shownFocus) && Prefix(x.fullFocus, y.fullFocus)
  }

  lemma StepExtends(x: State, st: State, e: Entry)
    requires Extends(x, st)
    ensures Extends(x, Step(st, e))
  {
    var y := Step(st, e);
    PrefixTrans(x.shown, st.shown, y.shown);
    PrefixTrans(x.full, st.full, y.full);
    PrefixTrans(x.shownFocus, st.shownFocus, y.shownFocus);
    PrefixTrans(x.fullFocus, st.fullFocus, y.fullFocus);
  }

  /** Running more entries only extends every list. */
  lemma {:induction false} RunExtends(a: seq<Entry>, b: seq<Entry>, h0: bool)
    ensures Extends(Run(a, h0), Run(a + b, h0))
  {
    if |b| == 0 {
      assert a + b == a;
    } else {
      RunExtends(a, b[..|b| - 1], h0);
      assert (a + b)[..|a + b| - 1] == a + b[..|b| - 1];
      StepExtends(Run(a, h0), Run(a + b[..|b| - 1], h0), b[|b| - 1]);
    }
  }

  /** `focus-next-line` appends one number to each focus list, whatever
      follows it and whether or not code is hidden: the 0-based index of the
      next line among all lines, and the 1-based number the next line would
      have among the shown lines. */
  lemma FocusNextLine(pre: seq<Entry>, post: seq<Entry>, h0: bool)
    ensures var st0 := Run(pre, h0);
            var st := Run(pre + [Directive(FocusKeyword)] + post, h0);
            && |st0.fullFocus| < |st.fullFocus| && st.fullFocus[|st0.fullFocus|] == |st0.full|
            && |st0.shownFocus| < |st.shownFocus| && st.shownFocus[|st0.shownFocus|] == |st0.shown| + 1
  {
    var pd := pre + [Directive(FocusKeyword)];
    assert pd[..|pd| - 1] == pre;
    RunExtends(pd, post, h0);
    PrefixAt(Run(pd, h0).fullFocus, Run(pd + post, h0).fullFocus, |Run(pre, h0).fullFocus|);
    PrefixAt(Run(pd, h0).shownFocus, Run(pd + post, h0).shownFocus, |Run(pre, h0).shownFocus|);
  }

  /** When a line of code follows `focus-next-line`, the recorded numbers
      point at it: among all lines and, when it is shown, among the shown
      lines. */
  lemma FocusNextLineTarget(pre: seq<Entry>, x: string, post: seq<Entry>, h0: bool)
    ensures var st0 := Run(pre, h0);
            var st := Run(pre + [Directive(FocusKeyword), Content(x)] + post, h0);
            && |st0.fullFocus| < |st.fullFocus| && st.fullFocus[|st0.fullFocus|] < |st.full|
            && st.full[st.fullFocus[|st0.fullFocus|]] == x
            && (!st0.hide ==> && |st0.shownFocus| < |st.shownFocus| && 0 < st.shownFocus[|st0.shownFocus|] <= |st.shown|
                              && st.shown[st.shownFocus[|st0.shownFocus|] - 1] == x)
  {
    FocusNextLine(pre, [Content(x)] + post, h0);
    assert pre + [Directive(FocusKeyword)] + ([Content(x)] + post) == pre + [Directive(FocusKeyword), Content(x)] + post;
    RunTwo(pre, Directive(FocusKeyword), Content(x), h0);
    RunExtends(pre + [Directive(FocusKeyword), Content(x)], post, h0);
    PrefixAt(Run(pre + [Directive(FocusKeyword), Content(x)], h0).full,
             Run(pre + [Directive(FocusKeyword), Content(x)] + post, h0).full, |Run(pre, h0).full|);
    if !Run(pre, h0).hide {
      PrefixAt(Run(pre + [Directive(FocusKeyword), Content(x)], h0).shown,
               Run(pre + [Directive(FocusKeyword), Content(x)] + post, h0).shown, |Run(pre, h0).shown|);
    }
  }

  /** A directive whose keyword is none of `hide`, `show` and
      `focus-next-line` (or that has no keyword) does nothing in the loop;
      it still counts as a first directive for `InitialHide`. */
  lemma {:induction false} UnknownDirectiveIgnored(pre: seq<Entry>, k: Option<string>, post: seq<Entry>, h0: bool)
    requires k != HideKeyword && k != ShowKeyword && k != FocusKeyword
    ensures Run(pre + [Directive(k)] + post, h0) == Run(pre + post, h0)
    decreases |post|
  {
    var all := pre + [Directive(k)] + post;
    if |post| == 0 {
      assert all == pre + [Directive(k)];
      assert all[..|all| - 1] == pre;
      assert pre + post == pre;
    } else {
      var init := post[..|post| - 1];
      UnknownDirectiveIgnored(pre, k, init, h0);
      assert all[..|all| - 1] == pre + [Directive(k)] + init;
      assert (pre + post)[..|pre + post| - 1] == pre + init;
    }
  }

  /** Two more entries are two more steps. */
  lemma RunTwo(pre: seq<Entry>, d: Entry, c: Entry, h0: bool)
    ensures Run(pre + [d, c], h0) == Step(Step(Run(pre, h0), d), c)
  {
    assert (pre + [d, c])[..|pre| + 1] == pre + [d];
    assert (pre + [d])[..|pre|] == pre;
  }

  lemma PrefixAt<T>(x: seq<T>, y: seq<T>, k: nat)
    requires Prefix(x, y) && k < |x|
    ensures y[k] == x[k]
  {
    assert y[..|x|][k] == y[k];
  }

  /** A run that starts hidden over code lines alone shows nothing and
      records no focus. */
  lemma {:induction false} HiddenStart(pre: seq<Entry>)
    requires IsPure(pre)
    ensures Run(pre, true) == State(true, [], [], ContentLines(pre), [])
  {
    if |pre| > 0 {
      var init := pre[..|pre| - 1];
      assert IsPure(init) by {
        forall i | 0 <= i < |init| ensures init[i].Content? {
          assert init[i] == pre[i];
        }
      }
      HiddenStart(init);
      ContentLinesAppend(init, [pre[|pre| - 1]]);
      ContentLinesOne(pre[|pre| - 1]);
      assert init + [pre[|pre| - 1]] == pre;
    }
  }

  /** A fence whose first directive is `show`: the code before it is
      hidden, and without a later `hide` all code after it is shown. */
  lemma {:induction false} ShowFirst(pre: seq<Entry>, post: seq<Entry>)
    requires IsPure(pre)
    requires forall i :: 0 <= i < |post| ==> post[i] != Directive(HideKeyword)
    ensures InitialHide(pre + [Directive(ShowKeyword)] + post)
    ensures Run(pre + [Directive(ShowKeyword)] + post, true).shown == ContentLines(post)
    ensures Run(pre + [Directive(ShowKeyword)] + post, true).full == ContentLines(pre) + ContentLines(post)
    decreases |post|
  {
    FirstDirectiveDecides(pre, ShowKeyword, post);
    var all := pre + [Directive(ShowKeyword)] + post;
    RunInvariant(all, true);
    ContentLinesAppend(pre + [Directive(ShowKeyword)], post);
    ContentLinesAppend(pre, [Directive(ShowKeyword)]);
    ContentLinesOne(Directive(ShowKeyword));
    assert ContentLines(pre) + [] == ContentLines(pre);
    ShownAfterShow(pre, post);
  }

  lemma ShownAfterShow(pre: seq<Entry>, post: seq<Entry>)
    requires IsPure(pre)
    requires forall i :: 0 <= i < |post| ==> post[i] != Directive(HideKeyword)
    ensures !Run(pre + [Directive(ShowKeyword)] + post, true).hide
    ensures Run(pre + [Directive(ShowKeyword)] + post, true).shown == ContentLines(post)
  {
    HiddenStart(pre);
    ShowResumes(pre, post, true);
  }

  /** A `show` turns display back on wherever it stands: until the next
      `hide`, every line of code after it is shown. */
  lemma ShowResumes(pre: seq<Entry>, post: seq<Entry>, h0: bool)
    requires forall i :: 0 <= i < |post| ==> post[i] != Directive(HideKeyword)
    ensures !Run(pre + [Directive(ShowKeyword)] + post, h0).hide
    ensures Run(pre + [Directive(ShowKeyword)] + post, h0).shown == Run(pre, h0).shown + ContentLines(post)
  {
    var xs := pre + [Directive(ShowKeyword)];
    assert xs[..|xs| - 1] == pre;
    RunWhileShown(xs, post, h0);
  }

  /** Once code is shown, entries without `hide` add each of their lines. */
  lemma {:induction false} RunWhileShown(xs: seq<Entry>, post: seq<Entry>, h0: bool)
    requires !Run(xs, h0).hide
    requires forall i :: 0 <= i < |post| ==> post[i] != Directive(HideKeyword)
    ensures !Run(xs + post, h0).hide
    ensures Run(xs + post, h0).shown == Run(xs, h0).shown + ContentLines(post)
    decreases |post|
  {
    if |post| == 0 {
      assert xs + post == xs;
    } else {
      var init, e := post[..|post| - 1], post[|post| - 1];
      RunWhileShown(xs, init, h0);
      assert (xs + post)[..|xs + post| - 1] == xs + init;
      StepWhileShown(Run(xs + init, h0), e);
      assert init + [e] == post;
      ContentLinesAppend(init, [e]);
    }
  }

  /** While code is shown, any entry but `hide` keeps it shown and adds its
      line, if it is one. */
  lemma StepWhileShown(st: State, e: Entry)
    requires !st.hide && e != Directive(HideKeyword)
    ensures !Step(st, e).hide
    ensures Step(st, e).shown == st.shown + ContentLines([e])
  {
    ContentLinesOne(e);
  }

  /** The numbers joined as template literals print them. */
  function JoinNumbers(ns: seq<nat>): string {
    Join(seq(|ns|, i requires 0 <= i < |ns| => NatToString(ns[i])), ",")
  }

  /** The lines and the directive loop for a fence body: the body is trimmed
      and split at `\n`. */
  function Analyse(content: string): (r: (seq<Entry>, State))
    ensures r.1.full == ContentLines(r.0)
    ensures r.1.full == CodeLines(Split(Trim(content), '\n'))
    ensures IsSubsequence(r.1.shown, r.1.full)
    ensures IsPure(r.0) <==> NoDirectiveLine(Split(Trim(content), '\n'))
  {
    var entries := ClassifyAll(Split(Trim(content), '\n'));
    ClassifyAllCode(Split(Trim(content), '\n'));
    RunInvariant(entries, InitialHide(entries));
    (entries, Run(entries, InitialHide(entries)))
  }

  /** The token handed to the default renderer: only the shown lines, and the
      shown focus numbers in braces after the language. */
  function ShownToken(token: FenceToken, lang: string, st: State): FenceToken {
    token.(content := Join(st.shown, "\n") + "\n", info := lang + " {" + JoinNumbers(st.shownFocus) + "}")
  }

  const WrapperOpen := "<div style=\"position: relative\">"
  const TriggerOpen := "<CodemoTrigger title=\"显示代码\" "
  const TriggerClose := " /></div>"

  /** The rule. `addHiddenCopy(html, code)` stands for the DOM step that marks
      the rendered `<pre>` and appends a hidden copy holding `code`; it fails
      when the rendering has no `<pre>`. `escape` is the HTML escaper. */
  function CodemoRule(addHiddenCopy: (string, string) -> Result<string>, escape: string -> string): PartialRule {
    (ctx: RuleContext) => RenderCodemo(addHiddenCopy, escape, ctx)
  }

  /** One call of the rule on the fence `ctx`: a bad argument list fails
      first; the wrapped renderer always gets the shown lines; the hidden
      copy is needed, and can fail, only when the fence has directives; a
      success never declines, and its html is wrapped for the page component
      around the code player's trigger. */
  function RenderCodemo(addHiddenCopy: (string, string) -> Result<string>, escape: string -> string,
                        ctx: RuleContext): (r: Result<RuleOutcome>)
    ensures CodemoArgs.ParseCodemoArgs(ctx.attr).Err? ==> r == Err(CodemoArgs.ParseCodemoArgs(ctx.attr).error)
    ensures r.Ok? ==> r.value.token == ShownToken(ctx.token, ctx.lang, Analyse(ctx.content).1)
    ensures r.Ok? ==> ctx.defaultFn(r.value.token).Ok?
    ensures r.Ok? ==> r.value.html.Some? && StartsWith(r.value.html.value, WrapperOpen)
                      && EndsWith(r.value.html.value, TriggerClose)
    ensures NoDirectiveLine(Split(Trim(ctx.content), '\n')) ==>
              (r.Ok? <==> CodemoArgs.ParseCodemoArgs(ctx.attr).Ok?
                          && ctx.defaultFn(ShownToken(ctx.token, ctx.lang, Analyse(ctx.content).1)).Ok?)
    ensures var (entries, st) := Analyse(ctx.content);
            var rendered := ctx.defaultFn(ShownToken(ctx.token, ctx.lang, st));
            r.Ok? <==> && CodemoArgs.ParseCodemoArgs(ctx.attr).Ok? && rendered.Ok?
                       && (IsPure(entries) || addHiddenCopy(rendered.value, escape(Join(st.full, "\n"))).Ok?)
    ensures r.Ok? ==>
              EndsWith(r.value.html.value, TriggerOpen + TriggerProps(ctx.lang, Analyse(ctx.content).1,
                                                                      CodemoArgs.ParseCodemoArgs(ctx.attr).value.input, escape)
                                           + TriggerClose)
    ensures var (entries, st) := Analyse(ctx.content);
            r.Ok? && IsPure(entries) ==> StartsWith(r.value.html.value, WrapperOpen + ctx.defaultFn(r.value.token).value)
    ensures var (entries, st) := Analyse(ctx.content);
            r.Ok? && !IsPure(entries) ==>
              StartsWith(r.value.html.value,
                         WrapperOpen + addHiddenCopy(ctx.defaultFn(r.value.token).value, escape(Join(st.full, "\n"))).value)
  {
    match CodemoArgs.ParseCodemoArgs(ctx.attr)
    case Err(e) => Err(e)
    case Ok(args) =>
      var (entries, st) := Analyse(ctx.content);
      var token := ShownToken(ctx.token, ctx.lang, st);
      match ctx.defaultFn(token)
      case Err(e) => Err(e)
      case Ok(rendered) =>
        var fullContent := Join(st.full, "\n");
        match (if IsPure(entries) then Ok(rendered) else addHiddenCopy(rendered, escape(fullContent)))
        case Err(e) => Err(e)
        case Ok(html) =>
          Ok(RuleOutcome(token, Some(Wrap(html, TriggerProps(ctx.lang, st, args.input, escape)))))
  }

  /** The focus prop: the 0-based focus indices into the full code, joined
      by commas; absent when there are none. */
  function FocusProp(st: State): Option<string> {
    if |st.fullFocus| > 0 then Some(JoinNumbers(st.fullFocus)) else None
  }

  /** The props of the code player's trigger, in this order: the language,
      the full code joined by newlines, the focus, and the `input`
      argument. */
  function TriggerProps(lang: string, st: State, input: Option<string>, escape: string -> string): string {
    CodemoArgs.ToPropString([("lang", Some(lang)), ("code", Some(Join(st.full, "\n"))),
                             ("focus", FocusProp(st)), ("input", input)], escape)
  }

  /** The four props as pieces, each separated from the next by one space;
      a falsy prop leaves its piece empty. */
  lemma TriggerPropsPieces(lang: string, code: string, focus: Option<string>, input: Option<string>,
                           escape: string -> string)
    ensures CodemoArgs.ToPropString([("lang", Some(lang)), ("code", Some(code)), ("focus", focus), ("input", input)], escape)
         == CodemoArgs.PropPiece("lang", Some(lang), escape) + " " + CodemoArgs.PropPiece("code", Some(code), escape)
            + " " + CodemoArgs.PropPiece("focus", focus, escape) + " " + CodemoArgs.PropPiece("input", input, escape)
  {
    var p1 := [("lang", Some(lang))];
    var p2 := p1 + [("code", Some(code))];
    var p3 := p2 + [("focus", focus)];
    var a := CodemoArgs.PropPiece("lang", Some(lang), escape);
    assert CodemoArgs.ToPropString(p1, escape) == a by {
      var pieces := seq(|p1|, i requires 0 <= i < |p1| => CodemoArgs.PropPiece(p1[i].0, p1[i].1, escape));
      assert pieces == [a];
    }
    CodemoArgs.PropStringAppend(p1, "code", Some(code), escape);
    CodemoArgs.PropStringAppend(p2, "focus", focus, escape);
    CodemoArgs.PropStringAppend(p3, "input", input, escape);
    assert p3 + [("input", input)] == [("lang", Some(lang)), ("code", Some(code)), ("focus", focus), ("input", input)];
  }

  /** The page component around the rendered code, followed by the code
      player's trigger carrying `props`. */
  function Wrap(html: string, props: string): (out: string)
    ensures StartsWith(out, WrapperOpen + html)
    ensures EndsWith(out, TriggerOpen + props + TriggerClose)
    ensures StartsWith(out, WrapperOpen) && EndsWith(out, TriggerClose)
  {
    var out := WrapperOpen + html + TriggerOpen + props + TriggerClose;
    assert out == (WrapperOpen + html) + (TriggerOpen + props + TriggerClose);
    assert out == WrapperOpen + (html + TriggerOpen + props + TriggerClose);
    assert out == (WrapperOpen + html + TriggerOpen + props) + TriggerClose;
    out
  }

  /** `c` and `cpp` fences whose attribute starts with `codemo`. */
  predicate IsCodemoFence(lang: string, attr: string) {
    (lang == "c" || lang == "cpp") && StartsWith(attr, "codemo")
  }

  function CodemoRegistration(addHiddenCopy: (string, string) -> Result<string>, escape: string -> string): (r: Registration)
    ensures r.matcher.Pred?
    ensures forall lang, attr :: Matches(r.matcher, lang, attr) <==> IsCodemoFence(lang, attr)
  {
    Registration(Pred((lang, attr) => IsCodemoFence(lang, attr)), CodemoRule(addHiddenCopy, escape))
  }

  /** End to end, for a fence without directives and without an argument
      list: the wrapped renderer draws the trimmed body, no hidden copy is
      made, and the props carry the language and the code, the falsy `focus`
      and `input` leaving only their two separating spaces. */
  lemma PureRule(addHiddenCopy: (string, string) -> Result<string>, escape: string -> string,
                 ctx: RuleContext, rendered: string)
    requires !(0 < IndexOf(ctx.attr, '(') < IndexOf(ctx.attr, ')'))
    requires NoDirectiveLine(Split(Trim(ctx.content), '\n'))
    requires ctx.defaultFn(ctx.token.(content := Trim(ctx.content) + "\n", info := ctx.lang + " {}")) == Ok(rendered)
    ensures RenderCodemo(addHiddenCopy, escape, ctx)
         == Ok(RuleOutcome(ctx.token.(content := Trim(ctx.content) + "\n", info := ctx.lang + " {}"),
                           Some(WrapperOpen + rendered + TriggerOpen
                                + (CodemoArgs.PropPiece("lang", Some(ctx.lang), escape) + " "
                                   + CodemoArgs.PropPiece("code", Some(Trim(ctx.content)), escape) + "  ")
                                + TriggerClose)))
  {
    PureFence(ctx.content, ctx.token, ctx.lang);
    PureAnalyse(ctx.content);
    assert CodemoArgs.ParseCodemoArgs(ctx.attr) == Ok(CodemoArgs.DefaultArgs);
    PureProps(ctx.lang, Trim(ctx.content), escape);
  }

  /** The props of a fence with no focus and no `input`. */
  lemma PureProps(lang: string, code: string, escape: string -> string)
    ensures CodemoArgs.ToPropString([("lang", Some(lang)), ("code", Some(code)), ("focus", None), ("input", Some(""))], escape)
         == CodemoArgs.PropPiece("lang", Some(lang), escape) + " " + CodemoArgs.PropPiece("code", Some(code), escape) + "  "
  {
    TriggerPropsPieces(lang, code, None, Some(""), escape);
  }

  /** In a fence without directives every line is shown: the renderer gets
      the trimmed body (plus a newline) with an empty focus list, and the
      full code is the trimmed body. */
  lemma PureFence(content: string, token: FenceToken, lang: string)
    requires NoDirectiveLine(Split(Trim(content), '\n'))
    ensures IsPure(Analyse(content).0)
    ensures ShownToken(token, lang, Analyse(content).1) == token.(content := Trim(content) + "\n", info := lang + " {}")
    ensures Join(Analyse(content).1.full, "\n") == Trim(content)
  {
    PureAnalyse(content);
    ShownTokenPure(token, lang, Analyse(content).1, Trim(content));
  }

  lemma ShownTokenPure(token: FenceToken, lang: string, st: State, body: string)
    requires st.shown == Split(body, '\n') && st.shownFocus == []
    ensures ShownToken(token, lang, st) == token.(content := body + "\n", info := lang + " {}")
  {
    NoNumbers();
    assert lang + " {" + "" + "}" == lang + " {}";
  }

  lemma NoNumbers()
    ensures JoinNumbers([]) == ""
  {
  }

  /** No line is a directive. */
  predicate NoDirectiveLine(lines: seq<string>) {
    forall i :: 0 <= i < |lines| ==> DirectiveCapture(lines[i]).None?
  }

  lemma PureAnalyse(content: string)
    requires NoDirectiveLine(Split(Trim(content), '\n'))
    ensures IsPure(Analyse(content).0) && Analyse(content).1.shownFocus == [] && Analyse(content).1.fullFocus == []
    ensures Analyse(content).1.shown == Split(Trim(content), '\n')
    ensures Analyse(content).1.full == Split(Trim(content), '\n')
  {
    PureLines(Split(Trim(content), '\n'));
  }

  lemma PureLines(lines: seq<string>)
    requires NoDirectiveLine(lines)
    ensures var entries := ClassifyAll(lines);
            var st := Run(entries, InitialHide(entries));
            && IsPure(entries) && st.shownFocus == [] && st.fullFocus == [] && st.shown == lines && st.full == lines
  {
    var entries := ClassifyAll(lines);
    assert forall i :: 0 <= i < |entries| ==> entries[i] == Content(lines[i]);
    assert InitialHide(entries) == false;
    PureRun(entries, lines);
  }

  /** A run over code lines only shows them all and marks no focus. */
  lemma PureRun(entries: seq<Entry>, lines: seq<string>)
    requires |entries| == |lines| && forall i :: 0 <= i < |entries| ==> entries[i] == Content(lines[i])
    ensures Run(entries, false).shown == lines && Run(entries, false).full == lines
    ensures Run(entries, false).shownFocus == [] && Run(entries, false).fullFocus == []
  {
    ContentLinesPure(entries, lines);
    RunInvariant(entries, false);
    PureNoFocus(entries);
    NoHideShowsAll(entries);
  }

  lemma {:induction false} ContentLinesPure(entries: seq<Entry>, lines: seq<string>)
    requires |entries| == |lines| && forall i :: 0 <= i < |entries| ==> entries[i] == Content(lines[i])
    ensures ContentLines(entries) == lines
  {
    if |entries| > 0 {
      ContentLinesPure(entries[1..], lines[1..]);
    }
  }

  lemma {:induction false} PureNoFocus(entries: seq<Entry>)
    requires IsPure(entries)
    ensures Run(entries, false).shownFocus == [] && Run(entries, false).fullFocus == []
  {
    if |entries| > 0 {
      PureNoFocus(entries[..|entries| - 1]);
    }
  }
}
