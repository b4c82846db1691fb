/** Chaining of fence renderers: each registered partial rule wraps the
    renderer installed before it, handles the fences its matcher accepts,
    and otherwise (or when it declines with no output) defers to the
    renderer it wrapped, passing on any change it made to the token. */
module FenceRules {
  import opened Wrappers
  import opened Strings
  import SdscParser

  /** The part of a markdown fence token the rules read and write. */
  datatype FenceToken = FenceToken(info: string, content: string)

  /** A fence renderer; it may fail, like a renderer that throws. */
  type Renderer = FenceToken -> Result<string>

  /** What a partial rule sees: the code, the language and the attribute
      split off the info string, the token, and the wrapped renderer. */
  datatype RuleContext = RuleContext(content: string, lang: string, attr: string,
                                     token: FenceToken, defaultFn: Renderer)

  /** The token as the rule left it, and its output; `None` means "render
      with the wrapped renderer". */
  datatype RuleOutcome = RuleOutcome(token: FenceToken, html: Option<string>)

  type PartialRule = RuleContext -> Result<RuleOutcome>

  /** A rule applies to one language, or to the languages and attributes a
      predicate accepts. */
  datatype Matcher = Lang(name: string) | Pred(test: (string, string) -> bool)

  datatype Registration = Registration(matcher: Matcher, rule: PartialRule)

  /** `[lang, ...others] = info.split(" ")` and `attr = others.join(" ")`. */
  function SplitInfo(info: string): (r: (string, string))
    ensures ' ' !in r.0
    ensures ' ' !in info ==> r == (info, "")
    ensures ' ' in info ==> r == (info[..IndexOf(info, ' ')], info[IndexOf(info, ' ') + 1..])
  {
    var parts := Split(info, ' ');
    assert ' ' !in info ==> parts == [info];
    assert ' ' in info ==> Join(parts[1..], " ") == info[IndexOf(info, ' ') + 1..] by {
      if ' ' in info { SplitTailJoin(info, ' '); }
    }
    (parts[0], Join(parts[1..], " "))
  }

  /** The language and attribute put back together give the info string. */
  lemma SplitInfoJoin(info: string)
    ensures var (lang, attr) := SplitInfo(info);
            if ' ' in info then lang + " " + attr == info else lang == info && attr == ""
  {
    if ' ' in info {
      var i := IndexOf(info, ' ');
      assert info == info[..i] + [' '] + info[i + 1..];
    }
  }

  predicate Matches(m: Matcher, lang: string, attr: string) {
    match m
    case Lang(name) => name == lang
    case Pred(test) => test(lang, attr)
  }

  /** The renderer `addFenceRule` installs on top of `defaultFn`. */
  function Dispatch(reg: Registration, defaultFn: Renderer): Renderer {
    (token: FenceToken) =>
      var (lang, attr) := SplitInfo(token.info);
      if Matches(reg.matcher, lang, attr) then
        match reg.rule(RuleContext(token.content, lang, attr, token, defaultFn))
        case Err(e) => Err(e)
        case Ok(outcome) => if outcome.html.Some? then Ok(outcome.html.value) else defaultFn(outcome.token)
      else defaultFn(token)
  }

  /** The renderer after registering `regs` in order over `base`: the last
      registration is the outermost wrapper. */
  function Install(regs: seq<Registration>, base: Renderer): Renderer {
    if |regs| == 0 then base else Dispatch(regs[|regs| - 1], Install(regs[..|regs| - 1], base))
  }

  /** A dispatcher whose matcher rejects the fence is the wrapped renderer. */
  lemma DispatchSkips(reg: Registration, defaultFn: Renderer, token: FenceToken)
    requires !Matches(reg.matcher, SplitInfo(token.info).0, SplitInfo(token.info).1)
    ensures Dispatch(reg, defaultFn)(token) == defaultFn(token)
  {
  }

  /** A rule that declines after changing the token hands the changed token
      to the wrapped renderer; one that fails makes rendering fail. */
  lemma DispatchDeclines(reg: Registration, defaultFn: Renderer, token: FenceToken)
    requires Matches(reg.matcher, SplitInfo(token.info).0, SplitInfo(token.info).1)
    ensures var out := reg.rule(RuleContext(token.content, SplitInfo(token.info).0, SplitInfo(token.info).1, token, defaultFn));
            Dispatch(reg, defaultFn)(token)
              == if out.Err? then Err(out.error)
                 else if out.value.html.Some? then Ok(out.value.html.value)
                 else defaultFn(out.value.token)
  {
  }

  /** When no registered matcher accepts a fence, the installed chain renders
      it exactly as the base renderer. */
  lemma {:induction false} InstallNoneMatch(regs: seq<Registration>, base: Renderer, token: FenceToken)
    requires forall i :: 0 <= i < |regs| ==> !Matches(regs[i].matcher, SplitInfo(token.info).0, SplitInfo(token.info).1)
    ensures Install(regs, base)(token) == base(token)
  {
    if |regs| > 0 {
      var inner := Install(regs[..|regs| - 1], base);
      DispatchSkips(regs[|regs| - 1], inner, token);
      InstallNoneMatch(regs[..|regs| - 1], base, token);
    }
  }

  /** Registering over a chain wraps it: the newest registration sees the
      fence first. */
  lemma InstallSnoc(regs: seq<Registration>, reg: Registration, base: Renderer)
    ensures Install(regs + [reg], base) == Dispatch(reg, Install(regs, base))
  {
    assert (regs + [reg])[..|regs|] == regs;
  }

  /** The latest registration whose matcher accepts a fence is the one that
      handles it, wrapping everything registered before it; the later ones
      pass the fence through. */
  lemma {:induction false} InstallLastMatch(regs: seq<Registration>, base: Renderer, token: FenceToken, j: nat)
    requires j < |regs| && Matches(regs[j].matcher, SplitInfo(token.info).0, SplitInfo(token.info).1)
    requires forall k :: j < k < |regs| ==> !Matches(regs[k].matcher, SplitInfo(token.info).0, SplitInfo(token.info).1)
    ensures Install(regs, base)(token) == Dispatch(regs[j], Install(regs[..j], base))(token)
    decreases |regs|
  {
    var init := regs[..|regs| - 1];
    if j == |regs| - 1 {
      assert init == regs[..j];
    } else {
      DispatchSkips(regs[|regs| - 1], Install(init, base), token);
      assert init[j] == regs[j] && init[..j] == regs[..j];
      InstallLastMatch(init, base, token, j);
    }
  }

  /** The `io` rule: mark the fence as having no line numbers and let the
      wrapped renderer draw it. */
  const IoInfo := "io:no-line-numbers"

  function IoRule(ctx: RuleContext): (r: Result<RuleOutcome>)
    ensures r.Ok? && r.value.html.None? && r.value.token.content == ctx.token.content
    ensures r.value.token.info == IoInfo
  {
    Ok(RuleOutcome(ctx.token.(info := IoInfo), None))
  }

  const IoRegistration := Registration(Lang("io"), IoRule)

  /** An `io` fence (whatever its attribute) is drawn by the wrapped renderer
      with the info `io:no-line-numbers`; any other fence is left alone. */
  lemma IoDispatch(defaultFn: Renderer, token: FenceToken)
    ensures Dispatch(IoRegistration, defaultFn)(token)
         == if SplitInfo(token.info).0 == "io" then defaultFn(token.(info := IoInfo)) else defaultFn(token)
  {
    var (lang, attr) := SplitInfo(token.info);
    if lang == "io" {
      var ctx := RuleContext(token.content, lang, attr, token, defaultFn);
      assert IoRegistration.rule(ctx) == Ok(RuleOutcome(token.(info := IoInfo), None));
      DispatchDeclines(IoRegistration, defaultFn, token);
    } else {
      DispatchSkips(IoRegistration, defaultFn, token);
    }
  }

  /** The `sdsc` rule: replace the content by the serialised syntax tree and
      let the wrapped renderer draw it; a syntax error fails the render.
      The JSON serialisation is a parameter. */
  function SdscRule(stringify: seq<SdscParser.Node> -> string): PartialRule {
    (ctx: RuleContext) =>
      match SdscParser.Parse(ctx.content)
      case Err(e) => Err(e)
      case Ok(tree) => Ok(RuleOutcome(ctx.token.(content := stringify(tree)), None))
  }

  /** An `sdsc` fence renders as its serialised tree would, and fails
      exactly when the description does not parse. */
  lemma SdscDispatch(stringify: seq<SdscParser.Node> -> string, defaultFn: Renderer, token: FenceToken)
    requires SplitInfo(token.info).0 == "sdsc"
    ensures var tree := SdscParser.Parse(token.content);
            Dispatch(Registration(Lang("sdsc"), SdscRule(stringify)), defaultFn)(token)
              == if tree.Err? then Err(tree.error) else defaultFn(token.(content := stringify(tree.value)))
  {
    var reg := Registration(Lang("sdsc"), SdscRule(stringify));
    var (lang, attr) := SplitInfo(token.info);
    var tree := SdscParser.Parse(token.content);
    var ctx := RuleContext(token.content, lang, attr, token, defaultFn);
    assert reg.rule(ctx) == if tree.Err? then Err(tree.error) else Ok(RuleOutcome(token.(content := stringify(tree.value)), None));
    DispatchDeclines(reg, defaultFn, token);
  }
}
